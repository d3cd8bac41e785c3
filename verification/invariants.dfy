/** Every handler keeps the database invariant: users numbered in
    registration order with unique emails, fresh increasing post and
    comment ids, unique titles, and foreign keys that name existing rows. */
module Invariants {
  import opened Wrappers
  import opened Tables
  import opened Records
  import opened Outcomes
  import opened Guards
  import opened Handlers

  lemma EmptyStoreValid()
    ensures Valid(EmptyStore)
  {
  }

  /** Adding users keeps every user reference resolvable. */
  lemma UsersGrowKeepsHasUser(s: Store, s': Store, id: nat)
    requires HasUser(s, id)
    requires forall u :: u in s.users ==> u in s'.users
    ensures HasUser(s', id)
  {
    var u :| u in s.users && u.id == id;
    assert u in s'.users;
  }

  /** A post reference stays resolvable when every post id survives. */
  lemma PostIdsKeptKeepsHasPost(s: Store, s': Store, id: nat)
    requires HasPost(s, id)
    requires forall p :: p in s.posts ==> exists p' :: p' in s'.posts && p'.id == p.id
    ensures HasPost(s', id)
  {
    var p :| p in s.posts && p.id == id;
    var p' :| p' in s'.posts && p'.id == p.id;
  }

  lemma RegisterPreservesValid(s: Store, session: Session, form: Option<RegisterForm>,
                               hasher: Hasher, salt: string)
    requires Valid(s)
    ensures Valid(Register(s, session, form, hasher, salt).store)
  {
    var s' := Register(s, session, form, hasher, salt).store;
    if form.Some? && !EmailTaken(s, form.value.email) {
      var u := s'.users[|s.users|];
      assert s'.users == s.users + [u];
      AppendDistinct(s.users, u, UserEmail);
      forall p | p in s'.posts ensures HasUser(s', p.authorId) {
        UsersGrowKeepsHasUser(s, s', p.authorId);
      }
      forall c | c in s'.comments ensures HasUser(s', c.authorId) {
        UsersGrowKeepsHasUser(s, s', c.authorId);
      }
    }
  }

  lemma ShowPostPreservesValid(s: Store, session: Session, postId: nat, form: Option<CommentForm>)
    requires Valid(s)
    ensures Valid(ShowPost(s, session, postId, form).store)
  {
    var s' := ShowPost(s, session, postId, form).store;
    if HasPost(s, postId) && form.Some? && CurrentUser(s, session).Some? {
      var c := s'.comments[|s.comments|];
      assert s'.comments == s.comments + [c];
      AppendIncreasing(s.comments, c, CommentId);
      assert HasUser(s', c.authorId);
    }
  }

  lemma AddNewPostPreservesValid(s: Store, session: Session, form: Option<PostForm>, today: string)
    requires Valid(s)
    ensures Valid(AddNewPost(s, session, form, today).store)
  {
    var s' := AddNewPost(s, session, form, today).store;
    if IsAdmin(s, session) && form.Some? && !TitleTaken(s, form.value.title) {
      var p := s'.posts[|s.posts|];
      assert s'.posts == s.posts + [p];
      AppendIncreasing(s.posts, p, PostId);
      AppendDistinct(s.posts, p, PostTitle);
      forall c | c in s'.comments
        ensures HasPost(s', c.postId)
      {
        PostIdsKeptKeepsHasPost(s, s', c.postId);
      }
    }
  }

  /** Overwriting post `i` with a row that keeps its id and has a title no
      other post has keeps post ids increasing and titles unique. */
  lemma ReplacePostKeepsPostsValid(s: Store, i: nat, edited: BlogPost)
    requires PostsValid(s)
    requires i < |s.posts|
    requires edited.id == s.posts[i].id
    requires forall j :: 0 <= j < |s.posts| && j != i ==> s.posts[j].title != edited.title
    ensures PostsValid(s.(posts := s.posts[i := edited]))
  {
    UpdateIncreasing(s.posts, i, edited, PostId);
    UpdateDistinct(s.posts, i, edited, PostTitle);
    assert s.posts[i] in s.posts;
  }

  /** ... and, when its author exists, keeps every foreign key resolvable. */
  lemma ReplacePostKeepsLinked(s: Store, i: nat, edited: BlogPost)
    requires Linked(s)
    requires i < |s.posts|
    requires edited.id == s.posts[i].id
    requires HasUser(s, edited.authorId)
    ensures Linked(s.(posts := s.posts[i := edited]))
  {
    var s' := s.(posts := s.posts[i := edited]);
    forall p | p in s.posts
      ensures exists p' :: p' in s'.posts && p'.id == p.id
    {
      var j :| 0 <= j < |s.posts| && s.posts[j] == p;
      assert s'.posts[j] in s'.posts;
    }
    forall c | c in s'.comments
      ensures HasPost(s', c.postId)
    {
      PostIdsKeptKeepsHasPost(s, s', c.postId);
    }
    forall p | p in s'.posts
      ensures HasUser(s', p.authorId)
    {
      var j :| 0 <= j < |s'.posts| && s'.posts[j] == p;
      if j != i { assert s.posts[j] in s.posts; }
    }
  }

  /** Overwriting post `i` with a row that keeps its id, has a title no
      other post has, and names an existing author keeps the database valid. */
  lemma ReplacePostPreservesValid(s: Store, i: nat, edited: BlogPost)
    requires Valid(s)
    requires i < |s.posts|
    requires edited.id == s.posts[i].id
    requires HasUser(s, edited.authorId)
    requires forall j :: 0 <= j < |s.posts| && j != i ==> s.posts[j].title != edited.title
    ensures Valid(s.(posts := s.posts[i := edited]))
  {
    var s' := s.(posts := s.posts[i := edited]);
    ReplacePostKeepsPostsValid(s, i, edited);
    ReplacePostKeepsLinked(s, i, edited);
    assert UsersValid(s') && CommentsValid(s');
  }

  lemma EditPostPreservesValid(s: Store, session: Session, postId: nat, form: Option<PostForm>)
    requires Valid(s)
    ensures Valid(EditPost(s, session, postId, form).store)
  {
    var s' := EditPost(s, session, postId, form).store;
    if IsAdmin(s, session) && HasPost(s, postId) && form.Some?
       && !TitleTakenByOther(s, form.value.title, postId) {
      var f := form.value;
      var i :| 0 <= i < |s.posts| && s.posts[i].id == postId
               && s' == s.(posts := s.posts[i := s.posts[i].(title := f.title,
                    subtitle := f.subtitle, imgUrl := f.imgUrl, body := f.body,
                    authorId := ADMIN_ID)]);
      var edited := s'.posts[i];
      forall j | 0 <= j < |s.posts| && j != i
        ensures s.posts[j].title != edited.title
      {
        assert s.posts[j] in s.posts;
        assert s.posts[j].id != postId by {
          if j < i { assert PostId(s.posts[j]) < PostId(s.posts[i]); }
          else { assert PostId(s.posts[i]) < PostId(s.posts[j]); }
        }
      }
      ReplacePostPreservesValid(s, i, edited);
    }
  }

  /** Removing post `i` keeps the posts table valid and every post
      reference resolvable for the comments `cs'`, provided none of them
      belongs to the removed post. */
  lemma RemovePostKeepsPosts(s: Store, i: nat, cs': seq<Comment>)
    requires PostsValid(s) && Linked(s)
    requires i < |s.posts|
    requires forall c :: c in cs' ==> c in s.comments && c.postId != s.posts[i].id
    ensures var s' := s.(posts := RemoveAt(s.posts, i), comments := cs');
            && PostsValid(s')
            && (forall p :: p in s'.posts ==> HasUser(s', p.authorId))
            && (forall c :: c in s'.comments ==> HasPost(s', c.postId))
  {
    var s' := s.(posts := RemoveAt(s.posts, i), comments := cs');
    RemoveAtMembers(s.posts, i, PostId);
    RemoveAtDistinct(s.posts, i, PostTitle);
    forall c | c in cs'
      ensures HasPost(s', c.postId)
    {
      var p :| p in s.posts && p.id == c.postId;
      assert p in s'.posts;
    }
  }

  /** Removing post `i`, when no comment belongs to it, keeps the database
      valid: the commit `delete_post` makes for a post without comments. */
  lemma RemovePostPreservesValid(s: Store, i: nat)
    requires Valid(s)
    requires i < |s.posts|
    requires !HasCommentsOn(s, s.posts[i].id)
    ensures Valid(s.(posts := RemoveAt(s.posts, i)))
  {
    RemovePostKeepsPosts(s, i, s.comments);
  }

  /** `delete_post` as written keeps the database valid: either it
      removes a post no comment refers to, or it changes nothing. */
  lemma DeletePostPreservesValid(s: Store, session: Session, postId: nat)
    requires Valid(s)
    ensures Valid(DeletePost(s, session, postId).store)
  {
    var s' := DeletePost(s, session, postId).store;
    if s' != s {
      var i :| 0 <= i < |s.posts| && s.posts[i].id == postId
               && s' == s.(posts := RemoveAt(s.posts, i));
      RemovePostPreservesValid(s, i);
    }
  }

  /** Removing post `i` together with its comments keeps the database valid. */
  lemma CascadePostPreservesValid(s: Store, i: nat)
    requires Valid(s)
    requires i < |s.posts|
    ensures Valid(s.(posts := RemoveAt(s.posts, i), comments := CommentsNotOn(s.comments, s.posts[i].id)))
  {
    var cs' := CommentsNotOn(s.comments, s.posts[i].id);
    RemovePostKeepsPosts(s, i, cs');
  }

  /** The cascading delete keeps the database valid. */
  lemma DeletePostCascadePreservesValid(s: Store, session: Session, postId: nat)
    requires Valid(s)
    ensures Valid(DeletePostCascade(s, session, postId).store)
  {
    var s' := DeletePostCascade(s, session, postId).store;
    if IsAdmin(s, session) && HasPost(s, postId) {
      var i :| 0 <= i < |s.posts| && s.posts[i].id == postId
               && s' == s.(posts := RemoveAt(s.posts, i), comments := CommentsNotOn(s.comments, postId));
      CascadePostPreservesValid(s, i);
    }
  }

  /** Removing one comment row keeps the comments table valid. */
  lemma RemoveCommentPreservesValid(s: Store, i: nat)
    requires Valid(s)
    requires i < |s.comments|
    ensures Valid(s.(comments := RemoveAt(s.comments, i)))
  {
    RemoveAtMembers(s.comments, i, CommentId);
  }

  lemma DeleteCommentPreservesValid(s: Store, session: Session, commentId: nat)
    requires Valid(s)
    ensures Valid(DeleteComment(s, session, commentId).store)
  {
    var s' := DeleteComment(s, session, commentId).store;
    if s' != s {
      var i :| 0 <= i < |s.comments| && s.comments[i].id == commentId
               && s' == s.(comments := RemoveAt(s.comments, i));
      RemoveCommentPreservesValid(s, i);
    }
  }

  lemma DeleteOwnCommentPreservesValid(s: Store, session: Session, commentId: nat)
    requires Valid(s)
    ensures Valid(DeleteOwnComment(s, session, commentId).store)
  {
    var s' := DeleteOwnComment(s, session, commentId).store;
    if s' != s {
      var i :| 0 <= i < |s.comments| && s.comments[i].id == commentId
               && s' == s.(comments := RemoveAt(s.comments, i));
      RemoveCommentPreservesValid(s, i);
    }
  }
}
