/** Properties that relate several handlers, or that hold only of the
    databases the handlers can reach (those satisfying `Valid`). */
module Properties {
  import opened Wrappers
  import opened Tables
  import opened Records
  import opened Outcomes
  import opened Guards
  import opened Handlers
  import opened Invariants

  /** With unique emails, the row the email lookup finds is the user with
      that email. */
  lemma EmailLookupFindsOwner(s: Store, u: User)
    requires Distinct(s.users, UserEmail)
    requires u in s.users
    ensures UserIndexByEmail(s, u.email).Some?
    ensures s.users[UserIndexByEmail(s, u.email).value] == u
  {
    var i := UserIndexByEmail(s, u.email).value;
    var j :| 0 <= j < |s.users| && s.users[j] == u;
    DistinctIndex(s.users, UserEmail, i, j);
  }

  /** `login` with a known email: the password check alone decides between
      logging in exactly the user with that email and re-rendering the form
      with "Incorrect Password" and the session untouched. */
  lemma LoginOutcome(s: Store, session: Session, f: LoginForm, hasher: Hasher, u: User)
    requires Valid(s)
    requires u in s.users && u.email == f.email
    ensures var r := Login(s, session, Some(f), hasher);
            if hasher.check(u.password, f.password) then
              r.session == Some(u.id) && r.response == Redirect(AllPosts, None)
            else
              r.session == session && r.response == Render(LoginView, Some(IncorrectPassword))
  {
    EmailLookupFindsOwner(s, u);
  }

  /** Registering with a new email and then logging in with the same
      email and password logs in the user just created, provided the
      password hash checks against the password it was made from. */
  lemma RegisterThenLogin(s: Store, session: Session, name: string, email: string,
                          password: string, hasher: Hasher, salt: string, later: Session)
    requires Valid(s)
    requires !EmailTaken(s, email)
    requires hasher.check(hasher.generate(password, salt), password)
    ensures var r := Register(s, session, Some(RegisterForm(name, email, password)), hasher, salt);
            && r.session == Some(s.nextUserId)
            && Login(r.store, later, Some(LoginForm(email, password)), hasher).session == r.session
  {
    var form := RegisterForm(name, email, password);
    var r := Register(s, session, Some(form), hasher, salt);
    RegisterPreservesValid(s, session, Some(form), hasher, salt);
    var u := r.store.users[|s.users|];
    assert u in r.store.users;
    LoginOutcome(r.store, later, LoginForm(email, password), hasher, u);
  }

  /** The account a registration creates is the admin exactly when it is
      the first account. */
  lemma RegisteredIsAdminIffFirst(s: Store, session: Session, form: RegisterForm,
                                  hasher: Hasher, salt: string)
    requires Valid(s)
    requires !EmailTaken(s, form.email)
    ensures var r := Register(s, session, Some(form), hasher, salt);
            AdminOnly(r.store, r.session).Pass? <==> |s.users| == 0
  {
    var r := Register(s, session, Some(form), hasher, salt);
    var u := r.store.users[|s.users|];
    assert u in r.store.users;
    if |s.users| > 0 {
      if HasUser(r.store, ADMIN_ID) {
        assert r.session != Some(ADMIN_ID);
      }
    }
  }

  /** Every post was written by the admin. */
  predicate AdminAuthored(s: Store)
  {
    forall p :: p in s.posts ==> p.authorId == ADMIN_ID
  }

  /** Only the admin can create or edit posts, so every post stays the
      admin's, and the author reassignment of `edit_post` never changes an
      author in a database where that holds. */
  lemma EditPostKeepsAuthors(s: Store, session: Session, postId: nat, form: Option<PostForm>)
    requires AdminAuthored(s)
    ensures var r := EditPost(s, session, postId, form);
            && AdminAuthored(r.store)
            && |r.store.posts| == |s.posts|
            && forall i :: 0 <= i < |s.posts| ==> r.store.posts[i].authorId == s.posts[i].authorId
  {
    var r := EditPost(s, session, postId, form);
    if r.store != s {
      forall i | 0 <= i < |s.posts|
        ensures r.store.posts[i].authorId == s.posts[i].authorId
      {
        assert s.posts[i] in s.posts;
      }
      forall p | p in r.store.posts
        ensures p.authorId == ADMIN_ID
      {
        var k :| 0 <= k < |r.store.posts| && r.store.posts[k] == p;
        assert s.posts[k] in s.posts;
      }
    }
  }

  lemma AddNewPostKeepsAdminAuthored(s: Store, session: Session, form: Option<PostForm>,
                                     today: string)
    requires AdminAuthored(s)
    ensures AdminAuthored(AddNewPost(s, session, form, today).store)
  {
  }

  /** Every other handler keeps every post the admin's as well: only
      `add_new_post` and `edit_post` write a post's author. */
  lemma OtherHandlersKeepAdminAuthored(s: Store, session: Session, rf: Option<RegisterForm>,
                                       lf: Option<LoginForm>, hasher: Hasher, salt: string,
                                       postId: nat, cf: Option<CommentForm>, commentId: nat)
    requires AdminAuthored(s)
    ensures AdminAuthored(Register(s, session, rf, hasher, salt).store)
    ensures AdminAuthored(Login(s, session, lf, hasher).store)
    ensures AdminAuthored(ShowPost(s, session, postId, cf).store)
    ensures AdminAuthored(DeletePost(s, session, postId).store)
    ensures AdminAuthored(DeletePostCascade(s, session, postId).store)
    ensures AdminAuthored(DeleteComment(s, session, commentId).store)
    ensures AdminAuthored(DeleteOwnComment(s, session, commentId).store)
  {
  }

  /** As written, an admin's `delete_post` of an existing post commits
      exactly when no comment belongs to it, and is a 500 otherwise. */
  lemma DeletePostSucceedsIffUncommented(s: Store, session: Session, postId: nat)
    requires IsAdmin(s, session) && HasPost(s, postId)
    ensures var r := DeletePost(s, session, postId);
            && (r.store != s <==> !HasCommentsOn(s, postId))
            && (r.response == Crash <==> HasCommentsOn(s, postId))
  {
    var r := DeletePost(s, session, postId);
    if !HasCommentsOn(s, postId) {
      var i :| 0 <= i < |s.posts| && s.posts[i].id == postId
               && r.store == s.(posts := RemoveAt(s.posts, i));
      assert |r.store.posts| < |s.posts|;
    }
  }

  /** `delete_post` of a post without comments removes exactly the post
      with that id, keeps every other post, and leaves the comments and
      users alone. */
  lemma DeletePostRemovesExactlyIt(s: Store, session: Session, postId: nat)
    requires Increasing(s.posts, PostId)
    requires IsAdmin(s, session) && HasPost(s, postId) && !HasCommentsOn(s, postId)
    ensures var r := DeletePost(s, session, postId);
            && (forall p :: p in r.store.posts <==> p in s.posts && p.id != postId)
            && |r.store.posts| == |s.posts| - 1
            && r.store.comments == s.comments
            && r.store.users == s.users
  {
    var r := DeletePost(s, session, postId);
    var i :| 0 <= i < |s.posts| && s.posts[i].id == postId
             && r.store == s.(posts := RemoveAt(s.posts, i));
    RemoveAtMembers(s.posts, i, PostId);
  }

  /** The cascading delete removes exactly the post with that id and
      exactly the comments that belong to it; users stay. */
  lemma DeletePostCascadeRemovesExactlyIt(s: Store, session: Session, postId: nat)
    requires Increasing(s.posts, PostId)
    requires IsAdmin(s, session) && HasPost(s, postId)
    ensures var r := DeletePostCascade(s, session, postId);
            && r.response == Redirect(AllPosts, None)
            && (forall p :: p in r.store.posts <==> p in s.posts && p.id != postId)
            && |r.store.posts| == |s.posts| - 1
            && (forall c :: c in r.store.comments <==> c in s.comments && c.postId != postId)
            && !HasCommentsOn(r.store, postId)
            && r.store.users == s.users
  {
    var r := DeletePostCascade(s, session, postId);
    var i :| 0 <= i < |s.posts| && s.posts[i].id == postId
             && r.store == s.(posts := RemoveAt(s.posts, i),
                              comments := CommentsNotOn(s.comments, postId));
    RemoveAtMembers(s.posts, i, PostId);
  }

  /** For a post without comments the cascading delete does exactly what
      `delete_post` as written does. */
  lemma CascadeAgreesWhenUncommented(s: Store, session: Session, postId: nat)
    requires !HasCommentsOn(s, postId)
    ensures DeletePostCascade(s, session, postId) == DeletePost(s, session, postId)
  {
    forall i | 0 <= i < |s.comments|
      ensures s.comments[i].postId != postId
    {
      assert s.comments[i] in s.comments;
    }
  }

  /** `delete_comment`, once its guard passes, removes exactly the
      comment the route names and nothing else. */
  lemma DeleteCommentRemovesExactlyIt(s: Store, session: Session, commentId: nat)
    requires Increasing(s.comments, CommentId)
    requires CommentAuthorOnly(s, session).Pass? && HasComment(s, commentId)
    ensures var r := DeleteComment(s, session, commentId);
            && (forall c :: c in r.store.comments <==> c in s.comments && c.id != commentId)
            && |r.store.comments| == |s.comments| - 1
            && r.store.posts == s.posts && r.store.users == s.users
  {
    var r := DeleteComment(s, session, commentId);
    var i :| 0 <= i < |s.comments| && s.comments[i].id == commentId
             && r.store == s.(comments := RemoveAt(s.comments, i));
    RemoveAtMembers(s.comments, i, CommentId);
  }

  /** Under the intended owner check, an authenticated user asking to
      delete an existing comment gets it deleted exactly when they wrote
      it, and a 403 otherwise. */
  lemma DeleteOwnCommentOwnerOnly(s: Store, session: Session, c: Comment)
    requires Increasing(s.comments, CommentId)
    requires CurrentUser(s, session).Some?
    requires c in s.comments
    ensures var r := DeleteOwnComment(s, session, c.id);
            && (r.store != s <==> Some(c.authorId) == session)
            && (r.response == Forbidden <==> Some(c.authorId) != session)
  {
    var r := DeleteOwnComment(s, session, c.id);
    var j :| 0 <= j < |s.comments| && s.comments[j] == c;
    var i := CommentIndex(s, c.id).value;
    IncreasingIndex(s.comments, CommentId, i, j);
    assert |RemoveAt(s.comments, i)| < |s.comments|;
  }

  /** No comment refers to the post id the next new post will get. */
  lemma NoCommentOnFreshPost(s: Store)
    requires Valid(s)
    ensures !HasCommentsOn(s, s.nextPostId)
  {
    forall c | c in s.comments
      ensures c.postId != s.nextPostId
    {
      var p :| p in s.posts && p.id == c.postId;
    }
  }

  /** Deleting the most recently added post, when it has no comments,
      drops the last row. */
  lemma DeleteLastPost(s: Store, session: Session)
    requires Increasing(s.posts, PostId)
    requires IsAdmin(s, session) && |s.posts| > 0
    requires !HasCommentsOn(s, s.posts[|s.posts| - 1].id)
    ensures var n := |s.posts| - 1;
            DeletePost(s, session, s.posts[n].id)
            == Step(s.(posts := s.posts[..n]), session, Redirect(AllPosts, None))
  {
    var n := |s.posts| - 1;
    assert s.posts[n] in s.posts;
    var r := DeletePost(s, session, s.posts[n].id);
    var i :| 0 <= i < |s.posts| && s.posts[i].id == s.posts[n].id
             && r.store == s.(posts := RemoveAt(s.posts, i));
    IncreasingIndex(s.posts, PostId, i, n);
    assert RemoveAt(s.posts, n) == s.posts[..n];
  }

  /** Adding a post and deleting it again gives back the database, but
      for the spent post id. */
  lemma AddThenDeletePost(s: Store, session: Session, f: PostForm, today: string)
    requires Valid(s)
    requires IsAdmin(s, session) && !TitleTaken(s, f.title)
    ensures var r1 := AddNewPost(s, session, Some(f), today);
            var r2 := DeletePost(r1.store, session, s.nextPostId);
            && r2.response == Redirect(AllPosts, None)
            && r2.store == s.(nextPostId := s.nextPostId + 1)
  {
    var p := BlogPost(s.nextPostId, f.title, f.subtitle, today, f.body, f.imgUrl, ADMIN_ID);
    var s1 := s.(posts := s.posts + [p], nextPostId := s.nextPostId + 1);
    assert AddNewPost(s, session, Some(f), today).store == s1;
    AppendIncreasing(s.posts, p, PostId);
    assert IsAdmin(s1, session);
    assert s1.posts[|s.posts|] == p;
    NoCommentOnFreshPost(s);
    DeleteLastPost(s1, session);
    assert s1.posts[..|s.posts|] == s.posts;
  }

  /** Deleting, as its author, the most recently added comment drops the last row. */
  lemma DeleteLastComment(s: Store, session: Session)
    requires Increasing(s.comments, CommentId)
    requires |s.comments| > 0 && CurrentUser(s, session).Some?
    requires Some(s.comments[|s.comments| - 1].authorId) == session
    ensures var n := |s.comments| - 1;
            DeleteOwnComment(s, session, s.comments[n].id)
            == Step(s.(comments := s.comments[..n]), session,
                    Redirect(PostPage(s.comments[n].postId), None))
  {
    var n := |s.comments| - 1;
    var c := s.comments[n];
    assert c in s.comments;
    DeleteOwnCommentOwnerOnly(s, session, c);
    var r := DeleteOwnComment(s, session, c.id);
    var i :| 0 <= i < |s.comments| && s.comments[i].id == c.id
             && r.store == s.(comments := RemoveAt(s.comments, i))
             && r.response == Redirect(PostPage(s.comments[i].postId), None);
    IncreasingIndex(s.comments, CommentId, i, n);
    assert RemoveAt(s.comments, n) == s.comments[..n];
  }

  /** A comment posted and then deleted by its author through the intended
      owner check leaves the database as it was, but for the spent id. */
  lemma CommentThenDeleteOwn(s: Store, session: Session, postId: nat, text: string)
    requires CommentsValid(s)
    requires HasPost(s, postId) && CurrentUser(s, session).Some?
    ensures var r1 := ShowPost(s, session, postId, Some(CommentForm(text)));
            var r2 := DeleteOwnComment(r1.store, session, s.nextCommentId);
            && r2.response == Redirect(PostPage(postId), None)
            && r2.store == s.(nextCommentId := s.nextCommentId + 1)
  {
    var n := |s.comments|;
    var c := Comment(s.nextCommentId, text, session.value, postId);
    var s1 := s.(comments := s.comments + [c], nextCommentId := s.nextCommentId + 1);
    assert ShowPost(s, session, postId, Some(CommentForm(text))).store == s1;
    AppendIncreasing(s.comments, c, CommentId);
    assert s1.comments[n] == c;
    assert s1.users == s.users;
    DeleteLastComment(s1, session);
    assert s1.comments[..n] == s.comments;
  }
}
