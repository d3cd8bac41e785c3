/** Concrete runs of the handlers: a two-user walkthrough (two users, one
    post, one comment), the inputs that show what the `comment_author_only`
    decorator as written lets through, and the delete of a commented post. */
module Scenarios {
  import opened Wrappers
  import opened Tables
  import opened Records
  import opened Outcomes
  import opened Guards
  import opened Handlers

  const AliceForm := RegisterForm("Alice", "alice@x.com", "pw1")
  const BobForm := RegisterForm("Bob", "bob@x.com", "pw2")
  const HelloForm := PostForm("Hello", "First", "img.png", "Body")

  function Alice(hasher: Hasher, salt: string): User
  {
    User(1, "Alice", "alice@x.com", hasher.generate("pw1", salt))
  }

  function Bob(hasher: Hasher, salt: string): User
  {
    User(2, "Bob", "bob@x.com", hasher.generate("pw2", salt))
  }

  function Hello(today: string): BlogPost
  {
    BlogPost(1, "Hello", "First", today, "Body", "img.png", 1)
  }

  const BobComment := Comment(1, "Nice post", 2, 1)
  const AliceComment := Comment(2, "Thanks", 1, 1)

  /** The database after Alice and then Bob registered. */
  function Registered(hasher: Hasher, salt: string): Store
  {
    Store([Alice(hasher, salt), Bob(hasher, salt)], [], [], 3, 1, 1)
  }

  /** ... after Alice published "Hello". */
  function Published(hasher: Hasher, salt: string, today: string): Store
  {
    Registered(hasher, salt).(posts := [Hello(today)], nextPostId := 2)
  }

  /** ... after Bob commented on it. */
  function Commented(hasher: Hasher, salt: string, today: string): Store
  {
    Published(hasher, salt, today).(comments := [BobComment], nextCommentId := 2)
  }

  /** ... after Alice answered Bob. */
  function TwoCommenters(hasher: Hasher, salt: string, today: string): Store
  {
    Published(hasher, salt, today).(comments := [BobComment, AliceComment], nextCommentId := 3)
  }

  /** The first registration gets id 1, the second id 2. */
  lemma RegisterAliceThenBob(hasher: Hasher, salt: string)
    ensures var r1 := Register(EmptyStore, None, Some(AliceForm), hasher, salt);
            && r1 == Step(EmptyStore.(users := [Alice(hasher, salt)], nextUserId := 2), Some(1),
                          Redirect(AllPosts, None))
            && Register(r1.store, None, Some(BobForm), hasher, salt)
               == Step(Registered(hasher, salt), Some(2), Redirect(AllPosts, None))
  {
    var s1 := EmptyStore.(users := [Alice(hasher, salt)], nextUserId := 2);
    assert !EmailTaken(s1, "bob@x.com") by {
      assert "alice@x.com" != "bob@x.com";
    }
  }

  /** Bob may not create a post; Alice may. */
  lemma OnlyAlicePublishes(hasher: Hasher, salt: string, today: string)
    ensures AddNewPost(Registered(hasher, salt), Some(2), Some(HelloForm), today)
            == Step(Registered(hasher, salt), Some(2), Forbidden)
    ensures AddNewPost(Registered(hasher, salt), Some(1), Some(HelloForm), today)
            == Step(Published(hasher, salt, today), Some(1), Redirect(AllPosts, None))
  {
    var s := Registered(hasher, salt);
    assert s.users[0] in s.users && s.users[1] in s.users;
  }

  /** Bob comments on post 1, and then Alice does. */
  lemma BobThenAliceComment(hasher: Hasher, salt: string, today: string)
    ensures ShowPost(Published(hasher, salt, today), Some(2), 1, Some(CommentForm("Nice post")))
            == Step(Commented(hasher, salt, today), Some(2), Redirect(PostPage(1), None))
    ensures ShowPost(Commented(hasher, salt, today), Some(1), 1, Some(CommentForm("Thanks")))
            == Step(TwoCommenters(hasher, salt, today), Some(1), Redirect(PostPage(1), None))
  {
    var s := Published(hasher, salt, today);
    assert s.users[0] in s.users && s.users[1] in s.users && s.posts[0] in s.posts;
  }

  /** Alice cannot delete Bob's comment: as written her attempt is a 500
      (she has written no comment), under the intended check a 403. Bob
      deletes his own comment. */
  lemma DeletingBobsComment(hasher: Hasher, salt: string, today: string)
    ensures var s := Commented(hasher, salt, today);
            && DeleteComment(s, Some(1), 1) == Step(s, Some(1), Crash)
            && DeleteOwnComment(s, Some(1), 1) == Step(s, Some(1), Forbidden)
            && DeleteOwnComment(s, Some(2), 1)
               == Step(s.(comments := []), Some(2), Redirect(PostPage(1), None))
  {
    var s := Commented(hasher, salt, today);
    assert s.users[0] in s.users && s.users[1] in s.users && s.comments[0] in s.comments;
    assert !AuthoredAny(s, 1);
  }

  /** Post 1's comment list before and after Bob deletes his comment. */
  lemma PostOneComments()
    ensures CommentsOf([BobComment], 1) == [BobComment]
    ensures CommentsOf([], 1) == []
  {
    assert OnPost(1)(BobComment);
  }

  /** Alice registers first and is the admin; Bob registers second. Bob
      may not create a post; Alice may. Bob comments on Alice's post. Alice
      cannot delete Bob's comment. Bob deletes his own comment, leaving the
      post without comments. */
  lemma Walkthrough(hasher: Hasher, salt: string, today: string)
    ensures
      var r1 := Register(EmptyStore, None, Some(AliceForm), hasher, salt);
      var r2 := Register(r1.store, None, Some(BobForm), hasher, salt);
      var alice := r1.session;
      var bob := r2.session;
      var r3 := AddNewPost(r2.store, bob, Some(HelloForm), today);
      var r4 := AddNewPost(r2.store, alice, Some(HelloForm), today);
      var r5 := ShowPost(r4.store, bob, 1, Some(CommentForm("Nice post")));
      var r6 := DeleteOwnComment(r5.store, alice, 1);
      var r7 := DeleteOwnComment(r5.store, bob, 1);
      && alice == Some(1) && bob == Some(2)
      && r3.response == Forbidden && r3.store == r2.store
      && r4.response == Redirect(AllPosts, None) && r4.store.posts == [Hello(today)]
      && r5.response == Redirect(PostPage(1), None)
      && CommentsOf(r5.store.comments, 1) == [BobComment]
      && r6.response == Forbidden && r6.store == r5.store
      && r7.response == Redirect(PostPage(1), None)
      && CommentsOf(r7.store.comments, 1) == []
  {
    RegisterAliceThenBob(hasher, salt);
    OnlyAlicePublishes(hasher, salt, today);
    BobThenAliceComment(hasher, salt, today);
    DeletingBobsComment(hasher, salt, today);
    PostOneComments();
  }

  /** As written, Bob, who has commented once, deletes Alice's comment:
      the decorator only asks whether he has written any comment. */
  lemma AsWrittenAnyCommenterDeletes(hasher: Hasher, salt: string, today: string)
    ensures var s := TwoCommenters(hasher, salt, today);
            var r := DeleteComment(s, Some(2), 2);
            && s.comments[1].authorId != 2
            && r.response == Redirect(PostPage(1), None)
            && r.store.comments == [s.comments[0]]
  {
    var s := TwoCommenters(hasher, salt, today);
    assert s.users[1] in s.users && s.comments[0] in s.comments && s.comments[1] in s.comments;
  }

  /** As written, a logged-in user who has never commented gets a 500 from
      the decorator, whatever comment the route names. */
  lemma AsWrittenNewcomerCrashes(s: Store, session: Session, commentId: nat)
    requires CurrentUser(s, session).Some? && !AuthoredAny(s, session.value)
    ensures DeleteComment(s, session, commentId) == Step(s, session, Crash)
  {
  }

  /** Under the intended check the same request is refused with a 403 and
      Alice's comment stays. */
  lemma OwnerCheckRefusesOthers(hasher: Hasher, salt: string, today: string)
    ensures var s := TwoCommenters(hasher, salt, today);
            var r := DeleteOwnComment(s, Some(2), 2);
            r.response == Forbidden && r.store == s
  {
    var s := TwoCommenters(hasher, salt, today);
    assert s.users[1] in s.users && s.comments[1] in s.comments;
  }

  /** As written, the admin cannot delete a post someone has commented on:
      nulling the comment's NOT NULL `post_id` fails the commit, a 500, and
      the post stays. */
  lemma AsWrittenCommentedPostCrashes(hasher: Hasher, salt: string, today: string)
    ensures var s := Commented(hasher, salt, today);
            DeletePost(s, Some(1), 1) == Step(s, Some(1), Crash)
  {
    var s := Commented(hasher, salt, today);
    assert s.users[0] in s.users && s.posts[0] in s.posts && s.comments[0] in s.comments;
  }

  /** With the delete cascade, the same request removes the post and Bob's
      comment and leaves the two users. */
  lemma CascadeRemovesCommentedPost(hasher: Hasher, salt: string, today: string)
    ensures var s := Commented(hasher, salt, today);
            DeletePostCascade(s, Some(1), 1)
            == Step(s.(posts := [], comments := []), Some(1), Redirect(AllPosts, None))
  {
    var s := Commented(hasher, salt, today);
    assert s.users[0] in s.users && s.posts[0] in s.posts;
    assert CommentsNotOn([BobComment], 1) == [] by {
      assert BobComment !in CommentsNotOn([BobComment], 1);
    }
  }
}
