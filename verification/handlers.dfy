/** The request handlers of main.py that read or change the database, each
    a single transition from (database, session, submitted form) to a Step.
    A form is `None` when `validate_on_submit()` is false (a GET, or a POST
    the form validation refuses); the handler then renders its template. */
module Handlers {
  import opened Wrappers
  import opened Tables
  import opened Records
  import opened Outcomes
  import opened Guards

  datatype RegisterForm = RegisterForm(name: string, email: string, password: string)
  datatype LoginForm = LoginForm(email: string, password: string)
  datatype CommentForm = CommentForm(body: string)
  datatype PostForm = PostForm(title: string, subtitle: string, imgUrl: string, body: string)

  /** Werkzeug's password hashing, left uninterpreted: `generate(password, salt)`
      is `generate_password_hash(password, "pbkdf2:sha256", 8)` with the random
      8-character salt made an input, and `check(hash, password)` is
      `check_password_hash`. */
  datatype Hasher = Hasher(generate: (string, string) -> string, check: (string, string) -> bool)

  /** `register`: a new email becomes a new user, logged in at once; a known
      email is refused with a flash and a redirect to the login page. */
  function Register(s: Store, session: Session, form: Option<RegisterForm>,
                    hasher: Hasher, salt: string): (r: Step)
    ensures form.None? ==> r == Step(s, session, Render(RegisterView, None))
    ensures form.Some? && EmailTaken(s, form.value.email) ==>
              r == Step(s, session, Redirect(LoginPage, Some(AlreadyRegistered)))
    ensures form.Some? && !EmailTaken(s, form.value.email) ==>
              var f := form.value;
              var u := User(s.nextUserId, f.name, f.email, hasher.generate(f.password, salt));
              && r.store == s.(users := s.users + [u], nextUserId := s.nextUserId + 1)
              && r.session == Some(u.id)
              && r.response == Redirect(AllPosts, None)
  {
    match form
    case None => Step(s, session, Render(RegisterView, None))
    case Some(f) =>
      match UserIndexByEmail(s, f.email)
      case Some(_) => Step(s, session, Redirect(LoginPage, Some(AlreadyRegistered)))
      case None =>
        var u := User(s.nextUserId, f.name, f.email, hasher.generate(f.password, salt));
        Step(s.(users := s.users + [u], nextUserId := s.nextUserId + 1), Some(u.id),
             Redirect(AllPosts, None))
  }

  /** `login`: never touches the database. An unknown email redirects to
      the register page; a wrong password re-renders the form with a flash;
      otherwise the user with that email is logged in. */
  function Login(s: Store, session: Session, form: Option<LoginForm>, hasher: Hasher): (r: Step)
    ensures r.store == s
    ensures form.None? ==> r.session == session && r.response == Render(LoginView, None)
    ensures form.Some? && !EmailTaken(s, form.value.email) ==>
              r.session == session && r.response == Redirect(RegisterPage, Some(NotRegistered))
    ensures r.session != session ==>
              && form.Some?
              && r.response == Redirect(AllPosts, None)
              && exists u :: u in s.users && u.email == form.value.email
                   && r.session == Some(u.id) && hasher.check(u.password, form.value.password)
    ensures form.Some? && UserIndexByEmail(s, form.value.email).Some? ==>
              var u := s.users[UserIndexByEmail(s, form.value.email).value];
              if hasher.check(u.password, form.value.password) then
                r.session == Some(u.id) && r.response == Redirect(AllPosts, None)
              else
                r.session == session && r.response == Render(LoginView, Some(IncorrectPassword))
    ensures form.Some? && r.response.Render? ==>
              && r.session == session && r.response == Render(LoginView, Some(IncorrectPassword))
              && exists u :: u in s.users && u.email == form.value.email
                   && !hasher.check(u.password, form.value.password)
  {
    match form
    case None => Step(s, session, Render(LoginView, None))
    case Some(f) =>
      match UserIndexByEmail(s, f.email)
      case None => Step(s, session, Redirect(RegisterPage, Some(NotRegistered)))
      case Some(i) =>
        var user := s.users[i];
        assert user in s.users;
        if !hasher.check(user.password, f.password) then
          Step(s, session, Render(LoginView, Some(IncorrectPassword)))
        else
          Step(s, Some(user.id), Redirect(AllPosts, None))
  }

  /** The comment branch of `show_post`: a missing post is a 404 before
      anything else; an anonymous comment is refused with a flash and a
      redirect to login; otherwise one comment is added for the current user
      on that post. The session never changes. */
  function ShowPost(s: Store, session: Session, postId: nat, form: Option<CommentForm>): (r: Step)
    ensures r.session == session
    ensures !HasPost(s, postId) ==> r.store == s && r.response == NotFound
    ensures HasPost(s, postId) && form.None? ==>
              r.store == s && r.response == Render(PostView(postId), None)
    ensures HasPost(s, postId) && form.Some? && CurrentUser(s, session).None? ==>
              r.store == s && r.response == Redirect(LoginPage, Some(LogInToComment))
    ensures HasPost(s, postId) && form.Some? && CurrentUser(s, session).Some? ==>
              var c := Comment(s.nextCommentId, form.value.body, session.value, postId);
              && r.store == s.(comments := s.comments + [c], nextCommentId := s.nextCommentId + 1)
              && r.response == Redirect(PostPage(postId), None)
  {
    match PostIndex(s, postId)
    case None => Step(s, session, NotFound)
    case Some(_) =>
      match form
      case None => Step(s, session, Render(PostView(postId), None))
      case Some(f) =>
        match CurrentUser(s, session)
        case None => Step(s, session, Redirect(LoginPage, Some(LogInToComment)))
        case Some(user) =>
          var c := Comment(s.nextCommentId, f.body, user.id, postId);
          Step(s.(comments := s.comments + [c], nextCommentId := s.nextCommentId + 1), session,
               Redirect(PostPage(postId), None))
  }

  /** The admin holds the session: the `admin_only` check passes. */
  predicate IsAdmin(s: Store, session: Session)
  {
    AdminOnly(s, session).Pass?
  }

  /** `add_new_post` behind `admin_only`: one post by the current user with
      the submitted fields and today's date. A title already in use breaks
      the column's unique constraint at commit, a 500 with nothing stored. */
  function AddNewPost(s: Store, session: Session, form: Option<PostForm>, today: string): (r: Step)
    ensures r.session == session
    ensures !IsAdmin(s, session) ==> r.store == s
    ensures CurrentUser(s, session).None? ==> r.response == Unauthorized
    ensures CurrentUser(s, session).Some? && session != Some(ADMIN_ID) ==> r.response == Forbidden
    ensures IsAdmin(s, session) && form.None? ==>
              r.store == s && r.response == Render(NewPostView, None)
    ensures IsAdmin(s, session) && form.Some? && TitleTaken(s, form.value.title) ==>
              r.store == s && r.response == Crash
    ensures IsAdmin(s, session) && form.Some? && !TitleTaken(s, form.value.title) ==>
              var f := form.value;
              var p := BlogPost(s.nextPostId, f.title, f.subtitle, today, f.body, f.imgUrl, ADMIN_ID);
              && r.store == s.(posts := s.posts + [p], nextPostId := s.nextPostId + 1)
              && r.response == Redirect(AllPosts, None)
  {
    match AdminOnly(s, session)
    case Reject(response) => Step(s, session, response)
    case Pass(user) =>
      match form
      case None => Step(s, session, Render(NewPostView, None))
      case Some(f) =>
        if TitleTaken(s, f.title) then Step(s, session, Crash)
        else
          var p := BlogPost(s.nextPostId, f.title, f.subtitle, today, f.body, f.imgUrl, user.id);
          Step(s.(posts := s.posts + [p], nextPostId := s.nextPostId + 1), session,
               Redirect(AllPosts, None))
  }

  /** `edit_post` behind `admin_only`: the post's title, subtitle, image
      URL and body take the submitted values and its author becomes the
      current user; id and date stay. */
  function EditPost(s: Store, session: Session, postId: nat, form: Option<PostForm>): (r: Step)
    ensures r.session == session
    ensures !IsAdmin(s, session) ==> r.store == s
    ensures CurrentUser(s, session).None? ==> r.response == Unauthorized
    ensures CurrentUser(s, session).Some? && session != Some(ADMIN_ID) ==> r.response == Forbidden
    ensures IsAdmin(s, session) && !HasPost(s, postId) ==> r.store == s && r.response == NotFound
    ensures IsAdmin(s, session) && HasPost(s, postId) && form.None? ==>
              r.store == s && r.response == Render(EditPostView, None)
    ensures IsAdmin(s, session) && HasPost(s, postId) && form.Some?
            && TitleTakenByOther(s, form.value.title, postId) ==>
              r.store == s && r.response == Crash
    ensures IsAdmin(s, session) && HasPost(s, postId) && form.Some?
            && !TitleTakenByOther(s, form.value.title, postId) ==>
              var f := form.value;
              && r.response == Redirect(PostPage(postId), None)
              && exists i :: 0 <= i < |s.posts| && s.posts[i].id == postId
                   && r.store == s.(posts := s.posts[i := s.posts[i].(title := f.title,
                        subtitle := f.subtitle, imgUrl := f.imgUrl, body := f.body,
                        authorId := ADMIN_ID)])
  {
    match AdminOnly(s, session)
    case Reject(response) => Step(s, session, response)
    case Pass(user) =>
      match PostIndex(s, postId)
      case None => Step(s, session, NotFound)
      case Some(i) =>
        match form
        case None => Step(s, session, Render(EditPostView, None))
        case Some(f) =>
          if TitleTakenByOther(s, f.title, postId) then Step(s, session, Crash)
          else
            var edited := s.posts[i].(title := f.title, subtitle := f.subtitle,
                                      imgUrl := f.imgUrl, authorId := user.id, body := f.body);
            Step(s.(posts := s.posts[i := edited]), session, Redirect(PostPage(postId), None))
  }

  /** `delete_post` behind `admin_only`, as written. Deleting the post row
      makes the ORM set the `post_id` of the post's comments to null, since
      the relationship declares no delete cascade; the column is NOT NULL, so
      for a post with comments the commit fails and nothing changes, a 500.
      A post without comments is removed and nothing else changes. */
  function DeletePost(s: Store, session: Session, postId: nat): (r: Step)
    ensures r.session == session
    ensures !IsAdmin(s, session) ==> r.store == s
    ensures CurrentUser(s, session).None? ==> r.response == Unauthorized
    ensures CurrentUser(s, session).Some? && session != Some(ADMIN_ID) ==> r.response == Forbidden
    ensures IsAdmin(s, session) && !HasPost(s, postId) ==> r.store == s && r.response == NotFound
    ensures IsAdmin(s, session) && HasPost(s, postId) && HasCommentsOn(s, postId) ==>
              r.store == s && r.response == Crash
    ensures IsAdmin(s, session) && HasPost(s, postId) && !HasCommentsOn(s, postId) ==>
              && r.response == Redirect(AllPosts, None)
              && exists i :: 0 <= i < |s.posts| && s.posts[i].id == postId
                   && r.store == s.(posts := RemoveAt(s.posts, i))
  {
    match AdminOnly(s, session)
    case Reject(response) => Step(s, session, response)
    case Pass(_) =>
      match PostIndex(s, postId)
      case None => Step(s, session, NotFound)
      case Some(i) =>
        if HasCommentsOn(s, postId) then Step(s, session, Crash)
        else Step(s.(posts := RemoveAt(s.posts, i)), session, Redirect(AllPosts, None))
  }

  /** `delete_post` with the delete cascade the NOT NULL `post_id` calls for
      (`cascade="all, delete-orphan"` on `BlogPost.comments`): the post goes
      together with its comments. */
  function DeletePostCascade(s: Store, session: Session, postId: nat): (r: Step)
    ensures r.session == session
    ensures !IsAdmin(s, session) ==> r.store == s
    ensures CurrentUser(s, session).None? ==> r.response == Unauthorized
    ensures CurrentUser(s, session).Some? && session != Some(ADMIN_ID) ==> r.response == Forbidden
    ensures IsAdmin(s, session) && !HasPost(s, postId) ==> r.store == s && r.response == NotFound
    ensures IsAdmin(s, session) && HasPost(s, postId) ==>
              && r.response == Redirect(AllPosts, None)
              && exists i :: 0 <= i < |s.posts| && s.posts[i].id == postId
                   && r.store == s.(posts := RemoveAt(s.posts, i),
                                    comments := CommentsNotOn(s.comments, postId))
  {
    match AdminOnly(s, session)
    case Reject(response) => Step(s, session, response)
    case Pass(_) =>
      match PostIndex(s, postId)
      case None => Step(s, session, NotFound)
      case Some(i) =>
        Step(s.(posts := RemoveAt(s.posts, i), comments := CommentsNotOn(s.comments, postId)),
             session, Redirect(AllPosts, None))
  }

  /** `delete_comment` behind `comment_author_only`, as written: once the
      guard passes (the user wrote SOME comment) the comment the route names
      is deleted, whoever wrote it. A missing comment id makes
      `db.session.delete(None)` raise. */
  function DeleteComment(s: Store, session: Session, commentId: nat): (r: Step)
    ensures r.session == session
    ensures r.response != Forbidden
    ensures CurrentUser(s, session).None? ==> r.store == s && r.response == Unauthorized
    ensures CurrentUser(s, session).Some? && !AuthoredAny(s, session.value) ==>
              r.store == s && r.response == Crash
    ensures CurrentUser(s, session).Some? && AuthoredAny(s, session.value)
            && !HasComment(s, commentId) ==>
              r.store == s && r.response == Crash
    ensures CurrentUser(s, session).Some? && AuthoredAny(s, session.value)
            && HasComment(s, commentId) ==>
              exists i :: 0 <= i < |s.comments| && s.comments[i].id == commentId
                && r.store == s.(comments := RemoveAt(s.comments, i))
                && r.response == Redirect(PostPage(s.comments[i].postId), None)
  {
    match CommentAuthorOnly(s, session)
    case Reject(response) => Step(s, session, response)
    case Pass(_) =>
      match CommentIndex(s, commentId)
      case None => Step(s, session, Crash)
      case Some(i) =>
        Step(s.(comments := RemoveAt(s.comments, i)), session,
             Redirect(PostPage(s.comments[i].postId), None))
  }

  /** `delete_comment` behind the intended owner check: only the author of
      the comment the route names can delete it. */
  function DeleteOwnComment(s: Store, session: Session, commentId: nat): (r: Step)
    ensures r.session == session
    ensures CurrentUser(s, session).None? ==> r.store == s && r.response == Unauthorized
    ensures CurrentUser(s, session).Some? && !HasComment(s, commentId) ==>
              r.store == s && r.response == NotFound
    ensures r.store != s ==>
              exists i :: 0 <= i < |s.comments| && s.comments[i].id == commentId
                && Some(s.comments[i].authorId) == session
                && r.store == s.(comments := RemoveAt(s.comments, i))
                && r.response == Redirect(PostPage(s.comments[i].postId), None)
    ensures r.store == s ==> r.response in {Unauthorized, NotFound, Forbidden}
    ensures CurrentUser(s, session).Some? && CommentIndex(s, commentId).Some? ==>
              var i := CommentIndex(s, commentId).value;
              if Some(s.comments[i].authorId) == session then
                && r.store == s.(comments := RemoveAt(s.comments, i))
                && r.response == Redirect(PostPage(s.comments[i].postId), None)
              else
                r.store == s && r.response == Forbidden
  {
    match CommentOwnerOnly(s, session, commentId)
    case Reject(response) => Step(s, session, response)
    case Pass(user) =>
      match CommentIndex(s, commentId)
      case None => Step(s, session, NotFound)
      case Some(i) =>
        if s.comments[i].authorId != user.id then Step(s, session, Forbidden)
        else
          assert |RemoveAt(s.comments, i)| < |s.comments|;
          Step(s.(comments := RemoveAt(s.comments, i)), session,
               Redirect(PostPage(s.comments[i].postId), None))
  }
}
