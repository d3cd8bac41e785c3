/** The three tables of the blog database (`users`, `blog_posts`,
    `comments`), the lookups the request handlers make on them, and the
    invariant every reachable database keeps. */
module Records {
  import opened Wrappers
  import opened Tables

  /** A row of `users`. `password` holds the salted hash, never the password itself. */
  datatype User = User(id: nat, name: string, email: string, password: string)

  /** A row of `blog_posts`; `date` is the display string stored at creation. */
  datatype BlogPost = BlogPost(id: nat, title: string, subtitle: string, date: string,
                               body: string, imgUrl: string, authorId: nat)

  /** A row of `comments`. Both foreign key columns are declared `Mapped[int]`
      rather than `Mapped[Optional[int]]`, so they are NOT NULL: a comment
      always belongs to a post. */
  datatype Comment = Comment(id: nat, text: string, authorId: nat, postId: nat)

  /** The whole database, with the next primary key each table hands out. */
  datatype Store = Store(users: seq<User>, posts: seq<BlogPost>, comments: seq<Comment>,
                         nextUserId: nat, nextPostId: nat, nextCommentId: nat)

  /** The Flask-Login session: the id of the logged-in user, if any. */
  type Session = Option<nat>

  /** The one privileged account: the first user ever registered. */
  const ADMIN_ID: nat := 1

  /** The database as `create_all` leaves it. */
  const EmptyStore: Store := Store([], [], [], 1, 1, 1)

  function UserEmail(u: User): string { u.email }
  function PostId(p: BlogPost): int { p.id }
  function PostTitle(p: BlogPost): string { p.title }
  function CommentId(c: Comment): int { c.id }

  predicate HasUser(s: Store, id: nat) { exists u :: u in s.users && u.id == id }
  predicate HasPost(s: Store, id: nat) { exists p :: p in s.posts && p.id == id }
  predicate HasComment(s: Store, id: nat) { exists c :: c in s.comments && c.id == id }
  predicate EmailTaken(s: Store, email: string) { exists u :: u in s.users && u.email == email }
  predicate TitleTaken(s: Store, title: string) { exists p :: p in s.posts && p.title == title }

  /** A post other than `id` already uses `title`. */
  predicate TitleTakenByOther(s: Store, title: string, id: nat)
  {
    exists p :: p in s.posts && p.title == title && p.id != id
  }

  /** Some comment belongs to post `postId`. */
  predicate HasCommentsOn(s: Store, postId: nat)
  {
    exists c :: c in s.comments && c.postId == postId
  }

  /** The user `userId` has written at least one comment. */
  predicate AuthoredAny(s: Store, userId: nat)
  {
    exists c :: c in s.comments && c.authorId == userId
  }

  /** Users are numbered 1, 2, ... in registration order and emails are unique. */
  predicate UsersValid(s: Store)
  {
    && (forall i :: 0 <= i < |s.users| ==> s.users[i].id == i + 1)
    && s.nextUserId == |s.users| + 1
    && Distinct(s.users, UserEmail)
  }

  /** Post ids are fresh and increasing, titles are unique. */
  predicate PostsValid(s: Store)
  {
    && Increasing(s.posts, PostId)
    && s.nextPostId > 0
    && (forall p :: p in s.posts ==> 0 < p.id < s.nextPostId)
    && Distinct(s.posts, PostTitle)
  }

  /** Comment ids are fresh and increasing. */
  predicate CommentsValid(s: Store)
  {
    && Increasing(s.comments, CommentId)
    && s.nextCommentId > 0
    && (forall c :: c in s.comments ==> 0 < c.id < s.nextCommentId)
  }

  /** Every foreign key names an existing row. */
  predicate Linked(s: Store)
  {
    && (forall p :: p in s.posts ==> HasUser(s, p.authorId))
    && (forall c :: c in s.comments ==> HasUser(s, c.authorId))
    && (forall c :: c in s.comments ==> HasPost(s, c.postId))
  }

  predicate Valid(s: Store)
  {
    UsersValid(s) && PostsValid(s) && CommentsValid(s) && Linked(s)
  }

  /** The `users` row with primary key `id` (`db.session.get(User, id)`). */
  function UserIndex(s: Store, id: nat): (r: Option<nat>)
    ensures r.None? <==> !HasUser(s, id)
    ensures r.Some? ==> r.value < |s.users| && s.users[r.value].id == id
  {
    var r := FirstIndex(s.users, (u: User) => u.id == id);
    assert r.Some? ==> s.users[r.value] in s.users;
    r
  }

  /** The first `users` row with that email. */
  function UserIndexByEmail(s: Store, email: string): (r: Option<nat>)
    ensures r.None? <==> !EmailTaken(s, email)
    ensures r.Some? ==> r.value < |s.users| && s.users[r.value].email == email
  {
    var r := FirstIndex(s.users, (u: User) => u.email == email);
    assert r.Some? ==> s.users[r.value] in s.users;
    r
  }

  /** The `blog_posts` row with primary key `id` (`db.get_or_404`, before the 404). */
  function PostIndex(s: Store, id: nat): (r: Option<nat>)
    ensures r.None? <==> !HasPost(s, id)
    ensures r.Some? ==> r.value < |s.posts| && s.posts[r.value].id == id
  {
    var r := FirstIndex(s.posts, (p: BlogPost) => p.id == id);
    assert r.Some? ==> s.posts[r.value] in s.posts;
    r
  }

  /** The `comments` row with primary key `id` (`db.session.get(Comment, id)`). */
  function CommentIndex(s: Store, id: nat): (r: Option<nat>)
    ensures r.None? <==> !HasComment(s, id)
    ensures r.Some? ==> r.value < |s.comments| && s.comments[r.value].id == id
  {
    var r := FirstIndex(s.comments, (c: Comment) => c.id == id);
    assert r.Some? ==> s.comments[r.value] in s.comments;
    r
  }

  /** The first comment written by `userId`. */
  function FirstCommentBy(s: Store, userId: nat): (r: Option<nat>)
    ensures r.None? <==> !AuthoredAny(s, userId)
    ensures r.Some? ==> r.value < |s.comments| && s.comments[r.value].authorId == userId
  {
    var r := FirstIndex(s.comments, (c: Comment) => c.authorId == userId);
    assert r.Some? ==> s.comments[r.value] in s.comments;
    r
  }

  /** Flask-Login's `current_user`: the user `load_user` finds for the
      session's id, or the anonymous user (`None`) when there is no session
      or its id names no stored user. */
  function CurrentUser(s: Store, session: Session): (r: Option<User>)
    ensures r.None? <==> session.None? || !HasUser(s, session.value)
    ensures r.Some? ==> r.value in s.users && session == Some(r.value.id)
  {
    match session
    case None => None
    case Some(id) =>
      match UserIndex(s, id)
      case None => None
      case Some(i) => Some(s.users[i])
  }

  /** Whether a comment belongs to post `postId`. */
  function OnPost(postId: nat): Comment -> bool
  {
    (c: Comment) => c.postId == postId
  }

  /** Whether a comment belongs to some post other than `postId`. */
  function OffPost(postId: nat): Comment -> bool
  {
    (c: Comment) => c.postId != postId
  }

  /** The comments a post page lists (`post.comments`): those whose
      `post_id` is `postId`, in table order. */
  function CommentsOf(cs: seq<Comment>, postId: nat): (r: seq<Comment>)
    ensures forall c :: c in r <==> c in cs && c.postId == postId
  {
    Filter(cs, OnPost(postId))
  }

  /** The comments that do not belong to post `postId`: what a cascading
      delete of that post leaves. */
  function CommentsNotOn(cs: seq<Comment>, postId: nat): (r: seq<Comment>)
    ensures forall c :: c in r <==> c in cs && c.postId != postId
    ensures (forall i :: 0 <= i < |cs| ==> cs[i].postId != postId) ==> r == cs
    ensures Increasing(cs, CommentId) ==> Increasing(r, CommentId)
  {
    var r := Filter(cs, OffPost(postId));
    assert Increasing(cs, CommentId) ==> Increasing(r, CommentId) by {
      if Increasing(cs, CommentId) {
        FilterIncreasing(cs, OffPost(postId), CommentId);
      }
    }
    r
  }
}
