# Blog with authentication: authorization and record-store model

A Dafny model of the request handlers of a Flask blog (`main.py`). Visitors read
posts. Registered users log in and comment. The first registered account (id 1)
is the only administrator: it creates, edits and deletes posts. A comment is
deleted through a route guarded by `comment_author_only`.

The database is an immutable `Store`. It holds the three tables as sequences
(`users`, `blog_posts`, `comments`) plus the next primary key of each table. Each
handler is a pure function from the store, the session (the logged-in user's id,
if any) and the submitted form to a `Step`: the new store, the new session and a
response tag. A response is a redirect to a page, a rendered template, 401, 403,
404, or `Crash` (an unhandled exception, i.e. a 500). A form is `None` when
`validate_on_submit()` is false, i.e. a GET or a POST the form validation refuses.

Modules:

- `Wrappers`: `Option`.
- `Tables`: generic table operations.
  - The first-row lookup of `select(...).where(...).scalar()`.
  - Row removal.
  - The key properties: increasing primary keys, unique columns.
- `Records`: the rows and the store.
  - The `Valid` invariant: users numbered 1, 2, … in registration order; unique
    emails and titles; fresh, increasing post and comment ids; foreign keys that
    name existing rows.
  - `CurrentUser`, which models `load_user`: a session whose id names no stored
    user is anonymous.
- `Outcomes`: pages, templates, flash messages, responses, `Step`.
- `Guards`:
  - `admin_only` and `comment_author_only` as written.
  - `CommentOwnerOnly`: the comment-owner check the second decorator evidently
    means.
- `Handlers`: `register`, `login`, the comment branch of `show_post`,
  `add_new_post`, `edit_post`, `delete_post` and `delete_comment`. Also
  `DeleteOwnComment`, which runs `delete_comment` behind the corrected guard,
  and `DeletePostCascade`, `delete_post` with the delete cascade the schema
  calls for.
- `Invariants`: every handler preserves `Valid`.
- `Properties`: cross-handler properties.
  - Login outcomes.
  - Register-then-login.
  - Only the first account is the admin.
  - Add-then-delete and comment-then-delete restore the store apart from the spent id counter.
  - Exactly-one-row removal.
  - The owner-only rule of the corrected guard.
- `Scenarios`: concrete runs.
  - A two-user walkthrough.
  - The inputs that show what the decorator as written lets through.
  - The delete of a post that has a comment, as written and with a cascade.

Behaviour worth noting:

- **Anonymous users on guarded routes.** An anonymous user on an admin or
  comment-delete route gets 401, not 403. `login_required` runs first, and no
  login view is configured.
- **A post with comments cannot be deleted.** `Comment.post_id` is declared
  `Mapped[int]`, not `Mapped[Optional[int]]`, so SQLAlchemy 2.0 creates it NOT
  NULL. `BlogPost.comments` declares no delete cascade, so deleting a post makes
  the ORM set the `post_id` of its comments to null. For a post with comments
  that breaks the NOT NULL constraint at commit: a 500, with nothing deleted
  (`Handlers.DeletePost`, see Findings). A post without comments is deleted
  normally. `Handlers.DeletePostCascade` models the delete with the cascade.
- **Editing reassigns the author.** `edit_post` sets the post's author to the
  current user. Only the admin reaches that code, and only the admin creates
  posts. So in a store where the admin wrote every post the reassignment is a
  no-op (`Properties.EditPostKeepsAuthors`). Every handler keeps that property
  (`Properties.AddNewPostKeepsAdminAuthored`,
  `Properties.OtherHandlersKeepAdminAuthored`), and the empty store has it.
- **Duplicate titles crash.** A title that duplicates another post's title
  violates the unique column at commit. The model gives `Crash` and leaves the
  store unchanged.
- **The comment guard is modelled as written.** `comment_author_only` passes for
  anyone who has written any comment and crashes for a user who has written none
  (see Findings). The intended check (only a comment's author may delete it) is
  modelled alongside, as `Guards.CommentOwnerOnly` and
  `Handlers.DeleteOwnComment`.

## Model

| member | source | states |
|---|---|---|
| Tables.FirstIndex | main.py:141 | `scalar()` of a filtered select: `None` exactly when no row matches, otherwise the index of a matching row with no match before it |
| Records.CurrentUser | main.py:131-133 | the current user is anonymous exactly when there is no session or its id names no stored user; otherwise it is the stored user with the session's id |
| Records.UserIndex | main.py:132-133 | `db.session.get(User, id)`: `None` exactly when no user has that id, otherwise the position of a user with that id |
| Records.UserIndexByEmail | main.py:141 | the email lookup of `register` (and of `login`, main.py:162): `None` exactly when no user has that email, otherwise the position of a user with that email |
| Records.PostIndex | main.py:191 | `db.get_or_404(BlogPost, post_id)` (also main.py:232 and main.py:255): `None`, the 404, exactly when no post has that id, otherwise the position of that post |
| Records.CommentIndex | main.py:264 | `db.session.get(Comment, comment_id)`: `None` exactly when no comment has that id (then `db.session.delete(None)` raises), otherwise the position of that comment |
| Records.FirstCommentBy | main.py:63 | the lookup of `comment_author_only`: `None` exactly when the user has written no comment, otherwise the position of a comment by that user |
| Records.CommentsOf | main.py:192 | a post's comment list holds exactly the comments whose post id is that post |
| Tables.Filter | main.py:192 | the rows a filter keeps (`post.comments` is the comments filtered by post id) are exactly the rows that satisfy it, never more than the table holds, and the whole table when every row does, which is what lets the cascading delete agree with `delete_post` on a post without comments |
| Guards.AdminOnly | main.py:49-56 | an anonymous caller gets 401 before anything else; a logged-in caller passes iff its id is 1; every other caller gets 403 |
| Guards.CommentAuthorOnly | main.py:59-67 | an anonymous caller gets 401; a logged-in caller passes iff they have written at least one comment, whichever comment is named; with none the lookup yields None and the request crashes; 403 never occurs |
| Guards.CommentOwnerOnly | main.py:59-67 | corrected guard: 401 when anonymous, 404 iff the named comment does not exist, passes only for that comment's author, 403 only when the comment is someone else's |
| Handlers.Register | main.py:138-154 | a known email leaves the store and session unchanged and redirects to login with "already registered"; a new email appends exactly one user with the next id, that email, that name and the hash of the password, logs that user in and redirects home |
| Handlers.Login | main.py:159-171 | never changes the store; an unknown email redirects to register with "not registered"; for the first user with that email, a passing hash check logs that user in and redirects home, a failing one re-renders the form with "Incorrect Password" and leaves the session alone |
| Handlers.ShowPost | main.py:189-205 | a missing post is a 404 with nothing changed; an anonymous comment redirects to login with a flash and changes nothing; otherwise exactly one comment is appended, with the next id, author the current user and post the requested post |
| Handlers.AddNewPost | main.py:208-225 | non-admins change nothing (401 or 403); for the admin exactly one post is appended with the next id, the submitted title, subtitle, body and image URL, today's date and author the admin; a duplicate title crashes with nothing stored |
| Handlers.EditPost | main.py:228-248 | non-admins change nothing; a missing post is a 404; otherwise only that post changes: title, subtitle, image URL and body take the submitted values and the author becomes the current user, while id and date stay; a title used by another post crashes with nothing changed |
| Handlers.DeletePost | main.py:251-258 | non-admins change nothing (401 or 403); a missing post is a 404; a post that has comments is a 500 with nothing changed, since nulling their NOT NULL post id fails the commit; otherwise exactly that post's row is removed and nothing else changes |
| Handlers.DeletePostCascade | main.py:251-258 | corrected delete: as `delete_post` for non-admins and missing posts; otherwise the post's row and exactly the comments that belong to it are removed, and the admin is redirected home |
| Handlers.DeleteComment | main.py:261-267 | as written: never 403; 401 when anonymous; a crash with nothing changed for a user without comments or for a missing comment id; otherwise the named comment's row is removed, whoever wrote it, and the user is redirected to its post |
| Handlers.DeleteOwnComment | main.py:261-267 | with the corrected guard: 401 when anonymous; 404 when the named comment does not exist; for an existing comment, its author's request removes exactly that row and redirects to its post, and anyone else's is a 403 with nothing changed |
| Invariants.EmptyStoreValid | main.py:128-129 | the freshly created database satisfies the invariant |
| Invariants.RegisterPreservesValid | main.py:141-153 | registration keeps the invariant, in particular email uniqueness (main.py:86) and registration-order ids |
| Invariants.ShowPostPreservesValid | main.py:197-203 | a new comment has a fresh id, an existing author and an existing post |
| Invariants.AddNewPostPreservesValid | main.py:214-223 | a new post keeps ids increasing and titles unique (main.py:99) |
| Invariants.ReplacePostPreservesValid | main.py:241-246 | overwriting a post row that keeps its id, has a title no other post has and names an existing author keeps the invariant |
| Invariants.EditPostPreservesValid | main.py:240-246 | editing a post keeps the invariant |
| Invariants.RemovePostPreservesValid | main.py:255-257 | removing a post row that no comment refers to, the commit `delete_post` can make, keeps the invariant |
| Invariants.DeletePostPreservesValid | main.py:255-257 | `delete_post` as written keeps the invariant, whether it removes the post or fails and changes nothing |
| Invariants.DeletePostCascadePreservesValid | main.py:254-258 | the cascading delete keeps the invariant: no remaining comment refers to the removed post |
| Invariants.RemoveCommentPreservesValid | main.py:264-266 | removing one comment row keeps the invariant |
| Invariants.DeleteCommentPreservesValid | main.py:264-266 | `delete_comment` as written keeps the invariant |
| Invariants.DeleteOwnCommentPreservesValid | main.py:263-266 | the corrected deletion keeps the invariant |
| Properties.EmailLookupFindsOwner | main.py:162 | with unique emails the email lookup finds exactly the user with that email |
| Properties.LoginOutcome | main.py:162-170 | for a known email the password check alone decides: success logs in exactly the user with that email and redirects home; failure re-renders the form with "Incorrect Password" and leaves the session alone |
| Properties.RegisterThenLogin | main.py:141-170 | after registering a new email, logging in with the same email and password logs in the user just created, given that the hash checks against its own password |
| Properties.RegisteredIsAdminIffFirst | main.py:143-150 | the account a registration creates passes the admin check iff it is the first account ever registered |
| Properties.EditPostKeepsAuthors | main.py:244 | in a store where the admin wrote every post, editing changes no post's author and keeps that property |
| Properties.AddNewPostKeepsAdminAuthored | main.py:219 | creating a post keeps every post authored by the admin |
| Properties.DeletePostSucceedsIffUncommented | main.py:254-258 | for the admin and an existing post, `delete_post` changes the store iff no comment belongs to the post, and crashes iff one does |
| Properties.OtherHandlersKeepAdminAuthored | main.py:138-267 | register, login, commenting, both post deletes and both comment deletes keep every post authored by the admin |
| Properties.DeletePostRemovesExactlyIt | main.py:255-257 | deleting an existing post without comments removes exactly the post with that id, keeps all other posts, and leaves comments and users unchanged |
| Properties.DeletePostCascadeRemovesExactlyIt | main.py:254-258 | corrected delete: exactly the post with that id and exactly its comments go, every other post and comment and all users stay, and no comment refers to the post afterwards |
| Properties.CascadeAgreesWhenUncommented | main.py:254-258 | for a post without comments the corrected delete and `delete_post` as written give the same step |
| Properties.DeleteCommentRemovesExactlyIt | main.py:264-266 | once the guard passes, exactly the named comment disappears; posts and users stay |
| Properties.DeleteOwnCommentOwnerOnly | main.py:59-67 | corrected guard: for an existing comment and a logged-in user, the store changes iff the user wrote the comment, and the response is 403 iff they did not |
| Properties.NoCommentOnFreshPost | main.py:214-222 | no comment refers to the id the next post will get |
| Properties.DeleteLastPost | main.py:254-258 | for the admin, deleting the post in the last row, when it has no comments, drops exactly that row and redirects home |
| Properties.AddThenDeletePost | main.py:211-258 | creating a post and then deleting it gives back the original store, except for the spent post id |
| Properties.DeleteLastComment | main.py:263-267 | under the corrected guard, the author of the comment in the last row deletes exactly that row and is redirected by its post |
| Properties.CommentThenDeleteOwn | main.py:189-204 | posting a comment and then deleting it as its author gives back the original store, except for the spent comment id |
| Scenarios.RegisterAliceThenBob | main.py:141-151 | the first registration gets id 1 and the second gets id 2, each logged in |
| Scenarios.OnlyAlicePublishes | main.py:49-56 | the second user is refused a new post with 403; the first user's post is stored |
| Scenarios.BobThenAliceComment | main.py:197-204 | each comment is appended with the next id and the commenter as author |
| Scenarios.DeletingBobsComment | main.py:59-67 | the admin's attempt to delete another user's comment crashes as written and is a 403 under the corrected guard; the comment's author deletes it |
| Scenarios.Walkthrough | main.py:138-267 | the two-user walkthrough: admin by registration order, 403 for the second user's post, comment creation, refusal of a foreign deletion, and the post left with no comments |
| Scenarios.AsWrittenAnyCommenterDeletes | main.py:63-65 | as written, a user who has one comment deletes another user's comment |
| Scenarios.AsWrittenNewcomerCrashes | main.py:63-64 | as written, a logged-in user with no comments gets a crash whatever comment is named, and nothing changes |
| Scenarios.OwnerCheckRefusesOthers | main.py:59-67 | under the corrected guard the same foreign deletion is a 403 and nothing changes |
| Scenarios.AsWrittenCommentedPostCrashes | main.py:254-258 | as written, the admin's delete of a post with a comment is a 500 and the post and comment stay |
| Scenarios.CascadeRemovesCommentedPost | main.py:254-258 | with the cascade, the same delete removes the post and its comment and keeps both users |

## Findings

| source | as written | input that shows it | evidently intended | confidence | as-written member | corrected member |
|---|---|---|---|---|---|---|
| main.py:63-64 | the guard fetches the first comment written by the current user, ignoring the route's `comment_id`, and compares that comment's author with the current user, which always matches | Bob (id 2) wrote comment 1; Alice wrote comment 2; Bob requests `/delete-comment/2` and Alice's comment is deleted | only the author of the comment the route names may delete it; others get 403 | high; not executed | Scenarios.AsWrittenAnyCommenterDeletes | Properties.DeleteOwnCommentOwnerOnly |
| main.py:63-64 | a logged-in user who has written no comment makes the lookup return `None`, and reading `comment.comment_author` raises | Alice (id 1), with no comments, requests `/delete-comment/1` for Bob's comment and gets a 500 | a refusal (403, or 404 for a missing comment), not a crash | high; not executed | Scenarios.AsWrittenNewcomerCrashes | Guards.CommentOwnerOnly |
| main.py:256-257 | deleting the post makes the ORM null the `post_id` of its comments, since `BlogPost.comments` has no delete cascade, and `post_id` is NOT NULL (`Mapped[int]`, main.py:124), so the commit fails | Bob wrote comment 1 on post 1; the admin requests `/delete-post/1` and gets a 500; the post stays | the post is deleted together with its comments (`cascade="all, delete-orphan"`) | medium; not executed | Scenarios.AsWrittenCommentedPostCrashes | Properties.DeletePostCascadeRemovesExactlyIt |

## Left out

- Flask routing, templates, `redirect`/`url_for` and `flash` are reduced to response tags. The rendered pages' contents are not modelled.
- `logout`, `get_all_posts`, `about`, `contact`, `app.run` and the app configuration are not modelled. This covers the secret key, the database URI, Bootstrap, CKEditor and Gravatar. None of these reads or guards records beyond a plain listing.
- Form classes and their field validators are not part of this model. A form is either absent (not validated) or carries its field values.
- Password hashing is uninterpreted. `Hasher.generate` stands for `generate_password_hash(password, "pbkdf2:sha256", 8)`, with the random salt as an input. `Hasher.check` stands for `check_password_hash`. PBKDF2 itself is not modelled.
- Flask-Login's cookie and session transport is not modelled. The session is just the optional user id, and `login_user` sets it.
- Post dates are not computed. `date.today().strftime(...)` is the opaque input `today`.
- Table order stands in for the row order a `select` without `ORDER BY` returns, which the database leaves unspecified. `.scalar()` is modelled as the first matching row in table order. No outcome depends on the choice: emails are unique, and every comment `comment_author_only` can fetch has the same author.
- Primary keys come from a per-table counter, so ids are never reused. SQLite without AUTOINCREMENT may hand out the highest deleted post or comment id again; that reuse is not modelled.
- The 250-character limits of the `String(250)` columns are not modelled; SQLite does not enforce them.
- `nullable=False` and the NOT NULL that a non-optional `Mapped[...]` implies are modelled only where a handler can break them: the `post_id` of comments when their post is deleted. Elsewhere the handlers always supply a value.
- Database failures other than the unique-title violation and the NOT NULL `post_id` violation of `delete_post` are not modelled, e.g. the store being unreachable.
- Transactions and concurrency between requests are not modelled. Each handler is one atomic step.
- The ORM's bidirectional relationship attributes (`user.posts`, `user.comments`, `post.comments`) are not modelled as objects. They are derived from the foreign keys (`Records.CommentsOf`).
- Handlers.Login: its own contract states the outcome for the first stored user with the email. That this is the only user with that email needs the store invariant; `Properties.LoginOutcome` states the rule for that user.
