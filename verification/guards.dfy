/** The two route decorators of main.py, as authorization checks run
    before a handler body: `admin_only` and `comment_author_only` as
    written, and the comment-owner check the latter evidently means. */
module Guards {
  import opened Wrappers
  import opened Records
  import opened Outcomes

  /** Either the handler body runs for `user`, or the request ends with `response`. */
  datatype Gate = Pass(user: User) | Reject(response: Response)

  /** `admin_only`: `login_required` first, then `current_user.id == 1`. */
  function AdminOnly(s: Store, session: Session): (g: Gate)
    ensures g.Pass? <==> session == Some(ADMIN_ID) && HasUser(s, ADMIN_ID)
    ensures g.Pass? ==> g.user in s.users && g.user.id == ADMIN_ID
    ensures g.Reject? && g.response == Unauthorized <==> session.None? || !HasUser(s, session.value)
    ensures g.Reject? ==> g.response == Unauthorized || g.response == Forbidden
  {
    match CurrentUser(s, session)
    case None => Reject(Unauthorized)
    case Some(user) =>
      if user.id == ADMIN_ID then Pass(user) else Reject(Forbidden)
  }

  /** `comment_author_only` as written: after `login_required` it fetches the
      first comment whose author is the current user, whatever comment the
      route names, and compares that comment's author with the current user.
      With no such comment the lookup yields `None` and reading its author
      raises, a 500. The 403 branch can never be taken. */
  function CommentAuthorOnly(s: Store, session: Session): (g: Gate)
    ensures g.Pass? <==> session.Some? && HasUser(s, session.value) && AuthoredAny(s, session.value)
    ensures g.Pass? ==> g.user in s.users && session == Some(g.user.id)
    ensures g.Reject? && g.response == Unauthorized <==> session.None? || !HasUser(s, session.value)
    ensures g.Reject? && g.response == Crash <==>
              session.Some? && HasUser(s, session.value) && !AuthoredAny(s, session.value)
    ensures g.Reject? ==> g.response != Forbidden
  {
    match CurrentUser(s, session)
    case None => Reject(Unauthorized)
    case Some(user) =>
      match FirstCommentBy(s, user.id)
      case None => Reject(Crash)
      case Some(k) =>
        if s.comments[k].authorId == user.id then Pass(user) else Reject(Forbidden)
  }

  /** The comment-owner check the decorator is meant to be: the comment the
      route names must exist (404 otherwise) and be the current user's (403
      otherwise). */
  function CommentOwnerOnly(s: Store, session: Session, commentId: nat): (g: Gate)
    ensures g.Reject? && g.response == Unauthorized <==> session.None? || !HasUser(s, session.value)
    ensures g.Reject? && g.response == NotFound <==>
              session.Some? && HasUser(s, session.value) && !HasComment(s, commentId)
    ensures g.Pass? ==> g.user in s.users && session == Some(g.user.id)
    ensures g.Pass? ==> exists c :: c in s.comments && c.id == commentId && c.authorId == g.user.id
    ensures g.Reject? && g.response == Forbidden ==>
              exists c :: c in s.comments && c.id == commentId && Some(c.authorId) != session
    ensures g.Reject? ==> g.response in {Unauthorized, NotFound, Forbidden}
  {
    match CurrentUser(s, session)
    case None => Reject(Unauthorized)
    case Some(user) =>
      match CommentIndex(s, commentId)
      case None => Reject(NotFound)
      case Some(k) =>
        assert s.comments[k] in s.comments;
        if s.comments[k].authorId == user.id then Pass(user) else Reject(Forbidden)
  }
}
