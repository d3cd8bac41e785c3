/** What a request handler hands back, reduced to abstract tags: the page a
    redirect goes to, the template rendered, the flashed message, or the
    HTTP error the request ends in. */
module Outcomes {
  import opened Wrappers
  import opened Records

  /** Redirect targets (`url_for` endpoints). */
  datatype Page = AllPosts | LoginPage | RegisterPage | PostPage(postId: nat)

  /** Templates a handler renders when its form was not (validly) submitted. */
  datatype View = RegisterView | LoginView | PostView(postId: nat) | NewPostView | EditPostView

  /** The `flash` messages of the handlers. */
  datatype Flash = AlreadyRegistered | NotRegistered | IncorrectPassword | LogInToComment

  datatype Response =
    | Redirect(to: Page, flash: Option<Flash>)
    | Render(view: View, flash: Option<Flash>)
    /** `login_required` on an anonymous user: Flask-Login aborts with 401
        since no login view is configured. */
    | Unauthorized
    /** `abort(403)`. */
    | Forbidden
    /** A 404: `db.get_or_404` on a missing post, or a missing comment under
        the corrected owner check. */
    | NotFound
    /** An unhandled exception: a 500 response. */
    | Crash

  /** The effect of one request: the database after it, the session after
      it, and the response. */
  datatype Step = Step(store: Store, session: Session, response: Response)
}
