/**
 * The sign-in screen: the credential checks before a login request, the single error shown
 * for any failed login, the choice between the welcome screen and the dashboard, and the
 * forgot-password dialog.
 */
module LoginForm {
  import opened Wrappers
  import Text
  import AuthContext

  datatype Credentials = Credentials(username: string, password: string)

  datatype Field = Username | Password

  datatype Page = Page(
    form: Credentials,
    error: string,
    showForgot: bool,
    forgotUsername: string,
    forgotError: string,
    forgotSuccess: string)

  const WelcomeKey: string := "hasSeenWelcome"

  const LoginFailedMessage: string := "Invalid credentials. Please try again."

  /** `localStorage.getItem("hasSeenWelcome")` is truthy: present and not the empty text. */
  predicate SeenWelcome(store: AuthContext.Store)
  {
    WelcomeKey in store && store[WelcomeKey] != AuthContext.Text("")
  }

  /** Where a signed-in user is sent: the welcome screen until it has been seen, then the dashboard. */
  function Landing(store: AuthContext.Store): (target: string)
    ensures target == "/welcome" <==> !SeenWelcome(store)
    ensures target == "/dashboard" <==> SeenWelcome(store)
  {
    if !SeenWelcome(store) then "/welcome" else "/dashboard"
  }

  /** On mount, a stored non-empty token sends the user on at once. */
  function Mount(auth: AuthContext.AuthState, store: AuthContext.Store): (target: Option<string>)
    ensures target.Some? <==> auth.token.Some? && auth.token.value != ""
    ensures target.Some? ==> target.value == Landing(store)
  {
    if auth.token.Some? && auth.token.value != "" then Some(Landing(store)) else None
  }

  /** Typing into an input: that field changes, the other keeps its text, the error clears. */
  function Edit(p: Page, field: Field, value: string): (r: Page)
    ensures r.error == ""
    ensures field == Username ==> r.form == Credentials(value, p.form.password)
    ensures field == Password ==> r.form == Credentials(p.form.username, value)
    ensures r.showForgot == p.showForgot && r.forgotUsername == p.forgotUsername
  {
    match field
    case Username => p.(form := p.form.(username := value), error := "")
    case Password => p.(form := p.form.(password := value), error := "")
  }

  /** Submitting: both fields must be filled before the credentials are sent. */
  function Submit(p: Page): (r: (Page, Option<Credentials>))
    ensures r.1.None? <==> p.form.username == "" || p.form.password == ""
    ensures r.1.None? ==> r.0 == p.(error := "Please enter both username and password")
    ensures r.1.Some? ==> r.1.value == p.form && r.0 == p.(error := "")
  {
    if p.form.username == "" || p.form.password == "" then
      (p.(error := "Please enter both username and password"), None)
    else (p.(error := ""), Some(p.form))
  }

  /** The login reply: accepted with a token and user, refused with an optional message, or thrown. */
  datatype LoginReply =
    | LoginAccepted(token: string, user: AuthContext.User)
    | LoginRefused(message: Option<string>)
    | LoginThrown

  /**
   * Finishing a login: on success the session is saved and the user is sent on; any failure
   * shows the same error and leaves the session and the store alone.
   */
  function FinishLogin(p: Page, auth: AuthContext.AuthState, store: AuthContext.Store, reply: LoginReply)
    : (r: (Page, AuthContext.AuthState, AuthContext.Store, Option<string>))
    ensures reply.LoginAccepted? ==>
      && (r.1, r.2) == AuthContext.Login(store, reply.token, Some(reply.user))
      && r.3 == Some(Landing(store)) && r.0 == p
    ensures !reply.LoginAccepted? ==> r == (p.(error := LoginFailedMessage), auth, store, None)
  {
    match reply
    case LoginAccepted(token, user) =>
      var (next, saved) := AuthContext.Login(store, token, Some(user));
      (p, next, saved, Some(Landing(saved)))
    case _ => (p.(error := LoginFailedMessage), auth, store, None)
  }

  /** Saving the session does not touch the welcome flag, so the landing choice is unaffected. */
  lemma LoginKeepsLanding(store: AuthContext.Store, token: string, user: AuthContext.User)
    ensures Landing(AuthContext.Login(store, token, Some(user)).1) == Landing(store)
  {
    var saved := AuthContext.Login(store, token, Some(user)).1;
    assert WelcomeKey != AuthContext.AuthKey;
    assert WelcomeKey in saved <==> WelcomeKey in store;
  }

  /** After a login, reopening the screen sends the user where the login did. */
  lemma RedirectRuleAgrees(p: Page, auth: AuthContext.AuthState, store: AuthContext.Store, token: string, user: AuthContext.User)
    requires token != ""
    ensures var r := FinishLogin(p, auth, store, LoginAccepted(token, user));
      Mount(r.1, r.2) == r.3
  {
    LoginKeepsLanding(store, token, user);
  }

  /** The server's reason for a refusal never reaches the screen. */
  lemma FailuresLookAlike(p: Page, auth: AuthContext.AuthState, store: AuthContext.Store, m: Option<string>)
    ensures FinishLogin(p, auth, store, LoginRefused(m)) == FinishLogin(p, auth, store, LoginThrown)
    ensures FinishLogin(p, auth, store, LoginRefused(m)).0.error == LoginFailedMessage
  {
  }

  /** The forgot-password request needs a username; sending clears the dialog's messages. */
  function SubmitForgot(p: Page): (r: (Page, Option<string>))
    ensures r.1.None? <==> p.forgotUsername == ""
    ensures r.1.None? ==> r.0 == p.(forgotError := "Please enter your username")
    ensures r.1.Some? ==> r.1.value == p.forgotUsername && r.0 == p.(forgotError := "", forgotSuccess := "")
  {
    if p.forgotUsername == "" then (p.(forgotError := "Please enter your username"), None)
    else (p.(forgotError := "", forgotSuccess := ""), Some(p.forgotUsername))
  }

  /** The reply's `msg`, absent when the reply has none; a throw covers an unreadable reply. */
  datatype ForgotReply = ForgotReplied(msg: Option<string>) | ForgotThrown

  /**
   * The dialog's outcome: a message mentioning "successfully" is shown as success, any other
   * message as the error, and a missing message (reading it throws) or a failed request as
   * the generic error.
   */
  function FinishForgot(p: Page, reply: ForgotReply): (r: Page)
    ensures reply.ForgotReplied? && reply.msg.Some? && Text.Contains(reply.msg.value, "successfully") ==>
      r == p.(forgotSuccess := reply.msg.value)
    ensures reply.ForgotReplied? && reply.msg.Some? && !Text.Contains(reply.msg.value, "successfully") ==>
      r == p.(forgotError := reply.msg.value)
    ensures (reply.ForgotThrown? || reply.msg.None?) ==>
      r == p.(forgotError := "Failed to process request. Please try again.")
  {
    match reply
    case ForgotReplied(Some(m)) =>
      if Text.Contains(m, "successfully") then p.(forgotSuccess := m) else p.(forgotError := m)
    case _ => p.(forgotError := "Failed to process request. Please try again.")
  }

  /** Three seconds after a success the dialog closes and forgets the username and message. */
  function DismissForgot(p: Page): (r: Page)
    ensures !r.showForgot && r.forgotUsername == "" && r.forgotSuccess == ""
    ensures r.form == p.form && r.error == p.error && r.forgotError == p.forgotError
  {
    p.(showForgot := false, forgotUsername := "", forgotSuccess := "")
  }

  /** After a sent request settles, the dialog never shows success and an error at once. */
  lemma ForgotShowsOneOutcome(p: Page, reply: ForgotReply)
    requires p.forgotUsername != ""
    ensures var r := FinishForgot(SubmitForgot(p).0, reply);
      r.forgotSuccess == "" || r.forgotError == ""
    ensures var r := FinishForgot(SubmitForgot(p).0, reply);
      r.forgotSuccess != "" <==> reply.ForgotReplied? && reply.msg.Some? && Text.Contains(reply.msg.value, "successfully")
  {
    if reply.ForgotReplied? && reply.msg.Some? && Text.Contains(reply.msg.value, "successfully") {
      assert !Text.Contains("", "successfully");
    }
  }
}
