/**
 * The signed-in user and its persistence. The browser's local storage is an abstract
 * key-value map; an entry holds either plain text or an authentication state (the source
 * stores that state as JSON, whose encoding is not modelled).
 */
module AuthContext {
  import opened Wrappers

  /** The fields of the signed-in user that the modelled views read. */
  datatype User = User(id: int, username: string, pin: string, batch: int, name: string)

  datatype AuthState = AuthState(token: Option<string>, user: Option<User>)

  datatype Entry = Text(text: string) | SavedAuth(auth: AuthState)

  type Store = map<string, Entry>

  const AuthKey: string := "auth"

  const SignedOut: AuthState := AuthState(None, None)

  /** Pages treat a user as signed in when both a non-empty token and a user are present. */
  predicate HasSession(a: AuthState)
  {
    a.token.Some? && a.token.value != "" && a.user.Some?
  }

  /** The state the provider starts with: the saved state when there is one, else signed out. */
  function Initial(store: Store): (a: AuthState)
    ensures AuthKey in store && store[AuthKey].SavedAuth? ==> a == store[AuthKey].auth
    ensures AuthKey !in store ==> a == SignedOut
    ensures AuthKey in store && store[AuthKey] == Text("") ==> a == SignedOut
  {
    if AuthKey in store && store[AuthKey].SavedAuth? then store[AuthKey].auth else SignedOut
  }

  /** `login(token, user)`: the new state and the store that now holds it. */
  function Login(store: Store, token: string, user: Option<User>): (r: (AuthState, Store))
    ensures r.0.token == Some(token) && r.0.user == user
    ensures HasSession(r.0) <==> token != "" && user.Some?
    ensures r.1.Keys == store.Keys + {AuthKey}
    ensures forall k :: k in store && k != AuthKey ==> r.1[k] == store[k]
  {
    var next := AuthState(Some(token), user);
    (next, store[AuthKey := SavedAuth(next)])
  }

  /** `logout()`: signed out, and the saved entry removed. */
  function Logout(store: Store): (r: (AuthState, Store))
    ensures r.0.token.None? && r.0.user.None? && !HasSession(r.0)
    ensures AuthKey !in r.1
    ensures forall k :: k in store && k != AuthKey ==> k in r.1 && r.1[k] == store[k]
  {
    (SignedOut, store - {AuthKey})
  }

  /** Reloading after a login restores exactly the state the login set. */
  lemma LoginSurvivesReload(store: Store, token: string, user: Option<User>)
    ensures Initial(Login(store, token, user).1) == Login(store, token, user).0
  {
  }

  /** Reloading after a logout starts signed out, whatever was saved before. */
  lemma LogoutSurvivesReload(store: Store)
    ensures Initial(Logout(store).1) == SignedOut
  {
  }
}
