/** The simulated sign-in of src/hooks/useAuth.tsx: the provider's state,
    restoring a saved user, the e-mail check of `login`, and `logout`.  The
    browser's `localStorage` entry `calendar_user` is a field of the state,
    holding the user value its JSON text encodes. */
module Auth {
  import opened Wrappers
  import opened Strings

  datatype User = User(id: string, email: string, name: string)

  /** The provider's state plus the stored entry. */
  datatype AuthState = AuthState(user: Option<User>, isLoading: bool, error: Option<string>, stored: Option<User>)

  const MockUserId: string := "123456"
  const InvalidEmailMessage: string := "Please enter a valid email address"

  /** `isAuthenticated`: a user is signed in. */
  predicate IsAuthenticated(s: AuthState) {
    s.user.Some?
  }

  /** The first render: nobody signed in, loading, no error. */
  function Initial(stored: Option<User>): (s: AuthState)
    ensures !IsAuthenticated(s) && s.isLoading && s.error.None?
    ensures s.stored == stored
  {
    AuthState(None, true, None, stored)
  }

  /** The mount effect: a saved user is signed back in; loading ends. */
  function Restore(s: AuthState): (r: AuthState)
    ensures !r.isLoading
    ensures s.stored.Some? ==> r.user == s.stored
    ensures s.stored.None? ==> r.user == s.user
    ensures r.error == s.error && r.stored == s.stored
  {
    AuthState(if s.stored.Some? then s.stored else s.user, false, s.error, s.stored)
  }

  /** The address check: non-empty and containing '@'. */
  predicate ValidEmail(email: string) {
    |email| > 0 && '@' in email
  }

  /** `login(email, password)`.  The password is ignored.  A valid address
      signs in the mock user named after the part before the first '@' and
      stores it; an invalid one records the message and leaves user and
      storage alone.  The error is cleared first and loading ends either way. */
  function Login(s: AuthState, email: string): (r: AuthState)
    ensures !r.isLoading
    ensures ValidEmail(email) ==>
              && r.error.None?
              && r.user.Some? && r.user.value.id == MockUserId && r.user.value.email == email
              && r.stored == r.user
    ensures ValidEmail(email) ==>
              var name := r.user.value.name;
              && '@' !in name && name < email && email[|name|] == '@'
    ensures !ValidEmail(email) ==>
              r.error == Some(InvalidEmailMessage) && r.user == s.user && r.stored == s.stored
  {
    if !ValidEmail(email) then AuthState(s.user, false, Some(InvalidEmailMessage), s.stored)
    else
      var name := BeforeFirst(email, '@');
      var user := User(MockUserId, email, name);
      AuthState(Some(user), false, None, Some(user))
  }

  /** `logout`: the user is signed out and the stored entry removed. */
  function Logout(s: AuthState): (r: AuthState)
    ensures !IsAuthenticated(r) && r.stored.None?
    ensures r.isLoading == s.isLoading && r.error == s.error
  {
    AuthState(None, s.isLoading, s.error, None)
  }

  /** A successful login survives a reload: restoring from the stored entry
      signs the same user back in. */
  lemma LoginSurvivesReload(s: AuthState, email: string)
    requires ValidEmail(email)
    ensures Restore(Initial(Login(s, email).stored)).user == Login(s, email).user
    ensures IsAuthenticated(Restore(Initial(Login(s, email).stored)))
  {
  }

  /** After logging out a reload signs nobody in. */
  lemma LogoutSurvivesReload(s: AuthState)
    ensures !IsAuthenticated(Restore(Initial(Logout(s).stored)))
  {
  }

  /** The user name and the rest of the address make up the address. */
  lemma NameIsLocalPart(s: AuthState, email: string)
    requires ValidEmail(email)
    ensures var name := Login(s, email).user.value.name;
            exists rest :: email == name + "@" + rest && |name| < |email|
  {
    var name := Login(s, email).user.value.name;
    assert email == name + "@" + email[|name| + 1..];
  }

  /** Signing in is authenticated exactly when the address is valid, provided
      nobody was signed in before. */
  lemma LoginAuthenticatesIffValid(s: AuthState, email: string)
    requires !IsAuthenticated(s)
    ensures IsAuthenticated(Login(s, email)) <==> ValidEmail(email)
  {
  }
}
