/** The session state of `src/context/AuthContext.tsx`: the signed-in user,
    the loading flag, and the `auth_token` entry of session storage, with
    the three transitions that change them. The API answers are
    parameters. */
module AuthContext {
  import opened Wrappers

  /** The user record the API returns (its `role` is always `admin`). */
  datatype AuthUser = AuthUser(id: string, username: string)

  /** What `useAuth` hands to a consumer: `user`, `isLoading`, and the
      `login`/`logout` operations, which are the methods of `AuthProvider`. */
  datatype AuthContextValue = AuthContextValue(user: Option<AuthUser>, isLoading: bool)

  const OutsideProviderError: string := "useAuth must be used within an AuthProvider"

  /** `useAuth`: `context` is `None` outside an `AuthProvider`. */
  function UseAuth(context: Option<AuthContextValue>): (r: Result<AuthContextValue, string>)
    ensures r.Success? <==> context.Some?
    ensures r.Success? ==> r.value == context.value
    ensures r.Failure? ==> r.error == OutsideProviderError
  {
    match context
    case Some(value) => Success(value)
    case None => Failure(OutsideProviderError)
  }

  /** A token string is truthy. */
  predicate Truthy(token: Option<string>) {
    token.Some? && token.value != ""
  }

  class AuthProvider {
    var user: Option<AuthUser>
    var isLoading: bool
    /** The `auth_token` entry of session storage. */
    var storedToken: Option<string>

    /** Whoever is signed in has a token in storage. */
    predicate Valid()
      reads this
    {
      user.Some? ==> Truthy(storedToken)
    }

    /** The first render: nobody signed in, loading. */
    constructor(stored: Option<string>)
      ensures user.None? && isLoading && storedToken == stored && Valid()
    {
      user := None;
      isLoading := true;
      storedToken := stored;
    }

    /** The mount effect. `verify` is what `GET /auth/verify` settles to;
        it is asked only when a truthy token is stored. Returns whether it
        was asked. */
    method Mount(verify: Result<AuthUser, string>) returns (verified: bool)
      modifies this
      ensures verified <==> Truthy(old(storedToken))
      ensures !isLoading
      ensures !verified ==> user == old(user) && storedToken == old(storedToken)
      ensures verified && verify.Success? ==> user == Some(verify.value) && storedToken == old(storedToken)
      ensures verified && verify.Failure? ==> user == old(user) && storedToken.None?
      ensures old(user).None? ==> Valid()
    {
      verified := storedToken.Some? && storedToken.value != "";
      if verified {
        if verify.Success? {
          user := Some(verify.value);
        } else {
          storedToken := None;
        }
      }
      isLoading := false;
    }

    /** `login`: `outcome` is what `POST /auth/login` settles to, the token
        and user of its body or a rejection, which is re-raised. */
    method Login(outcome: Result<(string, AuthUser), string>) returns (raised: Option<string>)
      modifies this
      ensures outcome.Success? ==>
                raised.None? && storedToken == Some(outcome.value.0) && user == Some(outcome.value.1)
      ensures outcome.Failure? ==>
                raised == Some(outcome.error) && storedToken == old(storedToken) && user == old(user)
      ensures isLoading == old(isLoading)
      ensures outcome.Success? && outcome.value.0 != "" ==> Valid()
    {
      match outcome
      case Success((token, u)) =>
        storedToken := Some(token);
        user := Some(u);
        raised := None;
      case Failure(e) =>
        raised := Some(e);
    }

    /** `logout`, from any state. */
    method Logout()
      modifies this
      ensures user.None? && storedToken.None? && isLoading == old(isLoading) && Valid()
    {
      storedToken := None;
      user := None;
    }

    /** The value the provider passes to its consumers. */
    function Value(): (v: AuthContextValue)
      reads this
      ensures v.user == user && v.isLoading == isLoading
    {
      AuthContextValue(user, isLoading)
    }
  }

  /** Opening the application: the provider mounts with what session
      storage holds and the verify answer. A session is restored only from
      a truthy token that the server accepts; loading always ends. */
  method OpenApp(stored: Option<string>, verify: Result<AuthUser, string>) returns (p: AuthProvider)
    ensures !p.isLoading && p.Valid()
    ensures p.user.Some? <==> Truthy(stored) && verify.Success?
    ensures p.user.Some? ==> p.user.value == verify.value && p.storedToken == stored
    ensures Truthy(stored) && verify.Failure? ==> p.storedToken.None?
    ensures !Truthy(stored) ==> p.storedToken == stored
  {
    p := new AuthProvider(stored);
    var _ := p.Mount(verify);
  }
}
