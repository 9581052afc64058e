/**
 * The mock identity provider (`FirebaseAuthMock`): it remembers the signed-in
 * user, accepts any non-empty email and password, and forgets the user on
 * logout. The simulated latency is not modelled; each call is one step.
 */
module Auth {
  import opened Wrappers
  import opened Text

  /** The user object the mock stores: `{ email, uid, displayName }`. */
  datatype User = User(email: string, uid: string, displayName: string)

  /** The fixed uid every mock login hands out. */
  const MockUid: string := "123456"

  /** The user a successful login with `email` stores. Its display name is the
      text before the first `@` (all of the email when it has none). */
  function SignedInUser(email: string): (u: User)
    ensures u.email == email && u.uid == MockUid
    ensures u.displayName <= email && '@' !in u.displayName
    ensures |u.displayName| < |email| ==> email[|u.displayName|] == '@'
  {
    TextBeforeSpec(email, '@');
    User(email, MockUid, TextBefore(email, '@'))
  }

  class AuthMock {
    /** `null` when nobody is signed in. */
    var currentUser: Option<User>

    constructor ()
      ensures currentUser == None
    {
      currentUser := None;
    }

    /** `isAuthenticated()`. */
    predicate IsAuthenticated()
      reads this
    {
      currentUser.Some?
    }

    /** `login(email, password)`: resolves with the stored user when both are
        non-empty (JavaScript-truthy); otherwise rejects and leaves the current
        user as it was. */
    method Login(email: string, password: string) returns (user: Option<User>)
      modifies this
      ensures user.Some? <==> email != [] && password != []
      ensures user.Some? ==> user == Some(SignedInUser(email)) && currentUser == user
      ensures user.None? ==> currentUser == old(currentUser)
    {
      if email != [] && password != [] {
        currentUser := Some(SignedInUser(email));
        user := currentUser;
      } else {
        user := None;
      }
    }

    /** `logout()`: always succeeds and forgets the user. */
    method Logout()
      modifies this
      ensures currentUser == None
    {
      currentUser := None;
    }
  }
}
