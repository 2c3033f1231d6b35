/**
 * LoginController: the two anonymous endpoints. Each maps its input, and the
 * repository's answers, to one result; the controller keeps no state of its
 * own besides the repository it was constructed with, which is passed here.
 */
module LoginController {
  import opened Options
  import opened Models
  import opened Repositories

  /** The result shapes the endpoints produce (BadRequest, NotFound and Ok object results). */
  datatype ActionResult = BadRequest(message: string) | NotFound(message: string) | Ok(value: string)

  const NoDataMessage := "No data provided"
  const UserNotFoundMessage := "User not found"
  const InvalidTokenMessage := "The token has expired or an invalid request has been sent"

  /**
   * POST login: no body is a bad request; otherwise the repository authenticates,
   * and a found account gets a freshly generated token, anything else a not-found.
   */
  function Login(repo: UserRepository, userLogin: Option<UserLogin>, now: int, sign: Signer): (r: ActionResult)
    reads repo
    ensures userLogin.None? ==> r == BadRequest(NoDataMessage)
    ensures userLogin.Some? && repo.Authenticate(userLogin.value).None? ==> r == NotFound(UserNotFoundMessage)
    ensures userLogin.Some? && repo.Authenticate(userLogin.value).Some?
            ==> r == Ok(repo.Generate(repo.Authenticate(userLogin.value).value, now, sign))
  {
    if userLogin.None? then
      BadRequest(NoDataMessage)
    else
      var user := repo.Authenticate(userLogin.value);
      if user.Some? then
        var token := repo.Generate(user.value, now, sign);
        Ok(token)
      else
        NotFound(UserNotFoundMessage)
  }

  /**
   * GET GetRole: the value of the first role claim of the request's principal;
   * with no principal, or no role claim, a not-found that blames the token.
   */
  function GetRole(user: Option<ClaimsPrincipal>): (r: ActionResult)
    ensures r.Ok? <==> user.Some? && exists i :: 0 <= i < |user.value.claims| && user.value.claims[i].claimType == Role
    ensures r.Ok? ==> exists i :: 0 <= i < |user.value.claims| && user.value.claims[i] == Claim(Role, r.value)
                                  && forall j :: 0 <= j < i ==> user.value.claims[j].claimType != Role
    ensures !r.Ok? ==> r == NotFound(InvalidTokenMessage)
  {
    var role := if user.Some? then FindFirstValue(user.value.claims, Role) else None;
    if role.Some? then Ok(role.value) else NotFound(InvalidTokenMessage)
  }

  /** Login answers Ok exactly when some stored account matches the credentials. */
  lemma LoginOkIffAccountMatches(repo: UserRepository, login: UserLogin, now: int, sign: Signer)
    ensures Login(repo, Some(login), now, sign).Ok?
            <==> exists i :: 0 <= i < |repo.users| && LoginMatches(repo.users[i], login)
  {
  }

  /**
   * An Ok token is the configured key's signature over the token issued to the
   * first matching stored account, and that token's role claim is the account's role.
   */
  lemma LoginTokenBelongsToUser(repo: UserRepository, login: UserLogin, now: int, sign: Signer)
    ensures Login(repo, Some(login), now, sign).Ok? ==>
              exists i :: 0 <= i < |repo.users| && LoginMatches(repo.users[i], login)
                          && (forall j :: 0 <= j < i ==> !LoginMatches(repo.users[j], login))
                          && Login(repo, Some(login), now, sign).value
                             == sign(repo.config.key, repo.IssuedToken(repo.users[i], now))
                          && FindFirstValue(repo.IssuedToken(repo.users[i], now).claims, Role)
                             == Some(repo.users[i].role)
  {
    if Login(repo, Some(login), now, sign).Ok? {
      var u := repo.Authenticate(login).value;
      var i :| 0 <= i < |repo.users| && repo.users[i] == u && LoginMatches(repo.users[i], login)
               && forall j :: 0 <= j < i ==> !LoginMatches(repo.users[j], login);
      assert Login(repo, Some(login), now, sign).value == sign(repo.config.key, repo.IssuedToken(u, now));
    }
  }

  /**
   * Login does not consult the store without a body, and does not generate a
   * token when authentication fails: the first answer does not depend on the
   * store, the second not on the time or the signer.
   */
  lemma LoginFailuresSkipLaterSteps(repo: UserRepository, other: UserRepository, userLogin: Option<UserLogin>,
                                    now: int, later: int, sign: Signer, resign: Signer)
    ensures Login(repo, None, now, sign) == Login(other, None, later, resign)
    ensures !Login(repo, userLogin, now, sign).Ok?
            ==> Login(repo, userLogin, now, sign) == Login(repo, userLogin, later, resign)
  {
  }

  /**
   * A principal that carries an issued token's claims, after any claims that are
   * not role claims, reports the role of the account the token was issued to.
   */
  lemma {:induction false} IssuedRoleIsReported(repo: UserRepository, u: User, now: int,
                                                before: seq<Claim>, after: seq<Claim>)
    requires forall i :: 0 <= i < |before| ==> before[i].claimType != Role
    ensures GetRole(Some(ClaimsPrincipal(before + repo.IssuedToken(u, now).claims + after))) == Ok(u.role)
  {
    var issued := repo.IssuedToken(u, now).claims;
    var claims := before + issued + after;
    var k :| 0 <= k < |issued| && issued[k] == Claim(Role, u.role)
             && forall j :: 0 <= j < k ==> issued[j].claimType != Role;
    forall j | 0 <= j < |before| + k ensures claims[j].claimType != Role {
      if j < |before| {
        assert claims[j] == before[j];
      } else {
        assert claims[j] == issued[j - |before|];
      }
    }
    assert claims[|before| + k] == Claim(Role, u.role);
    FindFirstValueAt(claims, Role, |before| + k);
  }

  /** The controller scenarios: no body; unknown credentials; known credentials. */
  lemma LoginScenarios(repo: UserRepository, now: int, sign: Signer)
    requires repo.users == [User("testuser", "testPassword", "sample@sample.com", "testRole")]
    ensures Login(repo, None, now, sign) == BadRequest("No data provided")
    ensures Login(repo, Some(UserLogin("testUser", "wrongPassword")), now, sign) == NotFound("User not found")
    ensures Login(repo, Some(UserLogin("TestUser ", "testPassword")), now, sign)
            == Ok(sign(repo.config.key, repo.IssuedToken(repo.users[0], now)))
  {
    PaddedMixedCaseLogin(repo);
  }

  /** GetRole with no principal, and with a principal holding one role claim. */
  lemma GetRoleScenarios()
    ensures GetRole(None) == NotFound("The token has expired or an invalid request has been sent")
    ensures GetRole(Some(ClaimsPrincipal([Claim(Role, "testRole")]))) == Ok("testRole")
  {
    FindFirstValueAt([Claim(Role, "testRole")], Role, 0);
  }
}
