/** The records the authentication core passes around. */
module Models {
  import opened Options
  import opened Linq

  /** A stored account (the User entity). The password is plain text, as in the store. */
  datatype User = User(username: string, password: string, email: string, role: string)

  /** The body of a login request (UserLogin). */
  datatype UserLogin = UserLogin(username: string, password: string)

  /** The claim types the core writes and reads; any other type a token may carry is Other. */
  datatype ClaimType = NameIdentifier | Email | Role | Other(uri: string)

  datatype Claim = Claim(claimType: ClaimType, value: string)

  /** The authenticated principal of a request, flattened to its claims in order. */
  datatype ClaimsPrincipal = ClaimsPrincipal(claims: seq<Claim>)

  /** The three configuration entries Generate reads: Jwt:Key, Jwt:Issuer, Jwt:Audience. */
  datatype JwtConfig = JwtConfig(key: string, issuer: string, audience: string)

  /** An unsigned JWT (JwtSecurityToken): issuer, audience, claims and expiry in seconds. */
  datatype SecurityToken = SecurityToken(issuer: string, audience: string, claims: seq<Claim>, expires: int)

  /**
   * Signing with HMAC-SHA256 under a key and serialising the result to a compact
   * string (SigningCredentials + JwtSecurityTokenHandler.WriteToken); a library
   * call, so the model takes it as a parameter.
   */
  type Signer = (string, SecurityToken) -> string

  const SecondsPerMinute := 60
  /** Generate stamps expiry at issuance + 15 minutes. */
  const TokenLifetimeMinutes := 15

  /**
   * ClaimsPrincipal.FindFirstValue(type): the value of the first claim of that
   * type, or null when there is none.
   */
  function FindFirstValue(claims: seq<Claim>, claimType: ClaimType): (r: Option<string>)
    ensures r.None? <==> forall i :: 0 <= i < |claims| ==> claims[i].claimType != claimType
    ensures r.Some? ==> exists i :: 0 <= i < |claims| && claims[i] == Claim(claimType, r.value)
                                    && forall j :: 0 <= j < i ==> claims[j].claimType != claimType
  {
    match FirstOrDefault(claims, (c: Claim) => c.claimType == claimType)
    case None => None
    case Some(c) => Some(c.value)
  }

  /** A claim of the type with none of that type before it is the one FindFirstValue reads. */
  lemma FindFirstValueAt(claims: seq<Claim>, claimType: ClaimType, i: nat)
    requires i < |claims| && claims[i].claimType == claimType
    requires forall j :: 0 <= j < i ==> claims[j].claimType != claimType
    ensures FindFirstValue(claims, claimType) == Some(claims[i].value)
  {
  }
}
