/**
 * UserRepository: the credential store and the operations over it that the
 * authentication endpoints use.
 */
module Repositories {
  import opened Options
  import opened Text
  import opened Linq
  import opened Models

  /**
   * The Authenticate filter. Only the supplied name is trimmed: the stored name
   * is lower-cased as it is. The password must be equal character for character.
   */
  predicate LoginMatches(stored: User, login: UserLogin) {
    ToLower(stored.username) == Trim(ToLower(login.username)) && stored.password == login.password
  }

  /** The key RegistrationCheck compares usernames by; emails are compared by the same normal form. */
  function NormalForm(s: string): string {
    Trim(ToLower(s))
  }

  /** The RegistrationCheck filter: the same normalised username or the same normalised email. */
  predicate RegistrationClash(stored: User, candidate: User) {
    NormalForm(stored.username) == NormalForm(candidate.username)
    || NormalForm(stored.email) == NormalForm(candidate.email)
  }

  /** The store's intended invariant: no two accounts share a normalised username or email. */
  predicate UniqueAccounts(users: seq<User>) {
    forall i, j :: 0 <= i < j < |users| ==> !RegistrationClash(users[i], users[j])
  }

  /**
   * Because only the supplied side is trimmed, a stored username with white
   * space at either end matches no login at all.
   */
  lemma MatchedUsernameIsTrimmed(stored: User, login: UserLogin)
    requires LoginMatches(stored, login)
    ensures IsTrimmed(stored.username)
  {
  }

  /**
   * A stored account whose name has no outer white space is matched by its
   * name in any letter case, padded with any white space, with its exact password.
   */
  lemma AnyCaseAnyPadding(stored: User, login: UserLogin, pre: string, core: string, post: string)
    requires IsTrimmed(stored.username)
    requires AllWhiteSpace(pre) && AllWhiteSpace(post)
    requires login.username == pre + core + post
    requires ToLower(core) == ToLower(stored.username)
    requires login.password == stored.password
    ensures LoginMatches(stored, login)
  {
    ToLowerConcat(pre + core, post);
    ToLowerConcat(pre, core);
    ToLowerKeepsTrimmed(pre);
    ToLowerKeepsTrimmed(post);
    ToLowerKeepsTrimmed(stored.username);
    TrimPadded(ToLower(pre), ToLower(core), ToLower(post));
  }

  /** In a store that keeps the invariant, at most one account matches a login. */
  lemma UniqueStoreMatchesOnce(users: seq<User>, i: nat, j: nat, login: UserLogin)
    requires UniqueAccounts(users)
    requires i < |users| && j < |users| && i != j
    requires LoginMatches(users[i], login)
    ensures !LoginMatches(users[j], login)
  {
  }

  /**
   * Check, then act: appending a candidate keeps the store's invariant exactly
   * when no stored account clashes with it.
   */
  lemma RegistrationKeepsUnique(users: seq<User>, candidate: User)
    requires UniqueAccounts(users)
    ensures UniqueAccounts(users + [candidate])
            <==> forall i :: 0 <= i < |users| ==> !RegistrationClash(users[i], candidate)
  {
    if forall i :: 0 <= i < |users| ==> !RegistrationClash(users[i], candidate) {
      AppendNonClashing(users, candidate);
    } else {
      var i :| 0 <= i < |users| && RegistrationClash(users[i], candidate);
      var s := users + [candidate];
      assert s[i] == users[i] && s[|users|] == candidate;
    }
  }

  lemma AppendNonClashing(users: seq<User>, candidate: User)
    requires UniqueAccounts(users)
    requires forall i :: 0 <= i < |users| ==> !RegistrationClash(users[i], candidate)
    ensures UniqueAccounts(users + [candidate])
  {
    var s := users + [candidate];
    forall i, j | 0 <= i < j < |s| ensures !RegistrationClash(s[i], s[j]) {
      assert s[i] == users[i];
      if j < |users| {
        assert s[j] == users[j];
      } else {
        assert s[j] == candidate;
      }
    }
  }

  class UserRepository {
    /** The Users table, in store order. */
    var users: seq<User>
    /** The configuration entries Jwt:Key, Jwt:Issuer and Jwt:Audience that Generate looks up on each call; they do not change. */
    const config: JwtConfig

    /** The store holds whatever the database already contains. */
    constructor (config: JwtConfig, stored: seq<User>)
      ensures users == stored && this.config == config
    {
      users := stored;
      this.config := config;
    }

    /** The first stored account, in store order, that matches the login; null when none does. */
    function Authenticate(login: UserLogin): (r: Option<User>)
      reads this
      ensures r.None? <==> forall i :: 0 <= i < |users| ==> !LoginMatches(users[i], login)
      ensures r.Some? ==> exists i :: 0 <= i < |users| && users[i] == r.value
                                      && LoginMatches(users[i], login)
                                      && forall j :: 0 <= j < i ==> !LoginMatches(users[j], login)
    {
      FirstOrDefault(users, (o: User) => LoginMatches(o, login))
    }

    /** True exactly when some stored account has the candidate's normalised username or email. */
    function RegistrationCheck(candidate: User): (b: bool)
      reads this
      ensures b <==> exists i :: 0 <= i < |users| && RegistrationClash(users[i], candidate)
    {
      FirstOrDefault(users, (o: User) => RegistrationClash(o, candidate)).Some?
    }

    /**
     * Adds the account at the end of the store and returns it; it does not look
     * for a clash itself. Logins that already succeeded keep finding the same account.
     */
    method Registration(user: User) returns (r: User)
      modifies this
      ensures users == old(users) + [user]
      ensures r == user
      ensures UniqueAccounts(old(users)) && !old(RegistrationCheck(user)) ==> UniqueAccounts(users)
      ensures forall login :: old(Authenticate(login)).Some? ==> Authenticate(login) == old(Authenticate(login))
    {
      ghost var before := users;
      users := users + [user];
      if UniqueAccounts(before) && !old(RegistrationCheck(user)) {
        RegistrationKeepsUnique(before, user);
      }
      forall login | old(Authenticate(login)).Some?
        ensures Authenticate(login) == old(Authenticate(login))
      {
        FirstOrDefaultAppend(before, [user], (o: User) => LoginMatches(o, login));
      }
      r := user;
    }

    /** The unsigned token Generate builds for an account at time now (seconds). */
    function IssuedToken(user: User, now: int): (t: SecurityToken)
      ensures t.issuer == config.issuer && t.audience == config.audience
      ensures |t.claims| == 3
      ensures [t.claims[0].claimType, t.claims[1].claimType, t.claims[2].claimType] == [NameIdentifier, Email, Role]
      ensures FindFirstValue(t.claims, NameIdentifier) == Some(user.username)
      ensures FindFirstValue(t.claims, Email) == Some(user.email)
      ensures FindFirstValue(t.claims, Role) == Some(user.role)
      ensures t.expires - now == TokenLifetimeMinutes * SecondsPerMinute
    {
      var claims := [Claim(NameIdentifier, user.username), Claim(Email, user.email), Claim(Role, user.role)];
      FindFirstValueAt(claims, NameIdentifier, 0);
      FindFirstValueAt(claims, Email, 1);
      FindFirstValueAt(claims, Role, 2);
      SecurityToken(config.issuer, config.audience, claims, now + TokenLifetimeMinutes * SecondsPerMinute)
    }

    /** The compact token string: the issued token signed with the configured key. */
    function Generate(user: User, now: int, sign: Signer): (token: string)
      ensures token == sign(config.key, IssuedToken(user, now))
    {
      sign(config.key, IssuedToken(user, now))
    }
  }

  /**
   * Tokens are built from the username, email and role and the issuance time
   * alone: two accounts get the same token exactly when those agree. The password
   * never enters the token.
   */
  lemma IssuedTokenDeterminesIdentity(repo: UserRepository, u: User, v: User, now: int, later: int)
    ensures repo.IssuedToken(u, now) == repo.IssuedToken(v, later)
            <==> u.username == v.username && u.email == v.email && u.role == v.role && now == later
  {
  }

  /** With the invariant, any account that matches a login is the one Authenticate returns. */
  lemma AuthenticateInUniqueStore(repo: UserRepository, i: nat, login: UserLogin)
    requires UniqueAccounts(repo.users)
    requires i < |repo.users| && LoginMatches(repo.users[i], login)
    ensures repo.Authenticate(login) == Some(repo.users[i])
  {
    forall j | 0 <= j < i ensures !LoginMatches(repo.users[j], login) {
      UniqueStoreMatchesOnce(repo.users, i, j, login);
    }
    FirstOrDefaultIsFirst(repo.users, (o: User) => LoginMatches(o, login), i);
  }

  /** A login with the stored name re-cased and padded, and the right password, finds "testuser". */
  lemma PaddedMixedCaseLogin(repo: UserRepository)
    requires repo.users == [User("testuser", "testPassword", "sample@sample.com", "testRole")]
    ensures repo.Authenticate(UserLogin("TestUser ", "testPassword")) == Some(repo.users[0])
  {
    var stored := repo.users[0];
    var login := UserLogin("TestUser ", "testPassword");
    assert login.username == "" + "TestUser" + " ";
    assert ToLower("TestUser") == ToLower(stored.username);
    AnyCaseAnyPadding(stored, login, "", "TestUser", " ");
  }

  /** Registering "alice" when "ALICE" is stored is flagged as a duplicate. */
  lemma DuplicateNameInOtherCase(repo: UserRepository, email: string)
    requires repo.users == [User("ALICE", "secret", "alice@example.com", "user")]
    ensures repo.RegistrationCheck(User("alice", "pw", email, "user"))
  {
    var candidate := User("alice", "pw", email, "user");
    AliceNormalForm();
    assert RegistrationClash(repo.users[0], candidate);
  }

  lemma AliceNormalForm()
    ensures NormalForm("ALICE") == "alice" && NormalForm("alice") == "alice"
  {
    assert Trim("alice") == "alice" by {
      assert "" + "alice" + "" == "alice";
      TrimPadded("", "alice", "");
    }
    assert ToLower("ALICE") == "alice" by {
      assert LowerChar('A') == 'a' && LowerChar('L') == 'l' && LowerChar('I') == 'i';
      assert LowerChar('C') == 'c' && LowerChar('E') == 'e';
    }
    assert ToLower("alice") == "alice";
  }
}
