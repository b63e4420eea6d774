/**
 * The user registry behind sign-up and login: a table of accounts keyed by user name, the
 * check-then-insert that registers a new account with its encoded password, and the lookup
 * that hands an account to the login machinery with the single role `USER`.
 *
 * The user repository becomes the `users` map; the password encoder is a function of the
 * password and of the salt it would draw at random, the salt being passed in.
 */
module UserRegistry {
  import opened Wrappers

  /** A stored account: the user name and the encoded password, never the plain one. */
  datatype User = User(username: string, password: string)

  /** What the login machinery receives for an account: name, stored hash and roles. */
  datatype UserDetails = UserDetails(username: string, password: string, roles: seq<string>)

  /** The user repository, indexed by user name as `findByUsername` queries it. */
  type UserTable = map<string, User>

  /** The random salt the encoder draws for one encoding. */
  type Salt = seq<bv8>

  const UserRole: string := "USER"
  const UsernameTakenError: string := "Username already taken!"
  const NotFoundPrefix: string := "User not found: "
  /** The message with which the framework's user-details builder rejects an empty name. */
  const EmptyValuesError: string := "Cannot pass null or empty values to constructor"

  /** Every account is filed under its own user name, so one name has at most one account. */
  ghost predicate KeyedByUsername(t: UserTable)
  {
    forall name | name in t :: t[name].username == name
  }

  /**
   * `loadUserByUsername` on table `t`: a name without an account fails with the not-found
   * message; an account whose stored name is empty is refused by the details builder;
   * otherwise the stored name and hash come back unchanged with the role `USER`.
   */
  function Lookup(t: UserTable, username: string): (r: Result<UserDetails, string>)
    ensures r.Failure? <==> username !in t || t[username].username == []
    ensures username !in t ==> r == Failure(NotFoundPrefix + username)
    ensures username in t && t[username].username == [] ==> r == Failure(EmptyValuesError)
    ensures r.Success? ==>
              r.value.username == t[username].username && r.value.password == t[username].password
              && r.value.roles == [UserRole]
  {
    if username !in t then
      Failure(NotFoundPrefix + username)
    else
      var user := t[username];
      if user.username == [] then
        Failure(EmptyValuesError)
      else
        Success(UserDetails(user.username, user.password, [UserRole]))
  }

  /**
   * `registerUser` on table `t` with the already encoded password: a taken name fails with
   * the taken message; a free one gets exactly one new account and nothing else changes.
   */
  function Register(t: UserTable, username: string, encoded: string): (r: Result<UserTable, string>)
    ensures r.Failure? <==> username in t
    ensures r.Failure? ==> r.error == UsernameTakenError
    ensures r.Success? ==> r.value.Keys == t.Keys + {username} && |r.value| == |t| + 1
    ensures r.Success? ==> r.value[username] == User(username, encoded)
    ensures r.Success? ==> forall name | name in t :: r.value[name] == t[name]
  {
    if username in t then
      Failure(UsernameTakenError)
    else
      Success(t[username := User(username, encoded)])
  }

  /** Registration keeps every account filed under its own name. */
  lemma RegisterPreservesKeyed(t: UserTable, username: string, encoded: string)
    requires KeyedByUsername(t)
    ensures Register(t, username, encoded).Success? ==> KeyedByUsername(Register(t, username, encoded).value)
  {
  }

  /** Register, then look up: the hash stored at registration comes back, with role `USER`. */
  lemma RegisterThenLookup(t: UserTable, username: string, encoded: string)
    requires username !in t && username != []
    ensures Register(t, username, encoded).Success?
    ensures Lookup(Register(t, username, encoded).value, username)
            == Success(UserDetails(username, encoded, [UserRole]))
  {
  }

  /**
   * The empty name is accepted at registration, yet its account can never be loaded: the
   * lookup fails, and not with the not-found message.
   */
  lemma EmptyNameRegistersButCannotLoad(t: UserTable, encoded: string)
    requires [] !in t
    ensures Register(t, [], encoded).Success?
    ensures Lookup(Register(t, [], encoded).value, []) == Failure(EmptyValuesError)
  {
  }

  /** A registration does not change what a lookup of any other name gives. */
  lemma RegisterKeepsOtherLookups(t: UserTable, username: string, encoded: string, other: string)
    requires other != username
    ensures Register(t, username, encoded).Success? ==>
              Lookup(Register(t, username, encoded).value, other) == Lookup(t, other)
  {
  }

  /** Under the keying invariant a successful lookup is of the account asked for. */
  lemma LookupFindsQueriedName(t: UserTable, username: string)
    requires KeyedByUsername(t)
    ensures Lookup(t, username).Success? ==> Lookup(t, username).value.username == username
  {
  }

  /** One sign-up request as it reaches the table: a user name and its encoded password. */
  datatype Signup = Signup(username: string, encoded: string)

  /** The names that the requests ask for. */
  function Names(reqs: seq<Signup>): set<string>
  {
    if reqs == [] then {} else {reqs[0].username} + Names(reqs[1..])
  }

  /** The table after the step that serves one request; a rejected request changes nothing. */
  function AfterSignup(t: UserTable, req: Signup): UserTable
  {
    match Register(t, req.username, req.encoded)
    case Success(t') => t'
    case Failure(_) => t
  }

  /**
   * The table after serving `reqs` one after another: the names end up being those already
   * there plus those asked for, and no account that existed is overwritten.
   */
  function Replay(t: UserTable, reqs: seq<Signup>): (r: UserTable)
    ensures r.Keys == t.Keys + Names(reqs)
    ensures forall name | name in t :: r[name] == t[name]
    decreases |reqs|
  {
    if reqs == [] then t else Replay(AfterSignup(t, reqs[0]), reqs[1..])
  }

  /** Serving a series of requests keeps every account filed under its own name. */
  lemma {:induction false} ReplayPreservesKeyed(t: UserTable, reqs: seq<Signup>)
    requires KeyedByUsername(t)
    ensures KeyedByUsername(Replay(t, reqs))
    decreases |reqs|
  {
    if reqs != [] {
      RegisterPreservesKeyed(t, reqs[0].username, reqs[0].encoded);
      ReplayPreservesKeyed(AfterSignup(t, reqs[0]), reqs[1..]);
    }
  }

  /**
   * The first request for a free name wins: after the whole series, looking the name up gives
   * the hash of that first request, whatever later requests for the same name asked for.
   */
  lemma {:induction false} FirstSignupWins(t: UserTable, reqs: seq<Signup>, i: nat)
    requires i < |reqs| && reqs[i].username !in t && reqs[i].username != []
    requires forall j | 0 <= j < i :: reqs[j].username != reqs[i].username
    ensures Lookup(Replay(t, reqs), reqs[i].username)
            == Success(UserDetails(reqs[i].username, reqs[i].encoded, [UserRole]))
    decreases i
  {
    var next := AfterSignup(t, reqs[0]);
    if i == 0 {
      assert next[reqs[0].username] == User(reqs[0].username, reqs[0].encoded);
    } else {
      assert reqs[0].username != reqs[i].username;
      assert reqs[1..][i - 1] == reqs[i];
      forall j | 0 <= j < i - 1 ensures reqs[1..][j].username != reqs[i].username {
        assert reqs[1..][j] == reqs[j + 1];
      }
      FirstSignupWins(next, reqs[1..], i - 1);
    }
  }

  class CustomUserDetailsService {
    /** Every account registered so far. */
    var users: UserTable
    /** The password encoder: the hash of a password under a given salt. */
    const encode: (string, Salt) -> string

    ghost predicate Valid()
      reads this
    {
      KeyedByUsername(users)
    }

    constructor (encoder: (string, Salt) -> string)
      ensures users == map[] && encode == encoder && Valid()
    {
      users := map[];
      encode := encoder;
    }

    /** `loadUserByUsername`: the account's details, or the failure that the lookup raises. */
    method LoadUserByUsername(username: string) returns (r: Result<UserDetails, string>)
      requires Valid()
      ensures r == Lookup(users, username)
      ensures r.Success? ==> r.value.username == username
    {
      if username !in users {
        return Failure(NotFoundPrefix + username);
      }
      var user := users[username];
      if user.username == [] {
        return Failure(EmptyValuesError);
      }
      r := Success(UserDetails(user.username, user.password, [UserRole]));
    }

    /**
     * `registerUser`: fails with the taken message when the name has an account; otherwise
     * encodes the password under `salt` and saves one new account.
     */
    method RegisterUser(username: string, password: string, salt: Salt) returns (outcome: Outcome<string>)
      requires Valid()
      modifies this
      ensures Valid()
      ensures match Register(old(users), username, encode(password, salt))
              case Success(t) => outcome == Pass && users == t
              case Failure(e) => outcome == Fail(e) && users == old(users)
    {
      if username in users {
        return Fail(UsernameTakenError);
      }
      var encodedPassword := encode(password, salt);
      users := users[username := User(username, encodedPassword)];
      outcome := Pass;
    }
  }
}
