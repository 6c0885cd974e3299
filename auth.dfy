/** AuthService: the user table and the lifecycle of each user's hashed
    refresh token. Hashing (`hashValue`) is an uninterpreted function, and
    `compareValue(v, h)` holds exactly when `h == hash(v)`. Token signing
    reads the clock and a secret, so each issued token pair is a parameter.
    The store generates user ids; here they come from a counter. */
module Auth {
  import opened Common
  import opened Sequences

  type UserId = nat

  datatype User = User(id: UserId, email: string, password: string, refreshToken: Option<string>)

  /** `{ access_token, refresh_token }`. */
  datatype Tokens = Tokens(accessToken: string, refreshToken: string)

  /** `{ message: SUCCESS_MESSAGES.LOGOUT_SUCCESS }`. */
  datatype LogoutReply = LogoutSuccess

  function HasUserId(id: UserId): User -> bool { (u: User) => u.id == id }

  function HasEmail(email: string): User -> bool { (u: User) => u.email == email }

  /** `compareValue(value, hashed)`. */
  predicate Matches(hash: string -> string, value: string, hashed: string) {
    hashed == hash(value)
  }

  /** The unique columns hold, and every id was handed out by the counter. */
  predicate WellFormed(users: seq<User>, nextId: nat) {
    && UniqueKeys(users, (u: User) => u.id)
    && UniqueKeys(users, (u: User) => u.email)
    && forall i :: 0 <= i < |users| ==> users[i].id < nextId
  }

  /** `user.update({ where: { id }, data: { refresh_token } })` on a table
      that holds the id. */
  function WithRefreshToken(users: seq<User>, id: UserId, token: Option<string>): (r: seq<User>)
    ensures |r| == |users|
    ensures forall i :: 0 <= i < |users| ==>
              r[i] == if users[i].id == id then users[i].(refreshToken := token) else users[i]
  {
    seq(|users|, i requires 0 <= i < |users| =>
      if users[i].id == id then users[i].(refreshToken := token) else users[i])
  }

  /** Changing a refresh token keeps ids, emails and passwords, so the table
      stays well formed and every lookup finds the same row. */
  lemma WithRefreshTokenKeepsRows(users: seq<User>, nextId: nat, id: UserId, token: Option<string>)
    requires WellFormed(users, nextId)
    ensures WellFormed(WithRefreshToken(users, id, token), nextId)
    ensures forall x :: IndexWhere(WithRefreshToken(users, id, token), HasUserId(x)) == IndexWhere(users, HasUserId(x))
    ensures forall e :: IndexWhere(WithRefreshToken(users, id, token), HasEmail(e)) == IndexWhere(users, HasEmail(e))
  {
    var r := WithRefreshToken(users, id, token);
    forall x ensures IndexWhere(r, HasUserId(x)) == IndexWhere(users, HasUserId(x)) {
      IndexWhereSamePattern(r, users, HasUserId(x), HasUserId(x));
    }
    forall e ensures IndexWhere(r, HasEmail(e)) == IndexWhere(users, HasEmail(e)) {
      IndexWhereSamePattern(r, users, HasEmail(e), HasEmail(e));
    }
  }

  /** A new user under a fresh id and an unused email keeps the table well
      formed, and a later token update touches only that new row. */
  lemma AppendUser(users: seq<User>, nextId: nat, email: string, password: string)
    requires WellFormed(users, nextId)
    requires IndexWhere(users, HasEmail(email)).None?
    ensures var user := User(nextId, email, password, None);
            && WellFormed(users + [user], nextId + 1)
            && IndexWhere(users + [user], HasUserId(nextId)).Some?
            && forall t :: WithRefreshToken(users + [user], nextId, t) == users + [user.(refreshToken := t)]
  {
    var user := User(nextId, email, password, None);
    var r := users + [user];
    assert forall i :: 0 <= i < |users| ==> r[i] == users[i] && !HasEmail(email)(users[i]);
    assert HasUserId(nextId)(r[|users|]);
    forall t ensures WithRefreshToken(r, nextId, t) == users + [user.(refreshToken := t)] {
      var w := WithRefreshToken(r, nextId, t);
      assert forall i :: 0 <= i < |users| ==> w[i] == users[i];
    }
  }

  /** `!user.refresh_token`: null and the empty string both count as no
      token. */
  predicate HoldsToken(u: User) {
    u.refreshToken.Some? && u.refreshToken.value != ""
  }

  /** Whether refreshTokens would accept `token` for `userId`: the user
      exists, holds a (non-empty) refresh token, and the token matches it. */
  predicate RefreshAccepted(users: seq<User>, hash: string -> string, userId: UserId, token: string) {
    match IndexWhere(users, HasUserId(userId))
    case None => false
    case Some(i) => HoldsToken(users[i]) && Matches(hash, token, users[i].refreshToken.value)
  }

  /** After logout no token refreshes that user's session. */
  lemma LogoutBlocksRefresh(users: seq<User>, hash: string -> string, userId: UserId, token: string)
    ensures !RefreshAccepted(WithRefreshToken(users, userId, None), hash, userId, token)
  {
    var r := WithRefreshToken(users, userId, None);
    IndexWhereSamePattern(r, users, HasUserId(userId), HasUserId(userId));
  }

  /** A user whose stored refresh token is the empty string is refused
      whatever token is presented, as `!user.refresh_token` holds for it. */
  lemma EmptyStoredTokenRefused(users: seq<User>, hash: string -> string, userId: UserId, token: string)
    requires forall u :: u in users && u.id == userId ==> u.refreshToken == Some("")
    ensures !RefreshAccepted(users, hash, userId, token)
  {
    match IndexWhere(users, HasUserId(userId))
    case None =>
    case Some(i) => assert users[i] in users;
  }

  /** After a rotation the newly issued refresh token is accepted (unless
      its hash is the empty string, which counts as no token) and a previous
      one whose hash differs is refused. */
  lemma RotationReplacesToken(users: seq<User>, hash: string -> string, userId: UserId, issued: string, previous: string)
    requires exists u :: u in users && u.id == userId
    ensures RefreshAccepted(WithRefreshToken(users, userId, Some(hash(issued))), hash, userId, issued)
        <==> hash(issued) != ""
    ensures hash(previous) != hash(issued) ==>
              !RefreshAccepted(WithRefreshToken(users, userId, Some(hash(issued))), hash, userId, previous)
  {
    var r := WithRefreshToken(users, userId, Some(hash(issued)));
    IndexWhereSamePattern(r, users, HasUserId(userId), HasUserId(userId));
    var u :| u in users && u.id == userId;
    var k :| 0 <= k < |users| && users[k] == u;
    assert HasUserId(userId)(users[k]);
  }

  /** Rotating or clearing one user's token leaves every other user's
      refresh verdicts as they were. */
  lemma OtherSessionsUntouched(users: seq<User>, hash: string -> string, userId: UserId, token: Option<string>,
                               other: UserId, otherToken: string)
    requires other != userId
    ensures RefreshAccepted(WithRefreshToken(users, userId, token), hash, other, otherToken)
         == RefreshAccepted(users, hash, other, otherToken)
  {
    var r := WithRefreshToken(users, userId, token);
    IndexWhereSamePattern(r, users, HasUserId(other), HasUserId(other));
  }

  class AuthService {
    const hash: string -> string
    var users: seq<User>
    var nextId: nat

    ghost predicate Valid()
      reads this
    {
      WellFormed(users, nextId)
    }

    constructor (hash: string -> string)
      ensures Valid() && this.hash == hash && users == [] && nextId == 0
    {
      this.hash := hash;
      users := [];
      nextId := 0;
    }

    /** Stores the hash of `refreshToken` on the user's row; updating a
        missing row makes the store throw and nothing changes. */
    method UpdateRefreshToken(userId: UserId, refreshToken: string) returns (r: Result<()>)
      requires Valid()
      modifies this
      ensures Valid() && nextId == old(nextId)
      ensures IndexWhere(old(users), HasUserId(userId)).None? ==>
                r == Err(Thrown(RecordNotFound)) && users == old(users)
      ensures IndexWhere(old(users), HasUserId(userId)).Some? ==>
                r == Ok(()) && users == WithRefreshToken(old(users), userId, Some(hash(refreshToken)))
    {
      if IndexWhere(users, HasUserId(userId)).None? {
        return Err(Thrown(RecordNotFound));
      }
      WithRefreshTokenKeepsRows(users, nextId, userId, Some(hash(refreshToken)));
      users := WithRefreshToken(users, userId, Some(hash(refreshToken)));
      r := Ok(());
    }

    /** A taken email is Forbidden and creates nothing. Otherwise exactly one
        user is added, with the hashed password, and it ends up holding the
        hash of the issued refresh token; the issued pair is returned. */
    method SignUp(email: string, password: string, issued: Tokens) returns (r: Result<Tokens>)
      requires Valid()
      modifies this
      ensures Valid()
      ensures IndexWhere(old(users), HasEmail(email)).Some? ==>
                r == Err(Forbidden(UserAlreadyExists)) && users == old(users) && nextId == old(nextId)
      ensures IndexWhere(old(users), HasEmail(email)).None? ==>
                && r == Ok(issued)
                && users == old(users) + [User(old(nextId), email, hash(password), Some(hash(issued.refreshToken)))]
                && nextId == old(nextId) + 1
    {
      if IndexWhere(users, HasEmail(email)).Some? {
        return Err(Forbidden(UserAlreadyExists));
      }
      var hashed := hash(password);
      var user := User(nextId, email, hashed, None);
      AppendUser(users, nextId, email, hashed);
      users := users + [user];
      nextId := nextId + 1;
      var updated := UpdateRefreshToken(user.id, issued.refreshToken);
      r := Ok(issued);
    }

    /** An unknown email is NotFound, a password that does not match the
        stored hash is Forbidden; neither changes anything. Otherwise the
        user's refresh token is rotated to the issued one. */
    method SignIn(email: string, password: string, issued: Tokens) returns (r: Result<Tokens>)
      requires Valid()
      modifies this
      ensures Valid() && nextId == old(nextId)
      ensures IndexWhere(old(users), HasEmail(email)).None? ==>
                r == Err(NotFound(UserNotFound)) && users == old(users)
      ensures IndexWhere(old(users), HasEmail(email)).Some? ==>
                var user := old(users)[IndexWhere(old(users), HasEmail(email)).value];
                if !Matches(hash, password, user.password) then
                  r == Err(Forbidden(InvalidPassword)) && users == old(users)
                else
                  r == Ok(issued) && users == WithRefreshToken(old(users), user.id, Some(hash(issued.refreshToken)))
    {
      var found := IndexWhere(users, HasEmail(email));
      if found.None? {
        return Err(NotFound(UserNotFound));
      }
      var user := users[found.value];
      if !Matches(hash, password, user.password) {
        return Err(Forbidden(InvalidPassword));
      }
      assert HasUserId(user.id)(users[found.value]);
      var updated := UpdateRefreshToken(user.id, issued.refreshToken);
      r := Ok(issued);
    }

    /** Clears the user's refresh token and changes nothing else; updating a
        missing row makes the store throw. */
    method Logout(userId: UserId) returns (r: Result<LogoutReply>)
      requires Valid()
      modifies this
      ensures Valid() && nextId == old(nextId)
      ensures IndexWhere(old(users), HasUserId(userId)).None? ==>
                r == Err(Thrown(RecordNotFound)) && users == old(users)
      ensures IndexWhere(old(users), HasUserId(userId)).Some? ==>
                r == Ok(LogoutSuccess) && users == WithRefreshToken(old(users), userId, None)
    {
      if IndexWhere(users, HasUserId(userId)).None? {
        return Err(Thrown(RecordNotFound));
      }
      WithRefreshTokenKeepsRows(users, nextId, userId, None);
      users := WithRefreshToken(users, userId, None);
      r := Ok(LogoutSuccess);
    }

    /** The user with that id, or NotFound. */
    function GetMe(userId: UserId): (r: Result<User>)
      reads this
      ensures r.Err? <==> forall u :: u in users ==> u.id != userId
      ensures r.Err? ==> r == Err(NotFound(UserNotFound))
      ensures r.Ok? ==> r.value in users && r.value.id == userId
    {
      match IndexWhere(users, HasUserId(userId))
      case None => Err(NotFound(UserNotFound))
      case Some(i) => Ok(users[i])
    }

    /** Access is denied, and nothing changes, unless the user exists, holds
        a non-empty refresh token, and the presented token matches it; then
        the token is rotated to the issued one. */
    method RefreshTokens(userId: UserId, refreshToken: string, issued: Tokens) returns (r: Result<Tokens>)
      requires Valid()
      modifies this
      ensures Valid() && nextId == old(nextId)
      ensures !RefreshAccepted(old(users), hash, userId, refreshToken) ==>
                r == Err(Forbidden(AccessDenied)) && users == old(users)
      ensures RefreshAccepted(old(users), hash, userId, refreshToken) ==>
                r == Ok(issued) && users == WithRefreshToken(old(users), userId, Some(hash(issued.refreshToken)))
    {
      var found := IndexWhere(users, HasUserId(userId));
      if found.None? || !HoldsToken(users[found.value]) {
        return Err(Forbidden(AccessDenied));
      }
      var user := users[found.value];
      if !Matches(hash, refreshToken, user.refreshToken.value) {
        return Err(Forbidden(AccessDenied));
      }
      var updated := UpdateRefreshToken(user.id, issued.refreshToken);
      r := Ok(issued);
    }
  }
}
