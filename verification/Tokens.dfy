/** Login tokens, signed with a secret of the user they are for. Signatures are
    ideal: a token verifies under the secret it was signed with and no other. */
module Tokens {
  import opened Basics
  import opened Users

  datatype Token =
    | Malformed
    | Signed(uid: UserId, exp: int, key: Secret)

  const LIFETIME := 60 * 24 * 60 * 60
  const LEEWAY := 60

  predicate Expired(exp: int, now: int) {
    exp < now - LEEWAY
  }

  /** `User::create_jwt`. */
  function CreateJwt(user: User, now: int): Token {
    Signed(user.uid, now + LIFETIME, user.secret)
  }

  function DecodeNoVerify(token: Token, now: int): Option<UserId> {
    if token.Malformed? || Expired(token.exp, now) then None else Some(token.uid)
  }

  function DecodeToken(token: Token, secret: Secret, now: int): Option<UserId> {
    if token.Malformed? || Expired(token.exp, now) || token.key != secret then None else Some(token.uid)
  }

  /** `UsersManager::try_auth`; it reads the clock twice. Only a token signed
      with the current secret of the user it names gets through. */
  function TryAuth(users: map<UserId, User>, token: Token, now: int, then_: int): (user: Option<User>)
    ensures user.Some? <==>
              token.Signed? && token.uid in users && token.key == users[token.uid].secret
              && !Expired(token.exp, now) && !Expired(token.exp, then_)
    ensures user.Some? ==> user.value == users[token.uid]
  {
    var claimed := DecodeNoVerify(token, now);
    if claimed.None? || claimed.value !in users then None
    else
      var user := users[claimed.value];
      var verified := DecodeToken(token, user.secret, then_);
      if verified != claimed then None else Some(user)
  }

  /** What `login` may answer: it finds some user of that name, if there is one,
      and gives a token if the password verifies. */
  ghost predicate LoginAnswers(s: Store, username: string, password: string, now: int, token: Option<Token>) {
    if NameTaken(s, username) then
      exists uid :: uid in s.users && s.users[uid].username == username
        && token == if Verifies(s.users[uid].hashedPassword, password) then Some(CreateJwt(s.users[uid], now)) else None
    else token == None
  }

  /** `UsersManager::login`. */
  method Login(manager: UsersManager, username: string, password: string, now: int) returns (token: Option<Token>)
    ensures LoginAnswers(manager.Contents(), username, password, now, token)
    ensures token.Some? ==>
              exists user :: user in manager.users.Values && user.username == username
                && user.hashedPassword.password == password
                && token.value == Signed(user.uid, now + 5_184_000, user.secret)
  {
    var found := manager.GetUserByUsername(username);
    if found.None? || !Verifies(found.value.hashedPassword, password) {
      return None;
    }
    return Some(CreateJwt(found.value, now));
  }

  /** The operation takes effect in memory as a logout of this user: its write
      does not fail, though it may be dropped. */
  ghost predicate LogsOut(s: Store, op: Op, uid: UserId) {
    !Refuses(s, op) && Subject(op) == uid
    && ((op.Logout? && !op.write.Failing?)
        || (op.ChangePassword? && op.write.Written? && !op.logoutWrite.Failing?))
  }

  /** Users are stored under their own uid, as `add_user` stores them. */
  ghost predicate KeyedByUid(users: map<UserId, User>) {
    forall uid :: uid in users ==> users[uid].uid == uid
  }

  /** Random uids and secrets do not recur: a user is added under a uid no user
      had before, and a new secret is none the user had before. */
  ghost predicate Fresh(stores: seq<Store>, ops: seq<Op>)
    requires |stores| == |ops| + 1
  {
    && KeyedByUid(stores[0].users)
    && (forall k, i :: 0 <= i <= k < |ops| && ops[k].Add? ==> ops[k].user.uid !in stores[i].users)
    && (forall k, i :: 0 <= i <= k < |ops| && (ops[k].Logout? || ops[k].ChangePassword?)
                       && ops[k].uid in stores[i].users
          ==> stores[i].users[ops[k].uid].secret != ops[k].secret)
  }

  lemma StepKeepsKeys(s: Store, op: Op)
    requires KeyedByUid(s.users)
    ensures KeyedByUid(Apply(s, op).users)
  {
  }

  lemma {:induction false} KeysHold(stores: seq<Store>, ops: seq<Op>, i: nat)
    requires IsRun(stores, ops) && Fresh(stores, ops) && i < |stores|
    ensures KeyedByUid(stores[i].users)
  {
    if i > 0 {
      KeysHold(stores, ops, i - 1);
      StepKeepsKeys(stores[i - 1], ops[i - 1]);
    }
  }

  /** What one operation does to the secret of a user who is still there. */
  lemma SecretAfter(s: Store, op: Op, uid: UserId)
    requires uid in Apply(s, op).users && (op.Add? ==> op.user.uid !in s.users && op.user.uid != uid)
    ensures uid in s.users
    ensures Apply(s, op).users[uid].secret == if LogsOut(s, op, uid) then op.secret else s.users[uid].secret
  {
  }

  /** A user's secret is unchanged exactly as long as nothing logged them out. */
  lemma {:induction false} SecretTellsLogouts(stores: seq<Store>, ops: seq<Op>, i: nat, j: nat, uid: UserId)
    requires IsRun(stores, ops) && Fresh(stores, ops) && i <= j < |stores|
    requires uid in stores[i].users && uid in stores[j].users
    ensures stores[j].users[uid].secret == stores[i].users[uid].secret <==>
              forall k :: i <= k < j ==> !LogsOut(stores[k], ops[k], uid)
  {
    hide Apply;
    if i < j {
      var op := ops[j - 1];
      assert op.Add? ==> op.user.uid !in stores[i].users && op.user.uid !in stores[j - 1].users;
      SecretAfter(stores[j - 1], op, uid);
      SecretTellsLogouts(stores, ops, i, j - 1, uid);
      if LogsOut(stores[j - 1], op, uid) {
        assert stores[i].users[op.uid].secret != op.secret;
      }
    }
  }

  /** Over any run, a token made for a user authenticates later exactly when it
      is not older than 60 days and a minute, the user still exists, and no logout of that user took
      effect in between; and then it authenticates as that user. */
  lemma TokenAuthenticatesExactly(stores: seq<Store>, ops: seq<Op>, i: nat, j: nat, uid: UserId,
                                  issued: int, now: int, then_: int)
    requires IsRun(stores, ops) && Fresh(stores, ops) && i <= j < |stores|
    requires uid in stores[i].users && now <= then_
    ensures var token := CreateJwt(stores[i].users[uid], issued);
            var user := TryAuth(stores[j].users, token, now, then_);
            && (user.Some? <==>
                  && then_ - issued <= 5_184_060     // 60 days and a minute
                  && uid in stores[j].users
                  && forall k :: i <= k < j ==> !LogsOut(stores[k], ops[k], uid))
            && (user.Some? ==> user.value == stores[j].users[uid])
  {
    hide Apply;
    KeysHold(stores, ops, i);
    if uid in stores[j].users {
      SecretTellsLogouts(stores, ops, i, j, uid);
    }
  }

  // ---------------------------------------------------------------------
  // Changing the password
  // ---------------------------------------------------------------------

  /** The new password takes effect. */
  ghost predicate ChangesPassword(s: Store, op: Op, uid: UserId) {
    op.ChangePassword? && op.uid == uid && !Refuses(s, op) && !op.write.Failing?
  }

  lemma HashAfter(s: Store, op: Op, uid: UserId)
    requires uid in Apply(s, op).users && (op.Add? ==> op.user.uid != uid)
    ensures uid in s.users
    ensures Apply(s, op).users[uid].hashedPassword
         == if ChangesPassword(s, op, uid) then op.newHash else s.users[uid].hashedPassword
  {
  }

  /** From a change of password to the next, the new hash is in force. */
  lemma {:induction false} HashSince(stores: seq<Store>, ops: seq<Op>, i: nat, j: nat, uid: UserId)
    requires IsRun(stores, ops) && Fresh(stores, ops) && i < j < |stores|
    requires ChangesPassword(stores[i], ops[i], uid)
    requires forall k :: i < k < j ==> !ChangesPassword(stores[k], ops[k], uid)
    requires uid in stores[j].users
    ensures stores[j].users[uid].hashedPassword == ops[i].newHash
  {
    hide Apply;
    var op := ops[j - 1];
    assert uid in stores[i].users;
    assert op.Add? ==> op.user.uid !in stores[i].users;
    HashAfter(stores[j - 1], op, uid);
    if i < j - 1 {
      HashSince(stores, ops, i, j - 1, uid);
    }
  }

  /** From a change of password to the next, and as long as names are distinct,
      exactly the new password logs its user in. */
  lemma OnlyTheNewPassword(stores: seq<Store>, ops: seq<Op>, i: nat, j: nat, uid: UserId,
                           password: string, now: int, token: Option<Token>)
    requires IsRun(stores, ops) && Fresh(stores, ops) && i < j < |stores|
    requires ChangesPassword(stores[i], ops[i], uid)
    requires forall k :: i < k < j ==> !ChangesPassword(stores[k], ops[k], uid)
    requires uid in stores[j].users && NamesDistinct(stores[j])
    requires LoginAnswers(stores[j], stores[j].users[uid].username, password, now, token)
    ensures token == if password == ops[i].newHash.password then Some(CreateJwt(stores[j].users[uid], now)) else None
  {
    hide Apply, IsRun, Fresh;
    HashSince(stores, ops, i, j, uid);
  }

  /** A token that authenticates when the password is changed still does
      afterwards exactly if the logout that belongs to it fails to be written, or
      is not reached. */
  lemma TokensAfterTheChange(stores: seq<Store>, ops: seq<Op>, h: nat, i: nat, uid: UserId,
                             issued: int, now: int, then_: int)
    requires IsRun(stores, ops) && Fresh(stores, ops) && h <= i < |ops|
    requires uid in stores[h].users && now <= then_
    requires ChangesPassword(stores[i], ops[i], uid)
    requires TryAuth(stores[i].users, CreateJwt(stores[h].users[uid], issued), now, then_).Some?
    ensures TryAuth(stores[i + 1].users, CreateJwt(stores[h].users[uid], issued), now, then_).Some?
            <==> ops[i].write.Dropped? || ops[i].logoutWrite.Failing?
  {
    TokenAuthenticatesExactly(stores, ops, h, i, uid, issued, now, then_);
    TokenAuthenticatesExactly(stores, ops, h, i + 1, uid, issued, now, then_);
    StaysThere(stores[i], ops[i], uid);
    hide Apply, TryAuth, CreateJwt;
    assert stores[i + 1] == Apply(stores[i], ops[i]);
  }

  lemma StaysThere(s: Store, op: Op, uid: UserId)
    requires ChangesPassword(s, op, uid)
    ensures uid in Apply(s, op).users
  {
  }
}
