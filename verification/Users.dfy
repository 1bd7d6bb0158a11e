/** The user store: a map kept in memory, written out after every change and
    rolled back when the write fails, and the events it sends. What becomes of
    each write is an input, as are random salts and secrets. */
module Users {
  import opened Basics

  type UserId = string
  type Secret = string
  type Permissions = set<string>

  /** An ideal salted hash. */
  datatype HashedPassword = Hashed(password: string, salt: nat)

  predicate Verifies(hash: HashedPassword, password: string) {
    hash.password == password
  }

  datatype User = User(
    uid: UserId,
    username: string,
    hashedPassword: HashedPassword,
    isOwner: bool,
    isAdmin: bool,
    permissions: Permissions,
    secret: Secret)

  datatype UserEventInner =
    | UserCreated
    | UserDeleted
    | UserLoggedOut
    | UsernameChanged(newUsername: string)
    | PermissionChanged(newPermissions: Permissions)

  datatype UserEvent = UserEvent(uid: UserId, inner: UserEventInner)

  datatype Failure = UsernameExists | NotFound | CredentialMismatch | WriteFailed

  /** How a write ends, or that the call that waits for it is dropped: whether
      the map went out all the same, nobody learns. */
  datatype Write = Written | Failing | Dropped(landed: bool)

  /** `Panicked` is the `unwrap` of a missing value, `Cut` a dropped call. */
  datatype Outcome = Done | Failed(failure: Failure) | Panicked | Cut

  /** What is in memory, the last map that was written out, and what was sent. */
  datatype Store = Store(users: map<UserId, User>, written: map<UserId, User>, sent: seq<UserEvent>)

  datatype Op =
    | Add(user: User, write: Write)
    | Delete(uid: UserId, write: Write)
    | Logout(uid: UserId, secret: Secret, write: Write)
    | Rename(uid: UserId, username: string, write: Write)
    | ChangePassword(uid: UserId, oldPassword: Option<string>, newHash: HashedPassword, secret: Secret,
                     write: Write, logoutWrite: Write)
    | UpdatePermissions(uid: UserId, permissions: Permissions, write: Write)

  ghost predicate NameTaken(s: Store, username: string) {
    exists uid :: uid in s.users && s.users[uid].username == username
  }

  /** Who an operation other than `Add` is about. */
  function Subject(op: Op): UserId {
    if op.Add? then op.user.uid else op.uid
  }

  ghost predicate Refuses(s: Store, op: Op) {
    match op
    case Add(user, _) => NameTaken(s, user.username)
    case Delete(_, _) => false
    case ChangePassword(uid, given, _, _, _, _) =>
      uid !in s.users || (given.Some? && !Verifies(s.users[uid].hashedPassword, given.value))
    case _ => op.uid !in s.users
  }

  /** The subject's new record, as far as the first write goes. */
  function Changed(user: User, op: Op): User {
    match op
    case Add(_, _) => op.user
    case Delete(_, _) => user
    case Logout(_, secret, _) => user.(secret := secret)
    case Rename(_, username, _) => user.(username := username)
    case ChangePassword(_, _, newHash, _, _, _) => user.(hashedPassword := newHash)
    case UpdatePermissions(_, permissions, _) => user.(permissions := permissions)
  }

  function Announced(op: Op): UserEventInner {
    match op
    case Add(_, _) => UserCreated
    case Delete(_, _) => UserDeleted
    case Logout(_, _, _) => UserLoggedOut
    case Rename(_, username, _) => UsernameChanged(username)
    case ChangePassword(_, _, _, _, _, _) => UserLoggedOut
    case UpdatePermissions(_, permissions, _) => PermissionChanged(permissions)
  }

  /** The map in memory when the operation starts to write. */
  ghost function Touched(s: Store, op: Op): map<UserId, User>
    requires !Refuses(s, op)
  {
    match op
    case Add(user, _) => s.users[user.uid := user]
    case Delete(uid, _) => s.users - {uid}
    case _ => s.users[op.uid := Changed(s.users[op.uid], op)]
  }

  /** What a change leaves behind: written and announced, rolled back, or in
      memory and not announced. */
  function Settled(s: Store, users: map<UserId, User>, events: seq<UserEvent>, restored: map<UserId, User>,
                   write: Write): Store
  {
    match write
    case Written => Store(users, users, s.sent + events)
    case Failing => s.(users := restored)
    case Dropped(landed) => Store(users, if landed then users else s.written, s.sent)
  }

  /** What each operation leaves behind. A change of password is two
      operations: the new hash, then a logout. */
  ghost function Apply(s: Store, op: Op): Store {
    var uid := Subject(op);
    var event := UserEvent(uid, Announced(op));
    if Refuses(s, op) then s
    else match op
      case Add(_, write) => Settled(s, Touched(s, op), [event], s.users - {uid}, write)
      case Delete(_, write) => Settled(s, Touched(s, op), if uid in s.users then [event] else [], s.users, write)
      case ChangePassword(_, _, _, secret, write, logoutWrite) =>
        var hashed := Settled(s, Touched(s, op), [event], s.users, write);
        if !write.Written? then hashed
        else
          var renewed := hashed.users[uid].(secret := secret);
          Settled(hashed, hashed.users[uid := renewed], [event], hashed.users, logoutWrite)
      case _ => Settled(s, Touched(s, op), [event], s.users, op.write)
  }

  /** The record of a user with some of its fields changed, and nobody else's. */
  predicate HasRecord(before: map<UserId, User>, after: map<UserId, User>, uid: UserId, user: User) {
    && after.Keys == before.Keys + {uid} && after[uid] == user
    && forall other :: other in before && other != uid ==> after[other] == before[other]
  }

  /** The operation reports success. */
  ghost predicate Succeeds(s: Store, op: Op) {
    !Refuses(s, op) && op.write.Written? && (op.ChangePassword? ==> op.logoutWrite.Written?)
  }

  /** The call is dropped at one of its writes, and reports nothing. */
  ghost predicate IsCut(s: Store, op: Op) {
    !Refuses(s, op) && (op.write.Dropped? || (op.ChangePassword? && op.write.Written? && op.logoutWrite.Dropped?))
  }

  class UsersManager {
    var users: map<UserId, User>
    var written: map<UserId, User>
    var sent: seq<UserEvent>

    constructor (loaded: map<UserId, User>)
      ensures Contents() == Store(loaded, loaded, [])
    {
      users, written, sent := loaded, loaded, [];
    }

    function Contents(): Store
      reads this
    {
      Store(users, written, sent)
    }

    method WriteToFile(write: Write)
      modifies this`written
      ensures written == if write.Written? || write == Dropped(true) then users else old(written)
    {
      if write.Written? || write == Dropped(true) {
        written := users;
      }
    }

    method Send(uid: UserId, inner: UserEventInner)
      modifies this`sent
      ensures sent == old(sent) + [UserEvent(uid, inner)]
    {
      sent := sent + [UserEvent(uid, inner)];
    }

    /** Any user of that name. */
    method GetUserByUsername(username: string) returns (found: Option<User>)
      ensures found.None? <==> !NameTaken(Contents(), username)
      ensures found.Some? ==> found.value in users.Values && found.value.username == username
    {
      var rest := users.Keys;
      while rest != {}
        invariant rest <= users.Keys
        invariant forall uid :: uid in users.Keys - rest ==> users[uid].username != username
        decreases |rest|
      {
        var uid :| uid in rest;
        if users[uid].username == username {
          return Some(users[uid]);
        }
        rest := rest - {uid};
      }
      found := None;
    }

    method AddUser(user: User, write: Write) returns (outcome: Outcome)
      modifies this
      ensures Contents() == Apply(old(Contents()), Add(user, write))
      ensures outcome.Done? <==> Succeeds(old(Contents()), Add(user, write))
      ensures outcome.Cut? <==> IsCut(old(Contents()), Add(user, write))
      ensures outcome == Failed(UsernameExists) <==> NameTaken(old(Contents()), user.username)
      ensures !NameTaken(old(Contents()), user.username) ==>
                outcome == if write.Written? then Done else if write.Failing? then Failed(WriteFailed) else Cut
    {
      var existing := GetUserByUsername(user.username);
      if existing.Some? {
        return Failed(UsernameExists);
      }
      users := users[user.uid := user];
      WriteToFile(write);
      match write {
        case Written =>
          Send(user.uid, UserCreated);
          return Done;
        case Failing =>
          assert old(users) - {user.uid} == users - {user.uid};
          users := users - {user.uid};
          return Failed(WriteFailed);
        case Dropped(_) =>
          return Cut;
      }
    }

    method DeleteUser(uid: UserId, write: Write) returns (outcome: Outcome, removed: Option<User>)
      modifies this
      ensures Contents() == Apply(old(Contents()), Delete(uid, write))
      ensures outcome.Done? <==> Succeeds(old(Contents()), Delete(uid, write))
      ensures outcome.Cut? <==> IsCut(old(Contents()), Delete(uid, write))
      ensures outcome == if write.Failing? && uid !in old(users) then Panicked
                         else if write.Written? then Done else if write.Failing? then Failed(WriteFailed) else Cut
      ensures outcome.Done? ==> removed == if uid in old(users) then Some(old(users)[uid]) else None
    {
      removed := if uid in users then Some(users[uid]) else None;
      users := users - {uid};
      WriteToFile(write);
      match write {
        case Written =>
          if removed.Some? {
            Send(uid, UserDeleted);
          }
          return Done, removed;
        case Failing =>
          if removed.None? {
            assert users == old(users);
            return Panicked, None;
          }
          users := users[uid := removed.value];
          assert users == old(users);
          return Failed(WriteFailed), None;
        case Dropped(_) =>
          return Cut, None;
      }
    }

    method LogoutUser(uid: UserId, secret: Secret, write: Write) returns (outcome: Outcome)
      modifies this
      ensures Contents() == Apply(old(Contents()), Logout(uid, secret, write))
      ensures outcome.Done? <==> Succeeds(old(Contents()), Logout(uid, secret, write))
      ensures outcome.Cut? <==> IsCut(old(Contents()), Logout(uid, secret, write))
      ensures outcome == if uid !in old(users) then Failed(NotFound)
                         else if write.Written? then Done else if write.Failing? then Failed(WriteFailed) else Cut
    {
      if uid !in users {
        return Failed(NotFound);
      }
      var oldSecret := users[uid].secret;
      users := users[uid := users[uid].(secret := secret)];
      WriteToFile(write);
      match write {
        case Written =>
          Send(uid, UserLoggedOut);
          return Done;
        case Failing =>
          users := users[uid := users[uid].(secret := oldSecret)];
          assert users == old(users);
          return Failed(WriteFailed);
        case Dropped(_) =>
          return Cut;
      }
    }

    method RenameUser(uid: UserId, username: string, write: Write) returns (outcome: Outcome)
      modifies this
      ensures Contents() == Apply(old(Contents()), Rename(uid, username, write))
      ensures outcome.Done? <==> Succeeds(old(Contents()), Rename(uid, username, write))
      ensures outcome.Cut? <==> IsCut(old(Contents()), Rename(uid, username, write))
      ensures outcome == if uid !in old(users) then Failed(NotFound)
                         else if write.Written? then Done else if write.Failing? then Failed(WriteFailed) else Cut
    {
      if uid !in users {
        return Failed(NotFound);
      }
      var oldUsername := users[uid].username;
      users := users[uid := users[uid].(username := username)];
      WriteToFile(write);
      match write {
        case Written =>
          Send(uid, UsernameChanged(username));
          return Done;
        case Failing =>
          users := users[uid := users[uid].(username := oldUsername)];
          assert users == old(users);
          return Failed(WriteFailed);
        case Dropped(_) =>
          return Cut;
      }
    }

    method ChangeUserPassword(uid: UserId, oldPassword: Option<string>, newHash: HashedPassword, secret: Secret,
                              write: Write, logoutWrite: Write)
      returns (outcome: Outcome)
      modifies this
      ensures Contents() == Apply(old(Contents()),
                                  ChangePassword(uid, oldPassword, newHash, secret, write, logoutWrite))
      ensures outcome.Done? <==>
                Succeeds(old(Contents()), ChangePassword(uid, oldPassword, newHash, secret, write, logoutWrite))
      ensures outcome.Cut? <==>
                IsCut(old(Contents()), ChangePassword(uid, oldPassword, newHash, secret, write, logoutWrite))
      ensures outcome ==
                if uid !in old(users) then Failed(NotFound)
                else if oldPassword.Some? && !Verifies(old(users)[uid].hashedPassword, oldPassword.value)
                then Failed(CredentialMismatch)
                else if write.Failing? || (write.Written? && logoutWrite.Failing?) then Failed(WriteFailed)
                else if write.Dropped? || logoutWrite.Dropped? then Cut else Done
    {
      if uid !in users {
        return Failed(NotFound);
      }
      var oldHash := users[uid].hashedPassword;
      if oldPassword.Some? && !Verifies(oldHash, oldPassword.value) {
        return Failed(CredentialMismatch);
      }
      users := users[uid := users[uid].(hashedPassword := newHash)];
      WriteToFile(write);
      match write {
        case Written =>
          Send(uid, UserLoggedOut);
          outcome := LogoutUser(uid, secret, logoutWrite);
        case Failing =>
          users := users[uid := users[uid].(hashedPassword := oldHash)];
          assert users == old(users);
          return Failed(WriteFailed);
        case Dropped(_) =>
          return Cut;
      }
    }

    method UpdateUserPermissions(uid: UserId, permissions: Permissions, write: Write) returns (outcome: Outcome)
      modifies this
      ensures Contents() == Apply(old(Contents()), UpdatePermissions(uid, permissions, write))
      ensures outcome.Done? <==> Succeeds(old(Contents()), UpdatePermissions(uid, permissions, write))
      ensures outcome.Cut? <==> IsCut(old(Contents()), UpdatePermissions(uid, permissions, write))
      ensures outcome == if uid !in old(users) then Failed(NotFound)
                         else if write.Written? then Done else if write.Failing? then Failed(WriteFailed) else Cut
    {
      if uid !in users {
        return Failed(NotFound);
      }
      var oldPermissions := users[uid].permissions;
      users := users[uid := users[uid].(permissions := permissions)];
      WriteToFile(write);
      match write {
        case Written =>
          Send(uid, PermissionChanged(permissions));
          return Done;
        case Failing =>
          users := users[uid := users[uid].(permissions := oldPermissions)];
          assert users == old(users);
          return Failed(WriteFailed);
        case Dropped(_) =>
          return Cut;
      }
    }
  }

  // ---------------------------------------------------------------------
  // Over whole runs
  // ---------------------------------------------------------------------

  ghost predicate IsRun(stores: seq<Store>, ops: seq<Op>) {
    && |stores| == |ops| + 1
    && stores[0].users == stores[0].written && stores[0].sent == []
    && forall i :: 0 <= i < |ops| ==> stores[i + 1] == Apply(stores[i], ops[i])
  }

  /** Memory is the last map that was written out. */
  predicate InSync(s: Store) {
    s.users == s.written
  }

  /** The roll-back of a failed `add_user` removes whoever had that uid before. */
  ghost predicate ClobbersOnFailure(s: Store, op: Op) {
    op.Add? && op.write.Failing? && !NameTaken(s, op.user.username) && op.user.uid in s.users
  }

  /** The call is dropped, its write with it, and the change stays in memory. */
  ghost predicate LosesWrite(s: Store, op: Op) {
    && !Refuses(s, op)
    && ((op.write == Dropped(false) && Touched(s, op) != s.users)
        || (op.ChangePassword? && op.write.Written? && op.logoutWrite == Dropped(false)
            && op.secret != s.users[op.uid].secret))
  }

  /** These two are the ways an operation parts memory from what is written. */
  lemma SyncKeptExactly(s: Store, op: Op)
    requires InSync(s)
    ensures InSync(Apply(s, op)) <==> !ClobbersOnFailure(s, op) && !LosesWrite(s, op)
  {
    if op.Add? && op.write.Failing? && !NameTaken(s, op.user.username) && op.user.uid !in s.users {
      assert s.users - {op.user.uid} == s.users;
    } else if op.ChangePassword? && !Refuses(s, op) && op.write.Written? {
      SameSecret(Touched(s, op), op.uid, op.secret);
    }
  }

  lemma SameSecret(users: map<UserId, User>, uid: UserId, secret: Secret)
    requires uid in users
    ensures users[uid := users[uid].(secret := secret)] == users <==> users[uid].secret == secret
  {
    var renewed := users[uid := users[uid].(secret := secret)];
    assert renewed[uid].secret == secret;
  }

  /** What each operation does when it succeeds: which field of whose record it
      changes, and what it sends. Memory is written out then. */
  lemma SuccessChanges(s: Store, op: Op)
    requires Succeeds(s, op)
    ensures var t := Apply(s, op);
            && t.written == t.users
            && match op
               case Add(user, _) =>
                 && HasRecord(s.users, t.users, user.uid, user)
                 && t.sent == s.sent + [UserEvent(user.uid, UserCreated)]
               case Delete(uid, _) =>
                 && t.users.Keys == s.users.Keys - {uid}
                 && (forall other :: other in t.users ==> t.users[other] == s.users[other])
                 && t.sent == s.sent + if uid in s.users then [UserEvent(uid, UserDeleted)] else []
               case Logout(uid, secret, _) =>
                 && uid in s.users && HasRecord(s.users, t.users, uid, s.users[uid].(secret := secret))
                 && t.sent == s.sent + [UserEvent(uid, UserLoggedOut)]
               case Rename(uid, username, _) =>
                 && uid in s.users && HasRecord(s.users, t.users, uid, s.users[uid].(username := username))
                 && t.sent == s.sent + [UserEvent(uid, UsernameChanged(username))]
               case ChangePassword(uid, given, newHash, secret, _, _) =>
                 && uid in s.users && (given.Some? ==> s.users[uid].hashedPassword.password == given.value)
                 && HasRecord(s.users, t.users, uid, s.users[uid].(hashedPassword := newHash, secret := secret))
                 && t.sent == s.sent + [UserEvent(uid, UserLoggedOut), UserEvent(uid, UserLoggedOut)]
               case UpdatePermissions(uid, permissions, _) =>
                 && uid in s.users && HasRecord(s.users, t.users, uid, s.users[uid].(permissions := permissions))
                 && t.sent == s.sent + [UserEvent(uid, PermissionChanged(permissions))]
  {
    if op.ChangePassword? {
      var out := UserEvent(op.uid, UserLoggedOut);
      assert s.sent + [out] + [out] == s.sent + [out, out];
    }
  }

  /** A call dropped at its first write leaves its change in memory, and has sent
      nothing. */
  lemma DropChanges(s: Store, op: Op)
    requires !Refuses(s, op) && op.write.Dropped?
    ensures var t := Apply(s, op);
            && t.sent == s.sent && t.written == (if op.write.landed then t.users else s.written)
            && match op
               case Add(user, _) => HasRecord(s.users, t.users, user.uid, user)
               case Delete(uid, _) =>
                 && t.users.Keys == s.users.Keys - {uid}
                 && forall other :: other in t.users ==> t.users[other] == s.users[other]
               case Logout(uid, secret, _) => HasRecord(s.users, t.users, uid, s.users[uid].(secret := secret))
               case Rename(uid, username, _) => HasRecord(s.users, t.users, uid, s.users[uid].(username := username))
               case ChangePassword(uid, _, newHash, _, _, _) =>
                 HasRecord(s.users, t.users, uid, s.users[uid].(hashedPassword := newHash))
               case UpdatePermissions(uid, permissions, _) =>
                 HasRecord(s.users, t.users, uid, s.users[uid].(permissions := permissions))
  {
  }

  /** A change of password whose second write, that of the logout, fails. */
  ghost predicate HalfChanges(s: Store, op: Op) {
    op.ChangePassword? && !Refuses(s, op) && op.write.Written? && op.logoutWrite.Failing?
  }

  /** An operation that reports a failure leaves everything as it was, exactly
      but for that add and this change. */
  lemma FailureLeavesNoTrace(s: Store, op: Op)
    requires !Succeeds(s, op) && !IsCut(s, op)
    ensures Apply(s, op) == s <==> !ClobbersOnFailure(s, op) && !HalfChanges(s, op)
  {
    if op.Add? && !NameTaken(s, op.user.username) {
      assert op.user.uid !in s.users ==> s.users - {op.user.uid} == s.users;
    } else if HalfChanges(s, op) {
      assert |Apply(s, op).sent| == |s.sent| + 1;
    }
  }

  function Named(uid: UserId, username: string): User {
    User(uid, username, Hashed("", 0), false, false, {}, "")
  }

  /** A second user is added under the first one's uid, and the write fails:
      neither is left. */
  lemma ClobberedAtAnExample(uid: UserId)
    ensures var s := Store(map[uid := Named(uid, "first")], map[uid := Named(uid, "first")], []);
            && InSync(s) && ClobbersOnFailure(s, Add(Named(uid, "second"), Failing))
            && Apply(s, Add(Named(uid, "second"), Failing)) == s.(users := map[])
  {
    var s := Store(map[uid := Named(uid, "first")], map[uid := Named(uid, "first")], []);
    assert !NameTaken(s, "second");
    assert s.users - {uid} == map[];
  }

  /** The new password is written and the logout is not: a failure is reported,
      and the new password is in force. */
  lemma HalfChangedAtAnExample(uid: UserId)
    ensures var s := Store(map[uid := Named(uid, "first")], map[uid := Named(uid, "first")], []);
            var op := ChangePassword(uid, None, Hashed("new", 1), "", Written, Failing);
            && !Succeeds(s, op) && Apply(s, op).users[uid].hashedPassword == Hashed("new", 1)
            && s.users[uid].hashedPassword == Hashed("", 0)
  {
  }

  /** A rename dropped while it writes: the new name is in memory, neither on
      disk nor announced. */
  lemma CutShortAtAnExample(uid: UserId)
    ensures var s := Store(map[uid := Named(uid, "first")], map[uid := Named(uid, "first")], []);
            var op := Rename(uid, "second", Dropped(false));
            && InSync(s) && LosesWrite(s, op)
            && Apply(s, op) == s.(users := map[uid := Named(uid, "second")])
  {
    var s := Store(map[uid := Named(uid, "first")], map[uid := Named(uid, "first")], []);
    assert Touched(s, Rename(uid, "second", Dropped(false)))[uid].username == "second";
  }

  /** The keys a reader of the events would expect. */
  function Replay(keys: set<UserId>, events: seq<UserEvent>): set<UserId> {
    if events == [] then keys else
      var before := Replay(keys, events[..|events| - 1]);
      var e := events[|events| - 1];
      match e.inner
      case UserCreated => before + {e.uid}
      case UserDeleted => before - {e.uid}
      case _ => before
  }

  lemma ReplayOne(keys: set<UserId>, events: seq<UserEvent>, e: UserEvent)
    ensures Replay(keys, events + [e]) ==
              match e.inner
              case UserCreated => Replay(keys, events) + {e.uid}
              case UserDeleted => Replay(keys, events) - {e.uid}
              case _ => Replay(keys, events)
  {
    assert (events + [e])[..|events|] == events;
  }

  lemma ReplayWritten(s: Store, users: map<UserId, User>, event: UserEvent, keys: set<UserId>)
    requires Replay(keys, s.sent) == s.users.Keys
    requires users.Keys == (match event.inner
                            case UserCreated => s.users.Keys + {event.uid}
                            case UserDeleted => s.users.Keys - {event.uid}
                            case _ => s.users.Keys)
    ensures Replay(keys, Settled(s, users, [event], s.users, Written).sent) == users.Keys
  {
    ReplayOne(keys, s.sent, event);
  }

  /** A creation or deletion dropped while it writes: nobody is told. */
  ghost predicate LosesEvent(s: Store, op: Op) {
    && !Refuses(s, op) && op.write.Dropped?
    && ((op.Add? && op.user.uid !in s.users) || (op.Delete? && op.uid in s.users))
  }

  /** The keys of the map when an operation starts to write. */
  lemma TouchedKeys(s: Store, op: Op)
    requires !Refuses(s, op)
    ensures Touched(s, op).Keys == if op.Add? then s.users.Keys + {op.user.uid}
                                   else if op.Delete? then s.users.Keys - {op.uid} else s.users.Keys
  {
    if !op.Add? && !op.Delete? {
      assert s.users[op.uid := Changed(s.users[op.uid], op)].Keys == s.users.Keys + {op.uid};
    }
  }

  lemma SecretIsAnnounced(s: Store, uid: UserId, secret: Secret, keys: set<UserId>)
    requires Replay(keys, s.sent) == s.users.Keys && uid in s.users
    ensures var renewed := s.users[uid := s.users[uid].(secret := secret)];
            && renewed.Keys == s.users.Keys
            && Replay(keys, s.sent + [UserEvent(uid, UserLoggedOut)]) == renewed.Keys
  {
    hide Replay;
    ReplayOne(keys, s.sent, UserEvent(uid, UserLoggedOut));
  }

  /** Only such an operation and the failing add part the keys in memory from
      those the events tell. */
  lemma EventsKeptExactly(s: Store, op: Op, keys: set<UserId>)
    requires Replay(keys, s.sent) == s.users.Keys
    ensures Replay(keys, Apply(s, op).sent) == Apply(s, op).users.Keys
            <==> !ClobbersOnFailure(s, op) && !LosesEvent(s, op)
  {
    hide Replay, Touched;
    if !Refuses(s, op) {
      TouchedKeys(s, op);
      var uid := Subject(op);
      var event := UserEvent(uid, Announced(op));
      if op.Add? && op.write.Failing? {
        assert (s.users - {uid}).Keys == s.users.Keys - {uid};
      } else if op.Delete? && uid !in s.users {
        assert s.sent + [] == s.sent;
      } else if op.write.Written? {
        ReplayWritten(s, Touched(s, op), event, keys);
        if op.ChangePassword? {
          SecretIsAnnounced(Settled(s, Touched(s, op), [event], s.users, Written), uid, op.secret, keys);
        }
      }
    }
  }

  /** Whatever operations are made, whichever writes fail and whichever calls are
      dropped, memory is always the last map that was written out, and replaying
      the creations and deletions over the loaded keys gives exactly the keys in
      memory, as long as no operation is one of the three above. */
  lemma {:induction false} StoreIsConsistent(stores: seq<Store>, ops: seq<Op>, i: nat)
    requires IsRun(stores, ops) && i < |stores|
    requires forall k :: 0 <= k < i ==>
               && !ClobbersOnFailure(stores[k], ops[k])
               && !LosesWrite(stores[k], ops[k]) && !LosesEvent(stores[k], ops[k])
    ensures InSync(stores[i])
    ensures Replay(stores[0].users.Keys, stores[i].sent) == stores[i].users.Keys
  {
    hide Apply, ClobbersOnFailure, LosesWrite, LosesEvent;
    if i > 0 {
      StoreIsConsistent(stores, ops, i - 1);
      SyncKeptExactly(stores[i - 1], ops[i - 1]);
      EventsKeptExactly(stores[i - 1], ops[i - 1], stores[0].users.Keys);
    }
  }

  // ---------------------------------------------------------------------
  // User names
  // ---------------------------------------------------------------------

  ghost predicate NamesDistinct(s: Store) {
    forall a, b :: a in s.users && b in s.users && s.users[a].username == s.users[b].username ==> a == b
  }

  /** A rename takes effect and the name is someone else's. */
  ghost predicate RenamesOnto(s: Store, op: Op) {
    op.Rename? && !op.write.Failing? && op.uid in s.users
    && exists other :: other in s.users && other != op.uid && s.users[other].username == op.username
  }

  /** The operation gives its subject a name. */
  ghost predicate GivesName(s: Store, op: Op) {
    (op.Add? || op.Rename?) && !Refuses(s, op) && !op.write.Failing?
  }

  lemma NameAfter(s: Store, op: Op, uid: UserId)
    requires uid in Apply(s, op).users
    ensures if GivesName(s, op) && Subject(op) == uid then
              Apply(s, op).users[uid].username == if op.Add? then op.user.username else op.username
            else
              uid in s.users && Apply(s, op).users[uid].username == s.users[uid].username
  {
  }

  /** Adding checks that the name is free; renaming does not. */
  lemma NamesKeptExactly(s: Store, op: Op)
    requires NamesDistinct(s)
    ensures NamesDistinct(Apply(s, op)) <==> !RenamesOnto(s, op)
  {
    var s' := Apply(s, op);
    if RenamesOnto(s, op) {
      var other :| other in s.users && other != op.uid && s.users[other].username == op.username;
      assert s'.users[other].username == s'.users[op.uid].username;
    } else {
      hide Apply;
      forall a, b | a in s'.users && b in s'.users && s'.users[a].username == s'.users[b].username
        ensures a == b
      {
        NameAfter(s, op, a);
        NameAfter(s, op, b);
      }
    }
  }

  /** One of two users is given the other's name. */
  lemma SameNameAtAnExample(a: UserId, b: UserId)
    requires a != b
    ensures var users := map[a := Named(a, "first"), b := Named(b, "second")];
            var s := Store(users, users, []);
            && NamesDistinct(s) && Succeeds(s, Rename(b, "first", Written))
            && Apply(s, Rename(b, "first", Written)).users[a].username == "first"
            && Apply(s, Rename(b, "first", Written)).users[b].username == "first"
  {
  }
}
