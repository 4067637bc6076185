/**
 * The user service: the partial settings update and the classification of lookup
 * failures into "not found" and wrapped store errors.
 */
module UserService {
  import opened Wrappers

  /**
   * A stored user (`user.User` with the columns the user repository reads and writes).
   * `CreatedAt` comes from the clock and is not modelled.
   */
  datatype User = User(
    userId: nat,
    email: Option<string>,
    passwordHash: Option<string>,
    role: string,
    fullName: Option<string>,
    telegramUsername: Option<string>,
    telegramChatId: Option<int>,
    notificationDelay: Option<int>,
    notificationsEnabled: Option<bool>)

  /** `user.PartialUpdateUserDTO`: `None` is a nil field, "leave this field alone". */
  datatype PartialUpdateUserDTO = PartialUpdateUserDTO(
    fullName: Option<string>,
    notificationDelay: Option<int>,
    notificationsEnabled: Option<bool>)

  /** The errors a user lookup reports: the domain's `ErrUserNotFound`, or a store error wrapped with context. */
  datatype UserError = UserNotFound | Wrapped(message: string)

  datatype LookupKind = ById | ByEmail | ByTelegramChatId

  function LookupContext(kind: LookupKind): string {
    match kind
    case ById => "failed to get user by id"
    case ByEmail => "failed to get user by email"
    case ByTelegramChatId => "failed to get user by tgchatid"
  }

  /**
   * `GetById`, `GetByEmail` and `GetByTelegramChatId`: what the store answered, as the
   * service reports it. Only "no rows" becomes `ErrUserNotFound`.
   */
  function ClassifyLookup(kind: LookupKind, answer: StoreResult<User>): (r: Result<User, UserError>)
    ensures r == Err(UserNotFound) <==> answer == NoRows
    ensures answer.StoreFault? ==> r == Err(Wrapped(LookupContext(kind) + ": " + answer.message))
    ensures answer.Row? <==> r.Ok?
    ensures r.Ok? ==> r.value == answer.row
  {
    match answer
    case Row(u) => Ok(u)
    case NoRows => Err(UserNotFound)
    case StoreFault(m) => Err(Wrapped(LookupContext(kind) + ": " + m))
  }

  /** The record `UpdatePartial` writes back: each non-nil field of the request overwrites the stored one. */
  function ApplyPartial(u: User, dto: PartialUpdateUserDTO): (r: User)
    ensures r.fullName == if dto.fullName.Some? then dto.fullName else u.fullName
    ensures r.notificationDelay == if dto.notificationDelay.Some? then dto.notificationDelay else u.notificationDelay
    ensures r.notificationsEnabled ==
      if dto.notificationsEnabled.Some? then dto.notificationsEnabled else u.notificationsEnabled
    ensures r.userId == u.userId && r.email == u.email && r.passwordHash == u.passwordHash && r.role == u.role
    ensures r.telegramUsername == u.telegramUsername && r.telegramChatId == u.telegramChatId
  {
    var u1 := if dto.fullName.Some? then u.(fullName := dto.fullName) else u;
    var u2 := if dto.notificationDelay.Some? then u1.(notificationDelay := dto.notificationDelay) else u1;
    if dto.notificationsEnabled.Some? then u2.(notificationsEnabled := dto.notificationsEnabled) else u2
  }

  /** A request with every field nil writes back the record unchanged. */
  lemma ApplyEmptyPartialIsIdentity(u: User)
    ensures ApplyPartial(u, PartialUpdateUserDTO(None, None, None)) == u
  {
  }

  /** Applying the same request twice gives what applying it once gives. */
  lemma ApplyPartialIdempotent(u: User, dto: PartialUpdateUserDTO)
    ensures ApplyPartial(ApplyPartial(u, dto), dto) == ApplyPartial(u, dto)
  {
  }

  /** The user service over its store, a map from user id to record. */
  class Service {
    var users: map<nat, User>

    /** Every record is filed under its own id, as the store's `WHERE user_id = …` updates assume. */
    ghost predicate Valid()
      reads this
    {
      forall id :: id in users ==> users[id].userId == id
    }

    constructor (initial: map<nat, User>)
      requires forall id :: id in initial ==> initial[id].userId == id
      ensures Valid() && users == initial
    {
      users := initial;
    }

    /** `GetById` over the map store, which never faults. */
    method GetById(userId: nat) returns (r: Result<User, UserError>)
      requires Valid()
      ensures userId in users ==> r == Ok(users[userId])
      ensures userId !in users ==> r == Err(UserNotFound)
      ensures r.Ok? ==> r.value.userId == userId
    {
      var answer := if userId in users then Row(users[userId]) else NoRows;
      r := ClassifyLookup(ById, answer);
    }

    /**
     * `UpdatePartial`: fetch the record, overwrite the fields the request carries,
     * write it back. A missing user is reported and nothing is written.
     */
    method UpdatePartial(dto: PartialUpdateUserDTO, userId: nat) returns (r: Result<(), UserError>)
      requires Valid()
      modifies this
      ensures Valid()
      ensures userId !in old(users) ==> r == Err(UserNotFound) && users == old(users)
      ensures userId in old(users) ==>
        r == Ok(()) && users == old(users)[userId := ApplyPartial(old(users)[userId], dto)]
    {
      var found := GetById(userId);
      if found.Err? {
        return Err(found.error);
      }
      var user := found.value;

      if dto.fullName.Some? {
        user := user.(fullName := dto.fullName);
      }

      if dto.notificationDelay.Some? {
        user := user.(notificationDelay := dto.notificationDelay);
      }

      if dto.notificationsEnabled.Some? {
        user := user.(notificationsEnabled := dto.notificationsEnabled);
      }

      users := users[user.userId := user];
      r := Ok(());
    }
  }

  /** Sending the same settings request twice leaves the store as one request does. */
  method UpdatePartialTwice(s: Service, dto: PartialUpdateUserDTO, userId: nat)
    requires s.Valid()
    modifies s
    ensures s.Valid()
    ensures userId in old(s.users) ==> s.users == old(s.users)[userId := ApplyPartial(old(s.users)[userId], dto)]
    ensures userId !in old(s.users) ==> s.users == old(s.users)
  {
    var first := s.UpdatePartial(dto, userId);
    ghost var once := s.users;
    var second := s.UpdatePartial(dto, userId);
    if userId in old(s.users) {
      ApplyPartialIdempotent(old(s.users)[userId], dto);
      assert s.users == once;
    }
  }
}
