/**
 * The group engine: creating groups, joining and leaving them, the once-only
 * schedule upload and the membership-gated schedule read. The database tables are
 * replaced by maps held in the `Service` object; faculties, programs and subject
 * types are the read-only reference data it is built with.
 */
module GroupService {
  import opened Wrappers
  import opened ScheduleEntity
  import opened DomainErrors
  import GroupRequest

  /** The 62 characters a join code is drawn from. */
  const Alphabet: string := "ABCDEFGHIJKLMNOPQRSTUVWXYZabcdefghijklmnopqrstuvwxyz0123456789"

  /** `Create` asks for codes of this length. */
  const CodeLength: nat := 4

  /** One draw of the random source: an index into the alphabet, `0 <= i < 62`. */
  type CharIndex = i: nat | i < 62

  /**
   * A stored group. The store's key is its id. `leader` is the nullable `LeaderID`;
   * `code` is the join code the service compares against.
   */
  datatype Group = Group(
    leader: Option<nat>,
    facultyId: nat,
    programId: nat,
    shortName: string,
    code: string,
    numberOfPeople: nat,
    existsSchedule: bool)

  /** What `Create` is given. `leaderId` is the user who becomes leader and first member. */
  datatype CreateGroupDTO = CreateGroupDTO(facultyId: nat, programId: nat, shortName: string, leaderId: nat)

  // ---------------------------------------------------------------------------
  // Lookup classification
  // ---------------------------------------------------------------------------

  /** The three group lookups: by id, by short name, and the student's own group. */
  datatype GroupLookup = ById | ByShortName | StudentGroup

  /** The context each lookup wraps a store error in. */
  function GroupLookupContext(kind: GroupLookup): string {
    match kind
    case ById => "failed to get group"
    case ByShortName => "failed to get group"
    case StudentGroup => "failed to get student group"
  }

  /** Only "no rows" is reported as `ErrGroupNotFound`; any other store error is wrapped. */
  function ClassifyGroupLookup<T>(kind: GroupLookup, answer: StoreResult<T>): (r: Result<T, Error>)
    ensures r == Err(GroupNotFound) <==> answer == NoRows
    ensures answer.StoreFault? ==> r == Err(Internal(GroupLookupContext(kind) + ": " + answer.message))
    ensures answer.Row? <==> r.Ok?
    ensures r.Ok? ==> r.value == answer.row
  {
    match answer
    case Row(g) => Ok(g)
    case NoRows => Err(GroupNotFound)
    case StoreFault(m) => Err(Internal(GroupLookupContext(kind) + ": " + m))
  }

  // ---------------------------------------------------------------------------
  // The membership count
  // ---------------------------------------------------------------------------

  /** The users whose membership row points at group `g`. */
  ghost function MembersOf(members: map<nat, nat>, g: nat): set<nat> {
    set u | u in members && members[u] == g
  }

  /** Each group's `numberOfPeople` is the number of its membership rows. */
  ghost predicate CountsMatch(groups: map<nat, Group>, members: map<nat, nat>) {
    forall g :: g in groups ==> groups[g].numberOfPeople == |MembersOf(members, g)|
  }

  /** A new membership row adds its user to its group and to no other. */
  lemma MembersOfInsert(members: map<nat, nat>, u: nat, g: nat, h: nat)
    requires u !in members
    ensures MembersOf(members[u := g], h) == if h == g then MembersOf(members, h) + {u} else MembersOf(members, h)
    ensures h == g ==> |MembersOf(members[u := g], h)| == |MembersOf(members, h)| + 1
  {
    if h == g {
      assert u !in MembersOf(members, h);
    }
  }

  /** Deleting a membership row removes its user from its group and from no other. */
  lemma MembersOfRemove(members: map<nat, nat>, u: nat, h: nat)
    requires u in members
    ensures MembersOf(members - {u}, h) == if h == members[u] then MembersOf(members, h) - {u} else MembersOf(members, h)
    ensures h == members[u] ==> |MembersOf(members - {u}, h)| == |MembersOf(members, h)| - 1
  {
    if h == members[u] {
      assert u in MembersOf(members, h);
    }
  }

  /**
   * `Create` as written: the group row is stored first, and the leader's membership
   * row only when the membership store accepts it, which it does not when the leader
   * already has one. The call then fails with the group row still in place.
   */
  ghost function CreateAsWrittenStores(groups: map<nat, Group>, members: map<nat, nat>, id: nat, g: Group, leader: nat)
    : (map<nat, Group>, map<nat, nat>)
  {
    (groups[id := g], if leader in members then members else members[leader := id])
  }

  /** In that case the new group counts one person and has no member: the count no longer matches. */
  lemma CreateAsWrittenBreaksCount(groups: map<nat, Group>, members: map<nat, nat>, id: nat, g: Group, leader: nat)
    requires CountsMatch(groups, members)
    requires forall u :: u in members ==> members[u] in groups
    requires id !in groups && leader in members && g.numberOfPeople == 1
    ensures !CountsMatch(CreateAsWrittenStores(groups, members, id, g, leader).0,
                         CreateAsWrittenStores(groups, members, id, g, leader).1)
  {
    var (groups', members') := CreateAsWrittenStores(groups, members, id, g, leader);
    assert members' == members;
    assert MembersOf(members, id) == {} by {
      forall u | u in members ensures members[u] != id {
        assert members[u] in groups;
      }
    }
    assert groups'[id].numberOfPeople == 1;
  }

  /** The rows of the schedule store that belong to group `g`, in store order. */
  function EntriesOf(schedules: seq<Entry>, g: nat): seq<Entry>
    decreases |schedules|
  {
    if |schedules| == 0 then []
    else (if schedules[0].groupId == g then [schedules[0]] else []) + EntriesOf(schedules[1..], g)
  }

  /** A row is read back for group `g` iff it is stored and belongs to `g`. */
  lemma {:induction false} EntriesOfMembers(schedules: seq<Entry>, g: nat, e: Entry)
    ensures e in EntriesOf(schedules, g) <==> e in schedules && e.groupId == g
    decreases |schedules|
  {
    if |schedules| > 0 {
      EntriesOfMembers(schedules[1..], g, e);
      assert schedules == [schedules[0]] + schedules[1..];
    }
  }

  /** Appending rows to the store appends their share to each group's read-back. */
  lemma {:induction false} EntriesOfAppend(a: seq<Entry>, b: seq<Entry>, g: nat)
    ensures EntriesOf(a + b, g) == EntriesOf(a, g) + EntriesOf(b, g)
    decreases |a|
  {
    if |a| == 0 {
      assert a + b == b;
    } else {
      var head: seq<Entry> := if a[0].groupId == g then [a[0]] else [];
      assert (a + b)[0] == a[0];
      assert (a + b)[1..] == a[1..] + b;
      assert EntriesOf(a + b, g) == head + EntriesOf(a[1..] + b, g);
      EntriesOfAppend(a[1..], b, g);
      assert EntriesOf(a, g) == head + EntriesOf(a[1..], g);
    }
  }

  /** A batch whose rows all carry group `g`, as the upload request's flattening produces, reads back whole. */
  lemma {:induction false} EntriesOfOwnBatch(batch: seq<Entry>, g: nat)
    requires forall e :: e in batch ==> e.groupId == g
    ensures EntriesOf(batch, g) == batch
    decreases |batch|
  {
    if |batch| > 0 {
      assert batch[0] in batch;
      assert forall e :: e in batch[1..] ==> e in batch;
      EntriesOfOwnBatch(batch[1..], g);
      assert [batch[0]] + batch[1..] == batch;
    }
  }

  // ---------------------------------------------------------------------------
  // The service
  // ---------------------------------------------------------------------------

  class Service {
    /** Reference data: each program with the faculty it belongs to; faculty ids; subject-type ids. */
    const programs: map<nat, nat>
    const faculties: set<nat>
    const subjectTypes: set<nat>

    /** The groups table by id, the members table by user id, the schedules table in insertion order. */
    var groups: map<nat, Group>
    var members: map<nat, nat>
    var schedules: seq<Entry>
    /** The next id the groups table hands out. */
    var nextGroupId: nat

    /**
     * The engine's invariant: counts match membership rows, memberships point at
     * existing groups, ids stay below the id counter, and short names are unique.
     */
    ghost predicate Valid()
      reads this
    {
      && CountsMatch(groups, members)
      && (forall u :: u in members ==> members[u] in groups)
      && (forall g :: g in groups ==> g < nextGroupId)
      && (forall g, h :: g in groups && h in groups && g != h ==> groups[g].shortName != groups[h].shortName)
    }

    constructor (programs: map<nat, nat>, faculties: set<nat>, subjectTypes: set<nat>)
      ensures Valid()
      ensures this.programs == programs && this.faculties == faculties && this.subjectTypes == subjectTypes
      ensures groups == map[] && members == map[] && schedules == [] && nextGroupId == 0
    {
      this.programs := programs;
      this.faculties := faculties;
      this.subjectTypes := subjectTypes;
      groups := map[];
      members := map[];
      schedules := [];
      nextGroupId := 0;
    }

    /** `GenCode`: a code of `size` characters, character `i` picked by the `i`-th draw. */
    method GenCode(size: nat, draws: seq<CharIndex>) returns (code: string)
      requires size <= |draws|
      ensures |code| == size
      ensures forall i :: 0 <= i < size ==> code[i] == Alphabet[draws[i]]
      ensures forall i :: 0 <= i < size ==> code[i] in Alphabet
    {
      var alias := new char[size];
      for i := 0 to size
        invariant forall j :: 0 <= j < i ==> alias[j] == Alphabet[draws[j]]
      {
        alias[i] := Alphabet[draws[i]];
      }
      code := alias[..];
    }

    /** `GetById` over the map store, which never faults. */
    method GetById(groupId: nat) returns (r: Result<Group, Error>)
      ensures groupId in groups ==> r == Ok(groups[groupId])
      ensures groupId !in groups ==> r == Err(GroupNotFound)
    {
      var answer := if groupId in groups then Row(groups[groupId]) else NoRows;
      r := ClassifyGroupLookup(ById, answer);
    }

    /** `GetByShortName` over the map store: succeeds iff some group has that short name. */
    method GetByShortName(shortName: string) returns (r: Result<Group, Error>)
      ensures r.Ok? <==> exists g :: g in groups && groups[g].shortName == shortName
      ensures r.Ok? ==> r.value.shortName == shortName && r.value in groups.Values
      ensures r.Err? ==> r.error == GroupNotFound
    {
      var answer: StoreResult<Group> := NoRows;
      if g :| g in groups && groups[g].shortName == shortName {
        answer := Row(groups[g]);
      }
      r := ClassifyGroupLookup(ByShortName, answer);
    }

    /**
     * `Create`. Checks, in this order: the short name is free; the program exists;
     * the faculty exists; the program belongs to the faculty; and (the membership
     * store's rule, checked before anything is written) the leader has no membership.
     * On success a fresh id holds a group with the leader, the generated code, one
     * person and no schedule, and the leader is its member.
     */
    method Create(dto: CreateGroupDTO, draws: seq<CharIndex>) returns (r: Result<nat, Error>)
      requires Valid()
      requires CodeLength <= |draws|
      modifies this
      ensures Valid()
      ensures (exists g :: g in old(groups) && old(groups)[g].shortName == dto.shortName) ==>
        r == Err(GroupAlreadyExists)
      ensures (forall g :: g in old(groups) ==> old(groups)[g].shortName != dto.shortName) ==>
        if dto.programId !in programs then r == Err(ProgramNotFound)
        else if dto.facultyId !in faculties then r == Err(FacultyNotFound)
        else if programs[dto.programId] != dto.facultyId then r == Err(FacultyProgramIdMismatch)
        else if dto.leaderId in old(members) then r == Err(MemberInsertFailed)
        else r == Ok(old(nextGroupId))
      ensures r.Err? ==> unchanged(this)
      ensures r.Ok? ==>
        && r.value !in old(groups)
        && r.value in groups
        && groups == old(groups)[r.value := groups[r.value]]
        && groups[r.value].leader == Some(dto.leaderId)
        && groups[r.value].facultyId == dto.facultyId
        && groups[r.value].programId == dto.programId
        && groups[r.value].shortName == dto.shortName
        && groups[r.value].numberOfPeople == 1
        && !groups[r.value].existsSchedule
        && |groups[r.value].code| == CodeLength
        && (forall i :: 0 <= i < CodeLength ==> groups[r.value].code[i] == Alphabet[draws[i]])
        && members == old(members)[dto.leaderId := r.value]
        && schedules == old(schedules)
        && nextGroupId == old(nextGroupId) + 1
    {
      var existing := GetByShortName(dto.shortName);
      if existing.Ok? {
        return Err(GroupAlreadyExists);
      }

      if dto.programId !in programs {
        return Err(ProgramNotFound);
      }
      var programFaculty := programs[dto.programId];

      if dto.facultyId !in faculties {
        return Err(FacultyNotFound);
      }

      if programFaculty != dto.facultyId {
        return Err(FacultyProgramIdMismatch);
      }

      var code := GenCode(CodeLength, draws);

      if dto.leaderId in members {
        return Err(MemberInsertFailed);
      }

      var entity := Group(Some(dto.leaderId), dto.facultyId, dto.programId, dto.shortName, code, 1, false);
      var groupId := nextGroupId;
      forall h | h in groups ensures MembersOf(members[dto.leaderId := groupId], h) == MembersOf(members, h) {
        MembersOfInsert(members, dto.leaderId, groupId, h);
      }
      MembersOfInsert(members, dto.leaderId, groupId, groupId);
      assert MembersOf(members, groupId) == {} by {
        forall u | u in members ensures members[u] != groupId {
          assert members[u] in groups;
        }
      }
      groups := groups[groupId := entity];
      nextGroupId := nextGroupId + 1;
      members := members[dto.leaderId := groupId];
      r := Ok(groupId);
    }

    /**
     * `JoinToGroup`. Fails, changing nothing, when the user already has a membership,
     * then when the group is unknown, then when the code differs from the group's.
     * Otherwise the user becomes a member and the group counts one more person.
     */
    method JoinToGroup(code: string, userId: nat, groupId: nat) returns (r: Result<(), Error>)
      requires Valid()
      modifies this
      ensures Valid()
      ensures userId in old(members) ==> r == Err(AlreadyInGroup)
      ensures userId !in old(members) && groupId !in old(groups) ==> r == Err(GroupNotFound)
      ensures userId !in old(members) && groupId in old(groups) && old(groups)[groupId].code != code ==>
        r == Err(WrongGroupCode)
      ensures r.Err? ==> unchanged(this)
      ensures r.Ok? <==> userId !in old(members) && groupId in old(groups) && old(groups)[groupId].code == code
      ensures r.Ok? ==>
        && members == old(members)[userId := groupId]
        && groups == old(groups)[groupId := old(groups)[groupId].(numberOfPeople := old(groups)[groupId].numberOfPeople + 1)]
        && schedules == old(schedules)
        && nextGroupId == old(nextGroupId)
    {
      if userId in members {
        return Err(AlreadyInGroup);
      }

      var found := GetById(groupId);
      if found.Err? {
        return Err(found.error);
      }
      var group := found.value;

      if group.code != code {
        return Err(WrongGroupCode);
      }

      forall h | h in groups ensures h != groupId ==> MembersOf(members[userId := groupId], h) == MembersOf(members, h) {
        MembersOfInsert(members, userId, groupId, h);
      }
      MembersOfInsert(members, userId, groupId, groupId);
      members := members[userId := groupId];
      group := group.(numberOfPeople := group.numberOfPeople + 1);
      groups := groups[groupId := group];
      r := Ok(());
    }

    /**
     * `LeaveFromGroup`. Without a membership the user gets `ErrMemberNotFound`.
     * Otherwise exactly that membership row goes and the group counts one person
     * less; its leader and schedule flag are left as they are.
     */
    method LeaveFromGroup(userId: nat) returns (r: Result<(), Error>)
      requires Valid()
      modifies this
      ensures Valid()
      ensures userId !in old(members) ==> r == Err(MemberNotFound) && unchanged(this)
      ensures userId in old(members) ==>
        var g := old(members)[userId];
        && r == Ok(())
        && old(groups)[g].numberOfPeople >= 1
        && members == old(members) - {userId}
        && groups == old(groups)[g := old(groups)[g].(numberOfPeople := old(groups)[g].numberOfPeople - 1)]
        && schedules == old(schedules)
        && nextGroupId == old(nextGroupId)
    {
      if userId !in members {
        return Err(MemberNotFound);
      }
      var groupId := members[userId];

      var found := GetById(groupId);
      if found.Err? {
        // Cannot happen while Valid() holds: every membership points at a stored group.
        return Err(GroupNotFound);
      }
      var group := found.value;

      forall h | h in groups ensures h != groupId ==> MembersOf(members - {userId}, h) == MembersOf(members, h) {
        MembersOfRemove(members, userId, h);
      }
      MembersOfRemove(members, userId, groupId);
      members := members - {userId};
      group := group.(numberOfPeople := group.numberOfPeople - 1);
      groups := groups[groupId := group];
      r := Ok(());
    }

    /** Why one schedule row is refused: unknown subject type first, then a building id that is not a faculty id. */
    function EntryError(e: Entry): Option<Error> {
      if e.typeOfSubjectId !in subjectTypes then Some(TypeOfSubjectNotFound)
      else if e.buildingsId !in faculties then Some(FacultyNotFound)
      else None
    }

    /** The refusal of the first refused row, if any. */
    function FirstEntryError(entries: seq<Entry>): Option<Error>
      decreases |entries|
    {
      if |entries| == 0 then None
      else if EntryError(entries[0]).Some? then EntryError(entries[0])
      else FirstEntryError(entries[1..])
    }

    /**
     * The rows pass iff every row passes; when they do not, the error is that of a row
     * all of whose predecessors pass.
     */
    lemma {:induction false} FirstEntryErrorMeaning(entries: seq<Entry>)
      ensures FirstEntryError(entries) == None <==> forall i :: 0 <= i < |entries| ==> EntryError(entries[i]) == None
      ensures FirstEntryError(entries).Some? ==>
        exists i :: 0 <= i < |entries| && EntryError(entries[i]) == FirstEntryError(entries) &&
          forall j :: 0 <= j < i ==> EntryError(entries[j]) == None
      decreases |entries|
    {
      if |entries| > 0 && EntryError(entries[0]).None? {
        FirstEntryErrorMeaning(entries[1..]);
        if FirstEntryError(entries).Some? {
          var i :| 0 <= i < |entries[1..]| && EntryError(entries[1..][i]) == FirstEntryError(entries[1..]) &&
            forall j :: 0 <= j < i ==> EntryError(entries[1..][j]) == None;
          assert EntryError(entries[i + 1]) == FirstEntryError(entries);
        }
        assert forall i :: 1 <= i < |entries| ==> entries[i] == entries[1..][i - 1];
      }
    }

    /** The reference checks of `UploadSchedule`: the rows one by one, each its subject type, then its building. */
    method CheckReferences(entries: seq<Entry>) returns (err: Option<Error>)
      ensures err == FirstEntryError(entries)
    {
      for i := 0 to |entries|
        invariant FirstEntryError(entries) == FirstEntryError(entries[i..])
      {
        assert entries[i..][1..] == entries[i + 1..];
        var value := entries[i];
        if value.typeOfSubjectId !in subjectTypes {
          return Some(TypeOfSubjectNotFound);
        }
        if value.buildingsId !in faculties {
          return Some(FacultyNotFound);
        }
      }
      return None;
    }

    /**
     * `UploadSchedule`. Fails, changing nothing, when the group is unknown, then when
     * the uploader is not its leader, then when it already has a schedule, then at the
     * first row with an unknown reference. Otherwise the rows are appended in order
     * and the group's schedule flag is set.
     */
    method UploadSchedule(entries: seq<Entry>, groupId: nat, userId: nat) returns (r: Result<(), Error>)
      requires Valid()
      modifies this
      ensures Valid()
      ensures groupId !in old(groups) ==> r == Err(GroupNotFound)
      ensures groupId in old(groups) ==>
        var g := old(groups)[groupId];
        if g.leader != Some(userId) then r == Err(ThisGroupDoesNotBelongToYou)
        else if g.existsSchedule then r == Err(GroupAlreadyHasSchedule)
        else if FirstEntryError(entries).Some? then r == Err(FirstEntryError(entries).value)
        else r == Ok(())
      ensures r.Err? ==> unchanged(this)
      ensures r.Ok? ==>
        && schedules == old(schedules) + entries
        && groups == old(groups)[groupId := old(groups)[groupId].(existsSchedule := true)]
        && members == old(members)
        && nextGroupId == old(nextGroupId)
    {
      var found := GetById(groupId);
      if found.Err? {
        return Err(found.error);
      }
      var group := found.value;

      if group.leader != Some(userId) {
        return Err(ThisGroupDoesNotBelongToYou);
      }

      if group.existsSchedule {
        return Err(GroupAlreadyHasSchedule);
      }

      var bad := CheckReferences(entries);
      if bad.Some? {
        return Err(bad.value);
      }

      schedules := schedules + entries;
      group := group.(existsSchedule := true);
      groups := groups[groupId := group];
      r := Ok(());
    }

    /**
     * `GetAllSchedulesByGroupIdAndUserId`: the group must exist, then the reader must
     * be a member of exactly that group; the result is the group's rows in store order.
     */
    method GetAllSchedulesByGroupIdAndUserId(groupId: nat, userId: nat) returns (r: Result<seq<Entry>, Error>)
      ensures groupId !in groups ==> r == Err(GroupNotFound)
      ensures groupId in groups && (userId !in members || members[userId] != groupId) ==> r == Err(YouArentMember)
      ensures r.Ok? <==> groupId in groups && userId in members && members[userId] == groupId
      ensures r.Ok? ==> r.value == EntriesOf(schedules, groupId)
      ensures r.Ok? ==> forall e :: e in r.value <==> e in schedules && e.groupId == groupId
    {
      var found := GetById(groupId);
      if found.Err? {
        return Err(found.error);
      }

      if userId !in members {
        return Err(YouArentMember);
      }
      var memberGroup := members[userId];

      if groupId != memberGroup {
        return Err(YouArentMember);
      }

      var rows := EntriesOf(schedules, memberGroup);
      forall e ensures e in rows <==> e in schedules && e.groupId == groupId {
        EntriesOfMembers(schedules, groupId, e);
      }
      r := Ok(rows);
    }
  }

  // ---------------------------------------------------------------------------
  // Call sequences, proved from the contracts alone
  // ---------------------------------------------------------------------------

  /**
   * A second upload to a group by its leader is refused with
   * `ErrGroupAlreadyHasSchedule`, and the store holds the first batch only.
   */
  method UploadTwice(s: Service, first: seq<Entry>, second: seq<Entry>, groupId: nat, userId: nat)
    returns (r1: Result<(), Error>, r2: Result<(), Error>)
    requires s.Valid()
    modifies s
    ensures s.Valid()
    ensures r1.Ok? ==> r2 == Err(GroupAlreadyHasSchedule)
    ensures r1.Ok? ==> s.schedules == old(s.schedules) + first
    ensures r1.Ok? ==> EntriesOf(s.schedules, groupId) == EntriesOf(old(s.schedules), groupId) + EntriesOf(first, groupId)
  {
    r1 := s.UploadSchedule(first, groupId, userId);
    r2 := s.UploadSchedule(second, groupId, userId);
    if r1.Ok? {
      EntriesOfAppend(old(s.schedules), first, groupId);
    }
  }

  /**
   * The upload handler's path followed by a read: the request is flattened for the
   * group and stored by `uploader`, then `reader` reads the group's schedule. A member
   * of that group gets the rows stored before followed by exactly the uploaded ones;
   * anyone else is refused.
   */
  method UploadThenRead(s: Service, u: GroupRequest.UploadScheduleRequest, groupId: nat, uploader: nat, reader: nat)
    returns (up: Result<(), Error>, read: Result<seq<Entry>, Error>)
    requires s.Valid()
    modifies s
    ensures s.Valid()
    ensures up.Ok? ==> s.schedules == old(s.schedules) + GroupRequest.WeeksEntries(groupId, u.weeks)
    ensures up.Ok? ==> (read.Ok? <==> reader in old(s.members) && old(s.members)[reader] == groupId)
    ensures up.Ok? && !(reader in old(s.members) && old(s.members)[reader] == groupId) ==> read == Err(YouArentMember)
    ensures up.Ok? && read.Ok? ==>
      read.value == EntriesOf(old(s.schedules), groupId) + GroupRequest.WeeksEntries(groupId, u.weeks)
  {
    var batch := GroupRequest.TransformToEntities(u, groupId);
    up := s.UploadSchedule(batch, groupId, uploader);
    read := s.GetAllSchedulesByGroupIdAndUserId(groupId, reader);
    if up.Ok? {
      GroupRequest.TransformCarriesGroupId(groupId, u.weeks);
      EntriesOfAppend(old(s.schedules), batch, groupId);
      EntriesOfOwnBatch(batch, groupId);
    }
  }

  /** Adding a membership row and removing it again, with the matching head-count changes, restores both tables. */
  lemma JoinLeaveRestores(members: map<nat, nat>, groups: map<nat, Group>, userId: nat, groupId: nat)
    requires userId !in members && groupId in groups
    ensures members[userId := groupId] - {userId} == members
    ensures var bumped := groups[groupId := groups[groupId].(numberOfPeople := groups[groupId].numberOfPeople + 1)];
      bumped[groupId := bumped[groupId].(numberOfPeople := bumped[groupId].numberOfPeople - 1)] == groups
  {
  }

  /** Joining and then leaving restores the membership and group tables exactly. */
  method JoinThenLeave(s: Service, code: string, userId: nat, groupId: nat)
    returns (joined: Result<(), Error>, left: Result<(), Error>)
    requires s.Valid()
    modifies s
    ensures s.Valid()
    ensures joined.Ok? ==> left.Ok? && s.members == old(s.members) && s.groups == old(s.groups)
    ensures joined.Err? && userId !in old(s.members) ==> left == Err(MemberNotFound) && s.members == old(s.members)
  {
    joined := s.JoinToGroup(code, userId, groupId);
    left := s.LeaveFromGroup(userId);
    if joined.Ok? {
      JoinLeaveRestores(old(s.members), old(s.groups), userId, groupId);
    }
  }

  /** Leaving twice: the second call finds no membership. */
  method LeaveTwice(s: Service, userId: nat) returns (r1: Result<(), Error>, r2: Result<(), Error>)
    requires s.Valid()
    modifies s
    ensures s.Valid()
    ensures r2 == Err(MemberNotFound)
  {
    r1 := s.LeaveFromGroup(userId);
    r2 := s.LeaveFromGroup(userId);
  }

  /** Creating two groups with one short name: the second is refused with `ErrGroupAlreadyExists`. */
  method CreateTwice(s: Service, a: CreateGroupDTO, b: CreateGroupDTO, draws: seq<CharIndex>)
    returns (r1: Result<nat, Error>, r2: Result<nat, Error>)
    requires s.Valid()
    requires CodeLength <= |draws|
    requires a.shortName == b.shortName
    modifies s
    ensures s.Valid()
    ensures r1.Ok? ==> r2 == Err(GroupAlreadyExists)
  {
    r1 := s.Create(a, draws);
    r2 := s.Create(b, draws);
  }
}
