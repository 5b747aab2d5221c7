/**
 * The store-level rules of the edit routes: saving one grid cell
 * (`save_grid_session`), clearing one (`clear_grid_session`), deleting a
 * teacher and deleting a skill. Each is a function from the tables before the
 * request to the outcome; a rejected request leaves every table as it was.
 * Form values arrive parsed and stripped.
 */
module Edits {
  import opened Vocabulary
  import opened Selection
  import opened Records
  import opened Availability
  import opened Grid

  /** No teacher holds two sessions of the same day and slot (sessions are told apart by id). */
  ghost predicate NoDoubleBooking(ss: seq<Session>)
  {
    forall a, b :: a in ss && b in ss && a.id != b.id && SameHour(a, b) && a.assignedTeacher.Some? ==>
      a.assignedTeacher != b.assignedTeacher
  }

  // ---------------------------------------------------------------- save_grid_session

  datatype SaveError =
    | InvalidCoordinates   // day, slot or year group outside the fixed vocabulary
    | MissingSkill         // no skill id, or no skill with that id
    | UnknownTeacher       // a teacher id was given and no teacher has it
    | TeacherNotAvailable  // the teacher does not list the hour among their free slots
    | TeacherMissingSkill  // the teacher lacks the required skill
    | TeacherBusy          // another session of the same day and slot has the teacher

  /** A successful save gives the new store and where the cell's session is; a failed one only why. */
  datatype SaveOutcome = Saved(store: seq<Session>, index: nat) | Rejected(reason: SaveError)

  predicate ValidCoordinates(day: string, slot: string, yearGroup: string)
  {
    Member(WEEK_DAYS, day) && Member(TEACHING_SLOTS, slot) && Member(YEAR_GROUPS, yearGroup)
  }

  /** `db.session.get(Skill, id) if id else None`: an absent id and id 0 both name no skill. */
  function FormSkill(ks: seq<Skill>, skillId: Option<int>): (r: Option<Skill>)
    ensures r.Some? ==> r.value in ks && skillId == Some(r.value.id)
    ensures r.None? ==> skillId.None? || forall k :: 0 <= k < |ks| ==> ks[k].id != skillId.value
  {
    if skillId.Some? && skillId.value != 0 then FindSkill(ks, skillId.value) else None
  }

  /** `if assigned_teacher_id:`, a teacher id was given and it is not 0. */
  predicate TeacherGiven(teacherId: Option<int>)
  {
    teacherId.Some? && teacherId.value != 0
  }

  /** The conflict query: a session other than the one at `index`, in the same day and slot, has the teacher. */
  predicate HourTaken(ss: seq<Session>, index: nat, day: string, slot: string, id: Id)
  {
    exists j :: 0 <= j < |ss| && j != index && AtHour(ss[j], day, slot) && ss[j].assignedTeacher == Some(id)
  }

  /**
   * `save_grid_session`. The checks run in the route's order; the conflict
   * query sees the store after the cell lookup (its changes are flushed
   * before the query runs), and excludes the cell's own session.
   */
  function Save(ss: seq<Session>, ts: seq<Teacher>, ks: seq<Skill>, day: string, slot: string, yearGroup: string,
                skillId: Option<int>, teacherId: Option<int>): SaveOutcome
    requires IdsIncreasing(ss)
  {
    if !ValidCoordinates(day, slot, yearGroup) then Rejected(InvalidCoordinates)
    else
      var skill := FormSkill(ks, skillId);
      if skill.None? then Rejected(MissingSkill)
      else
        var res := GetOrCreate(ss, day, slot, yearGroup, skill.value.id);
        GetOrCreateCell(ss, day, slot, yearGroup, skill.value.id);
        MemberIn(WEEK_DAYS, day);
        WeekDaysShort();
        SaveInCell(res.store, res.index, ts, skill.value.id, day, slot, teacherId)
  }

  /** The outcome of the teacher checks: the teacher's id, or why the teacher is refused. */
  datatype TeacherCheck = Accept(teacher: Id) | Refuse(reason: SaveError)

  /** The route's checks on a given teacher id, in order, once the cell's session is at `index`. */
  function CheckTeacher(store: seq<Session>, index: nat, ts: seq<Teacher>, skill: Id, day: string, slot: string,
                        id: int): (r: TeacherCheck)
    requires day in DAY_SHORT
    ensures r.Accept? ==> r.teacher == id && !HourTaken(store, index, day, slot, r.teacher)
    ensures r.Refuse? ==> r.reason in {UnknownTeacher, TeacherNotAvailable, TeacherMissingSkill, TeacherBusy}
    ensures r == Refuse(UnknownTeacher) <==> forall t :: t in ts ==> t.id != id
    ensures r == Refuse(TeacherNotAvailable) ==>
      exists t :: t in ts && t.id == id && !TeacherIsAvailableForSlot(TeacherSlotTokens(t), day, slot)
    ensures r == Refuse(TeacherMissingSkill) ==> exists t :: t in ts && t.id == id && skill !in t.skills
    ensures r == Refuse(TeacherBusy) ==> HourTaken(store, index, day, slot, id)
  {
    var t := FindTeacher(ts, id);
    if t.None? then Refuse(UnknownTeacher)
    else if !TeacherIsAvailableForSlot(TeacherSlotTokens(t.value), day, slot) then Refuse(TeacherNotAvailable)
    else if skill !in t.value.skills then Refuse(TeacherMissingSkill)
    else if HourTaken(store, index, day, slot, t.value.id) then Refuse(TeacherBusy)
    else Accept(t.value.id)
  }

  /** Past the coordinate and skill checks, a save is the rest of the route on the store after the lookup. */
  lemma SaveAfterLookup(ss: seq<Session>, ts: seq<Teacher>, ks: seq<Skill>, day: string, slot: string, yearGroup: string,
                        skillId: Option<int>, teacherId: Option<int>, skill: Skill)
    requires IdsIncreasing(ss) && ValidCoordinates(day, slot, yearGroup) && FormSkill(ks, skillId) == Some(skill)
    ensures day in DAY_SHORT
    ensures var res := GetOrCreate(ss, day, slot, yearGroup, skill.id);
      && res.index < |res.store|
      && Save(ss, ts, ks, day, slot, yearGroup, skillId, teacherId) == SaveInCell(res.store, res.index, ts, skill.id, day, slot, teacherId)
  {
    GetOrCreateCell(ss, day, slot, yearGroup, skill.id);
    MemberIn(WEEK_DAYS, day);
    WeekDaysShort();
  }

  /** The changes the lookup and the skill write make are invisible to the conflict query, which skips the cell's row. */
  lemma SameConflicts(a: seq<Session>, b: seq<Session>, index: nat, day: string, slot: string)
    requires |a| == |b| && forall p :: 0 <= p < |a| && p != index ==> a[p] == b[p]
    ensures forall id :: HourTaken(a, index, day, slot, id) <==> HourTaken(b, index, day, slot, id)
  {
  }

  /** The rest of the route, once the cell's session is at `index`: the teacher checks and the write. */
  function SaveInCell(store: seq<Session>, index: nat, ts: seq<Teacher>, skill: Id, day: string, slot: string,
                      teacherId: Option<int>): SaveOutcome
    requires index < |store| && day in DAY_SHORT
  {
    var row := store[index].(requiredSkill := skill);
    if !TeacherGiven(teacherId) then
      Saved(store[index := row.(assignedTeacher := None)], index)
    else
      match CheckTeacher(store, index, ts, skill, day, slot, teacherId.value)
      case Refuse(e) => Rejected(e)
      case Accept(id) => Saved(store[index := row.(assignedTeacher := Some(id))], index)
  }

  /** The teacher a save writes to the cell: the form's teacher, or none when no teacher was given. */
  function FormTeacher(teacherId: Option<int>): Option<int>
  {
    if TeacherGiven(teacherId) then teacherId else None
  }

  /**
   * A save is accepted exactly when the coordinates are in the vocabulary,
   * the skill exists, and either no teacher was given or the teacher exists,
   * lists the hour, has the skill, and holds no other session of that hour.
   */
  lemma SaveAccepted(ss: seq<Session>, ts: seq<Teacher>, ks: seq<Skill>, day: string, slot: string, yearGroup: string,
                     skillId: Option<int>, teacherId: Option<int>)
    requires IdsIncreasing(ss) && TeacherIdsUnique(ts)
    ensures Save(ss, ts, ks, day, slot, yearGroup, skillId, teacherId).Saved? <==>
      && day in WEEK_DAYS && slot in TEACHING_SLOTS && yearGroup in YEAR_GROUPS
      && skillId.Some? && (exists k :: k in ks && k.id == skillId.value)
      && TeacherAcceptable(GetOrCreate(ss, day, slot, yearGroup, skillId.value), ts, skillId.value, day, slot, teacherId)
  {
    MemberIn(WEEK_DAYS, day);
    MemberIn(TEACHING_SLOTS, slot);
    MemberIn(YEAR_GROUPS, yearGroup);
    WeekDaysShort();
    var skill := FormSkill(ks, skillId);
    if skill.Some? && ValidCoordinates(day, slot, yearGroup) {
      var res := GetOrCreate(ss, day, slot, yearGroup, skill.value.id);
      GetOrCreateCell(ss, day, slot, yearGroup, skill.value.id);
      SaveInCellAccepted(res.store, res.index, ts, skill.value.id, day, slot, teacherId);
    }
  }

  /**
   * Why a save is refused: bad coordinates and a missing skill are caught
   * first, whatever the teacher; a teacher refusal names a given teacher id
   * that no teacher has, or a teacher with that id who does not list the
   * hour, or lacks the skill, or holds another session of the hour.
   */
  lemma SaveReasons(ss: seq<Session>, ts: seq<Teacher>, ks: seq<Skill>, day: string, slot: string, yearGroup: string,
                    skillId: Option<int>, teacherId: Option<int>)
    requires IdsIncreasing(ss)
    ensures var r := Save(ss, ts, ks, day, slot, yearGroup, skillId, teacherId);
      && (!(day in WEEK_DAYS && slot in TEACHING_SLOTS && yearGroup in YEAR_GROUPS) ==> r == Rejected(InvalidCoordinates))
      && ((day in WEEK_DAYS && slot in TEACHING_SLOTS && yearGroup in YEAR_GROUPS &&
           (skillId.None? || forall k :: k in ks ==> k.id != skillId.value)) ==> r == Rejected(MissingSkill))
      && (r == Rejected(UnknownTeacher) ==> TeacherGiven(teacherId) && forall t :: t in ts ==> t.id != teacherId.value)
      && (r == Rejected(TeacherNotAvailable) ==>
            && TeacherGiven(teacherId) && day in DAY_SHORT
            && exists t :: t in ts && t.id == teacherId.value && !TeacherIsAvailableForSlot(TeacherSlotTokens(t), day, slot))
      && (r == Rejected(TeacherMissingSkill) ==>
            && TeacherGiven(teacherId) && skillId.Some?
            && exists t :: t in ts && t.id == teacherId.value && skillId.value !in t.skills)
      && (r == Rejected(TeacherBusy) ==>
            && TeacherGiven(teacherId)
            && exists s :: s in ss && AtHour(s, day, slot) && s.assignedTeacher == Some(teacherId.value))
  {
    MemberIn(WEEK_DAYS, day);
    MemberIn(TEACHING_SLOTS, slot);
    MemberIn(YEAR_GROUPS, yearGroup);
    var skill := FormSkill(ks, skillId);
    if skill.Some? && ValidCoordinates(day, slot, yearGroup) {
      var res := GetOrCreate(ss, day, slot, yearGroup, skill.value.id);
      SaveAfterLookup(ss, ts, ks, day, slot, yearGroup, skillId, teacherId, skill.value);
      SaveInCellReasons(res.store, res.index, ts, skill.value.id, day, slot, teacherId);
      GetOrCreateFrom(ss, day, slot, yearGroup, skill.value.id);
      if Save(ss, ts, ks, day, slot, yearGroup, skillId, teacherId) == Rejected(TeacherBusy) {
        var j :| 0 <= j < |res.store| && j != res.index && AtHour(res.store[j], day, slot)
          && res.store[j].assignedTeacher == Some(teacherId.value);
        assert res.store[j] in ss;
      }
    }
  }

  /** The teacher refusals once the cell's session is at `index`. */
  lemma SaveInCellReasons(store: seq<Session>, index: nat, ts: seq<Teacher>, skill: Id, day: string, slot: string,
                          teacherId: Option<int>)
    requires index < |store| && day in DAY_SHORT
    ensures var r := SaveInCell(store, index, ts, skill, day, slot, teacherId);
      && (r == Rejected(UnknownTeacher) ==> TeacherGiven(teacherId) && forall t :: t in ts ==> t.id != teacherId.value)
      && (r == Rejected(TeacherNotAvailable) ==>
            && TeacherGiven(teacherId)
            && exists t :: t in ts && t.id == teacherId.value && !TeacherIsAvailableForSlot(TeacherSlotTokens(t), day, slot))
      && (r == Rejected(TeacherMissingSkill) ==>
            TeacherGiven(teacherId) && exists t :: t in ts && t.id == teacherId.value && skill !in t.skills)
      && (r == Rejected(TeacherBusy) ==>
            && TeacherGiven(teacherId) && teacherId.value >= 1
            && HourTaken(store, index, day, slot, teacherId.value))
  {
    if TeacherGiven(teacherId) && SaveInCell(store, index, ts, skill, day, slot, teacherId) == Rejected(TeacherBusy) {
      var t := FindTeacher(ts, teacherId.value);
      assert t.Some?;
    }
  }

  /** No teacher was given, or the given one exists, lists the hour, has the skill and is not busy in it. */
  ghost predicate TeacherAcceptable(res: CellLookup, ts: seq<Teacher>, skill: int, day: string, slot: string,
                                    teacherId: Option<int>)
    requires day in DAY_SHORT
  {
    TeacherGiven(teacherId) ==>
      exists t :: t in ts && t.id == teacherId.value
        && TeacherIsAvailableForSlot(TeacherSlotTokens(t), day, slot)
        && skill in t.skills
        && !HourTaken(res.store, res.index, day, slot, t.id)
  }

  lemma SaveInCellAccepted(store: seq<Session>, index: nat, ts: seq<Teacher>, skill: Id, day: string, slot: string,
                           teacherId: Option<int>)
    requires index < |store| && day in DAY_SHORT && TeacherIdsUnique(ts)
    ensures SaveInCell(store, index, ts, skill, day, slot, teacherId).Saved? <==>
      TeacherAcceptable(CellLookup(store, index, 0), ts, skill, day, slot, teacherId)
  {
    if TeacherGiven(teacherId) {
      var t := FindTeacher(ts, teacherId.value);
      if t.None? {
        assert forall t :: t in ts ==> t.id != teacherId.value;
      } else {
        forall t' | t' in ts && t'.id == teacherId.value ensures t' == t.value {
          FindTeacherUnique(ts, teacherId.value, t');
        }
      }
    }
  }

  /**
   * What a successful save writes once the cell's session is at `index`:
   * that row only, with the skill, and with the given teacher, who holds no
   * other session of the hour, or with none when no teacher was given.
   */
  lemma SaveInCellWrites(store: seq<Session>, index: nat, ts: seq<Teacher>, skill: Id, day: string, slot: string,
                         teacherId: Option<int>)
    requires index < |store| && day in DAY_SHORT
    ensures var r := SaveInCell(store, index, ts, skill, day, slot, teacherId);
      r.Saved? ==>
        && r.index == index && |r.store| == |store|
        && (forall p :: 0 <= p < |store| && p != index ==> r.store[p] == store[p])
        && r.store[index] == store[index].(requiredSkill := skill, assignedTeacher := r.store[index].assignedTeacher)
        && (r.store[index].assignedTeacher.Some? <==> TeacherGiven(teacherId))
        && (TeacherGiven(teacherId) ==> r.store[index].assignedTeacher.value == teacherId.value)
        && (r.store[index].assignedTeacher.Some? ==>
              !HourTaken(store, index, day, slot, r.store[index].assignedTeacher.value))
  {
  }

  /** The cell's session of a successful save, and the store the route wrote it to. */
  lemma SaveUnfold(ss: seq<Session>, ts: seq<Teacher>, ks: seq<Skill>, day: string, slot: string, yearGroup: string,
                   skillId: Option<int>, teacherId: Option<int>) returns (res: CellLookup, skill: Id)
    requires IdsIncreasing(ss) && Save(ss, ts, ks, day, slot, yearGroup, skillId, teacherId).Saved?
    ensures skillId == Some(skill) && day in DAY_SHORT
    ensures res == GetOrCreate(ss, day, slot, yearGroup, skill) && res.index < |res.store|
    ensures Save(ss, ts, ks, day, slot, yearGroup, skillId, teacherId) == SaveInCell(res.store, res.index, ts, skill, day, slot, teacherId)
  {
    skill := FormSkill(ks, skillId).value.id;
    res := GetOrCreate(ss, day, slot, yearGroup, skill);
    GetOrCreateCell(ss, day, slot, yearGroup, skill);
    MemberIn(WEEK_DAYS, day);
    WeekDaysShort();
  }

  /**
   * After a save the cell has exactly one session, at the returned index,
   * requiring the chosen skill and holding the chosen teacher, or none when
   * no teacher was given; the rows outside the cell are as they were.
   */
  lemma SaveCell(ss: seq<Session>, ts: seq<Teacher>, ks: seq<Skill>, day: string, slot: string, yearGroup: string,
                 skillId: Option<int>, teacherId: Option<int>)
    requires IdsIncreasing(ss)
    ensures var r, c := Save(ss, ts, ks, day, slot, yearGroup, skillId, teacherId), Cell(Some(day), slot, Some(yearGroup));
      r.Saved? ==>
        && r.index < |r.store| && CellOf(r.store[r.index]) == c
        && (forall p :: 0 <= p < |r.store| && CellOf(r.store[p]) == c ==> p == r.index)
        && skillId == Some(r.store[r.index].requiredSkill)
        && (r.store[r.index].assignedTeacher.Some? <==> TeacherGiven(teacherId))
        && (TeacherGiven(teacherId) ==> r.store[r.index].assignedTeacher.value == teacherId.value)
        && OutsideCell(r.store, c) == OutsideCell(ss, c)
        && IdsIncreasing(r.store)
  {
    var r := Save(ss, ts, ks, day, slot, yearGroup, skillId, teacherId);
    if r.Saved? {
      var res, skill := SaveUnfold(ss, ts, ks, day, slot, yearGroup, skillId, teacherId);
      GetOrCreateCell(ss, day, slot, yearGroup, skill);
      SaveInCellCell(res.store, res.index, ts, skill, day, slot, yearGroup, teacherId);
    }
  }

  /** Writing the cell's one session keeps it the cell's one session and leaves the other rows alone. */
  lemma SaveInCellCell(store: seq<Session>, index: nat, ts: seq<Teacher>, skill: Id, day: string, slot: string,
                       yearGroup: string, teacherId: Option<int>)
    requires index < |store| && day in DAY_SHORT && IdsIncreasing(store)
    requires CellOf(store[index]) == Cell(Some(day), slot, Some(yearGroup))
    requires forall p :: 0 <= p < |store| && CellOf(store[p]) == CellOf(store[index]) ==> p == index
    ensures var r, c := SaveInCell(store, index, ts, skill, day, slot, teacherId), Cell(Some(day), slot, Some(yearGroup));
      r.Saved? ==>
        && r.index < |r.store| && CellOf(r.store[r.index]) == c
        && (forall p :: 0 <= p < |r.store| && CellOf(r.store[p]) == c ==> p == r.index)
        && r.store[r.index].requiredSkill == skill
        && OutsideCell(r.store, c) == OutsideCell(store, c)
        && IdsIncreasing(r.store)
  {
    var r, c := SaveInCell(store, index, ts, skill, day, slot, teacherId), CellOf(store[index]);
    if r.Saved? {
      SaveInCellWrites(store, index, ts, skill, day, slot, teacherId);
      SaveInCellIds(store, index, ts, skill, day, slot, teacherId);
      OutsideUpdate(store, c, index, r.store[index]);
      assert r.store == store[index := r.store[index]];
    }
  }

  /** The two checks before the cell lookup decide a save on their own. */
  lemma SaveEarly(ss: seq<Session>, ts: seq<Teacher>, ks: seq<Skill>, day: string, slot: string, yearGroup: string,
                  skillId: Option<int>, teacherId: Option<int>)
    requires IdsIncreasing(ss)
    ensures !ValidCoordinates(day, slot, yearGroup) ==> Save(ss, ts, ks, day, slot, yearGroup, skillId, teacherId) == Rejected(InvalidCoordinates)
    ensures ValidCoordinates(day, slot, yearGroup) && FormSkill(ks, skillId).None? ==>
      Save(ss, ts, ks, day, slot, yearGroup, skillId, teacherId) == Rejected(MissingSkill)
  {
  }

  /** Writing the cell keeps every id, so the ids stay increasing. */
  lemma SaveInCellIds(store: seq<Session>, index: nat, ts: seq<Teacher>, skill: Id, day: string, slot: string,
                      teacherId: Option<int>)
    requires index < |store| && day in DAY_SHORT && IdsIncreasing(store)
    ensures var r := SaveInCell(store, index, ts, skill, day, slot, teacherId);
      r.Saved? ==> IdsIncreasing(r.store)
  {
    var r := SaveInCell(store, index, ts, skill, day, slot, teacherId);
    if r.Saved? {
      SaveInCellWrites(store, index, ts, skill, day, slot, teacherId);
      assert forall p :: 0 <= p < |store| ==> r.store[p].id == store[p].id;
    }
  }

  /** A save never books a teacher twice in one hour, so a store with no double booking keeps none. */
  lemma SaveNoDoubleBooking(ss: seq<Session>, ts: seq<Teacher>, ks: seq<Skill>, day: string, slot: string, yearGroup: string,
                            skillId: Option<int>, teacherId: Option<int>)
    requires IdsIncreasing(ss) && NoDoubleBooking(ss)
    ensures var r := Save(ss, ts, ks, day, slot, yearGroup, skillId, teacherId);
      r.Saved? ==> NoDoubleBooking(r.store)
  {
    var r := Save(ss, ts, ks, day, slot, yearGroup, skillId, teacherId);
    if r.Saved? {
      var res, skill := SaveUnfold(ss, ts, ks, day, slot, yearGroup, skillId, teacherId);
      GetOrCreateCell(ss, day, slot, yearGroup, skill);
      GetOrCreateFrom(ss, day, slot, yearGroup, skill);
      SaveInCellWrites(res.store, res.index, ts, skill, day, slot, teacherId);
      WrittenNoDoubleBooking(ss, res.store, res.index, r.store, day, slot);
    }
  }

  /** Writing one row whose teacher is free in its hour, over rows taken from a store with no double booking. */
  lemma WrittenNoDoubleBooking(ss: seq<Session>, store: seq<Session>, k: nat, s': seq<Session>, day: string, slot: string)
    requires NoDoubleBooking(ss) && k < |store| && |s'| == |store|
    requires forall p :: 0 <= p < |store| && p != k ==> store[p] in ss && s'[p] == store[p]
    requires AtHour(s'[k], day, slot)
    requires s'[k].assignedTeacher.Some? ==> !HourTaken(store, k, day, slot, s'[k].assignedTeacher.value)
    ensures NoDoubleBooking(s')
  {
    forall a, b | a in s' && b in s' && a.id != b.id && SameHour(a, b) && a.assignedTeacher.Some?
      ensures a.assignedTeacher != b.assignedTeacher
    {
      var pa :| 0 <= pa < |s'| && s'[pa] == a;
      var pb :| 0 <= pb < |s'| && s'[pb] == b;
      if pa != k && pb != k {
        assert a in ss && b in ss;
      }
    }
  }

  /** Teachers are told apart by id: the table's primary key. */
  ghost predicate TeacherIdsUnique(ts: seq<Teacher>)
  {
    forall i, j :: 0 <= i < j < |ts| ==> ts[i].id != ts[j].id
  }

  /** With unique ids, the teacher found by id is the only teacher with that id. */
  lemma {:induction false} FindTeacherUnique(ts: seq<Teacher>, id: int, t: Teacher)
    requires TeacherIdsUnique(ts) && t in ts && t.id == id
    ensures FindTeacher(ts, id) == Some(t)
  {
    if ts[0] != t {
      assert t in ts[1..];
      assert ts[0].id != id;
      assert TeacherIdsUnique(ts[1..]) by {
        forall i, j | 0 <= i < j < |ts[1..]| ensures ts[1..][i].id != ts[1..][j].id {
          assert ts[1..][i] == ts[i + 1] && ts[1..][j] == ts[j + 1];
        }
      }
      FindTeacherUnique(ts[1..], id, t);
    }
  }

  // ---------------------------------------------------------------- clear_grid_session

  /** A clear deletes the cell's sessions and says how many, or finds none and changes nothing. */
  datatype ClearOutcome = CellCleared(store: seq<Session>, removed: nat) | NothingToClear

  /**
   * `clear_grid_session`: every session whose day, slot and year group equal
   * the form's is deleted. The coordinates are not checked against the
   * vocabulary; an empty match is an error.
   */
  function ClearCell(ss: seq<Session>, day: string, slot: string, yearGroup: string): ClearOutcome
  {
    var c := Cell(Some(day), slot, Some(yearGroup));
    if CellCount(ss, c) == 0 then NothingToClear else CellCleared(OutsideCell(ss, c), CellCount(ss, c))
  }

  /** No session is in the cell exactly when the count of its sessions is zero. */
  lemma {:induction false} CellCountZero(ss: seq<Session>, c: Cell)
    ensures CellCount(ss, c) == 0 <==> forall s :: s in ss ==> CellOf(s) != c
  {
    if ss != [] {
      CellCountZero(ss[1..], c);
      assert forall s :: s in ss <==> s == ss[0] || s in ss[1..];
    }
  }

  /** Every row outside the cell is kept. */
  lemma {:induction false} OutsideKeeps(ss: seq<Session>, c: Cell)
    ensures forall s :: s in ss && CellOf(s) != c ==> s in OutsideCell(ss, c)
  {
    if ss != [] {
      OutsideKeeps(ss[1..], c);
      assert forall s :: s in ss <==> s == ss[0] || s in ss[1..];
    }
  }

  /**
   * A clear is refused exactly when the cell has no session. Otherwise the
   * store keeps precisely the rows outside the cell, in order, and `removed`
   * is the number of rows deleted, at least one.
   */
  lemma ClearCellSpec(ss: seq<Session>, day: string, slot: string, yearGroup: string)
    requires IdsIncreasing(ss)
    ensures var r, c := ClearCell(ss, day, slot, yearGroup), Cell(Some(day), slot, Some(yearGroup));
      && (r.NothingToClear? <==> forall s :: s in ss ==> CellOf(s) != c)
      && (r.CellCleared? ==>
            && (forall s :: s in r.store <==> s in ss && CellOf(s) != c)
            && |r.store| + r.removed == |ss| && r.removed >= 1
            && IdsIncreasing(r.store))
  {
    var c := Cell(Some(day), slot, Some(yearGroup));
    var out := OutsideCell(ss, c);
    CellCountZero(ss, c);
    OutsideKeeps(ss, c);
    OutsideMembers(ss, c);
    OutsideNotInCell(ss, c);
    OutsideCount(ss, c);
    OutsideIds(ss, c);
    assert forall s :: s in out ==> CellOf(s) != c;
  }

  /** Clearing a cell twice: the second clear finds nothing. */
  lemma ClearTwice(ss: seq<Session>, day: string, slot: string, yearGroup: string)
    requires IdsIncreasing(ss)
    ensures var r := ClearCell(ss, day, slot, yearGroup);
      r.CellCleared? ==> ClearCell(r.store, day, slot, yearGroup) == NothingToClear
  {
    var c := Cell(Some(day), slot, Some(yearGroup));
    var r := ClearCell(ss, day, slot, yearGroup);
    if r.CellCleared? {
      ClearCellSpec(ss, day, slot, yearGroup);
      CellCountZero(r.store, c);
    }
  }

  // ---------------------------------------------------------------- delete_teacher

  datatype TeacherDeletion = TeacherDeleted(teachers: seq<Teacher>, store: seq<Session>) | NoSuchTeacher

  /** The bulk update: every session assigned to the teacher loses its teacher. */
  function Release(ss: seq<Session>, id: Id): seq<Session>
  {
    seq(|ss|, i requires 0 <= i < |ss| => if ss[i].assignedTeacher == Some(id) then ss[i].(assignedTeacher := None) else ss[i])
  }

  /** Which teachers stay: all but those with the id. */
  function OtherTeachers(ts: seq<Teacher>, id: Id): (r: seq<bool>)
    ensures |r| == |ts| && forall k :: 0 <= k < |ts| ==> (r[k] <==> ts[k].id != id)
  {
    seq(|ts|, k requires 0 <= k < |ts| => ts[k].id != id)
  }

  /** `delete_teacher`: a missing teacher is a not-found; otherwise release their sessions and delete them. */
  function DeleteTeacher(ts: seq<Teacher>, ss: seq<Session>, id: int): TeacherDeletion
  {
    var t := FindTeacher(ts, id);
    if t.None? then NoSuchTeacher
    else TeacherDeleted(Select(ts, OtherTeachers(ts, t.value.id)), Release(ss, t.value.id))
  }

  /**
   * Deleting a teacher fails exactly when no teacher has the id. Otherwise
   * no session refers to the teacher any more, the sessions that did lose
   * their teacher and nothing else, the other sessions are untouched, and
   * the teacher table keeps every other teacher.
   */
  lemma DeleteTeacherSpec(ts: seq<Teacher>, ss: seq<Session>, id: int)
    ensures var r := DeleteTeacher(ts, ss, id);
      && (r.NoSuchTeacher? <==> forall t :: t in ts ==> t.id != id)
      && (r.TeacherDeleted? ==>
            && |r.store| == |ss|
            && (forall i :: 0 <= i < |ss| ==> r.store[i].assignedTeacher.Some? ==> r.store[i].assignedTeacher.value != id)
            && (forall i :: 0 <= i < |ss| ==> r.store[i] == (if ss[i].assignedTeacher.Some? && ss[i].assignedTeacher.value == id
                                                             then ss[i].(assignedTeacher := None) else ss[i]))
            && (forall t :: t in r.teachers <==> t in ts && t.id != id))
  {
    var t := FindTeacher(ts, id);
    if t.Some? {
      SelectMembers(ts, OtherTeachers(ts, t.value.id));
      forall x | x in ts && x.id != id ensures exists k :: 0 <= k < |ts| && OtherTeachers(ts, t.value.id)[k] && ts[k] == x {
        var k :| 0 <= k < |ts| && ts[k] == x;
      }
    } else {
      assert forall x :: x in ts ==> x.id != id;
    }
  }

  /** Releasing sessions keeps ids, and cannot create a double booking. */
  lemma ReleaseKeeps(ss: seq<Session>, id: Id)
    ensures IdsIncreasing(ss) ==> IdsIncreasing(Release(ss, id))
    ensures NoDoubleBooking(ss) ==> NoDoubleBooking(Release(ss, id))
  {
    var r := Release(ss, id);
    assert forall i :: 0 <= i < |ss| ==> r[i].id == ss[i].id && SameHour(r[i], ss[i]);
    if NoDoubleBooking(ss) {
      forall a, b | a in r && b in r && a.id != b.id && SameHour(a, b) && a.assignedTeacher.Some?
        ensures a.assignedTeacher != b.assignedTeacher
      {
        var i :| 0 <= i < |r| && r[i] == a;
        var j :| 0 <= j < |r| && r[j] == b;
        assert ss[i] in ss && ss[j] in ss;
      }
    }
  }

  // ---------------------------------------------------------------- delete_skill

  datatype SkillDeletion = SkillDeleted(skills: seq<Skill>, teachers: seq<Teacher>) | NoSuchSkill | SkillInUse

  /** Which skills stay: all but those with the id. */
  function OtherSkills(ks: seq<Skill>, id: Id): (r: seq<bool>)
    ensures |r| == |ks| && forall k :: 0 <= k < |ks| ==> (r[k] <==> ks[k].id != id)
  {
    seq(|ks|, k requires 0 <= k < |ks| => ks[k].id != id)
  }

  /** `skill.required_sessions` is not empty: some session requires the skill. */
  predicate SkillRequired(ss: seq<Session>, id: Id)
  {
    exists i :: 0 <= i < |ss| && ss[i].requiredSkill == id
  }

  /**
   * `delete_skill`: a missing skill is a not-found; a skill some session
   * requires is refused; otherwise the skill goes, and with it every
   * teacher's link to it (the rows of the association table).
   */
  function DeleteSkill(ks: seq<Skill>, ts: seq<Teacher>, ss: seq<Session>, id: int): SkillDeletion
  {
    var k := FindSkill(ks, id);
    if k.None? then NoSuchSkill
    else if SkillRequired(ss, k.value.id) then SkillInUse
    else SkillDeleted(Select(ks, OtherSkills(ks, k.value.id)),
                      seq(|ts|, j requires 0 <= j < |ts| => ts[j].(skills := ts[j].skills - {k.value.id})))
  }

  /** Every session requires a skill of the skill table. */
  ghost predicate SkillsResolve(ss: seq<Session>, ks: seq<Skill>)
  {
    forall s :: s in ss ==> exists k :: k in ks && k.id == s.requiredSkill
  }

  /**
   * Deleting a skill is refused exactly when the skill exists and a session
   * requires it. Otherwise no teacher holds the skill any more, each teacher
   * keeps everything else, the skill table keeps every other skill, and every
   * session still requires an existing skill.
   */
  lemma DeleteSkillSpec(ks: seq<Skill>, ts: seq<Teacher>, ss: seq<Session>, id: int)
    ensures var r := DeleteSkill(ks, ts, ss, id);
      && (r.NoSuchSkill? <==> forall k :: k in ks ==> k.id != id)
      && (r.SkillInUse? <==> (exists k :: k in ks && k.id == id) && exists s :: s in ss && s.requiredSkill == id)
      && (r.SkillDeleted? ==>
            && |r.teachers| == |ts|
            && (forall j :: 0 <= j < |ts| ==> id !in r.teachers[j].skills)
            && (forall j :: 0 <= j < |ts| ==> r.teachers[j].(skills := ts[j].skills) == ts[j])
            && (forall j :: 0 <= j < |ts| ==> r.teachers[j].skills + (ts[j].skills * {id}) == ts[j].skills)
            && (forall k :: k in r.skills <==> k in ks && k.id != id)
            && (SkillsResolve(ss, ks) ==> SkillsResolve(ss, r.skills)))
  {
    var k := FindSkill(ks, id);
    if k.None? {
      assert forall x :: x in ks ==> x.id != id;
    } else {
      var flags := OtherSkills(ks, k.value.id);
      SelectMembers(ks, flags);
      forall x | x in ks && x.id != id ensures exists i :: 0 <= i < |ks| && flags[i] && ks[i] == x {
        var i :| 0 <= i < |ks| && ks[i] == x;
      }
      if SkillRequired(ss, k.value.id) {
        var i :| 0 <= i < |ss| && ss[i].requiredSkill == k.value.id;
        assert ss[i] in ss;
      } else {
        assert forall s :: s in ss ==> s.requiredSkill != id;
      }
    }
  }
}
