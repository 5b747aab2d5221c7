/**
 * The read-only grid view (`build_schedule`): for every weekday, every time
 * row and every year group, the session found in that cell and, for every
 * teacher, whether the editor may offer them there. It is a function of the
 * teachers and the sessions, so building it changes neither.
 */
module Schedule {
  import opened Vocabulary
  import opened Records
  import opened Availability
  import opened Grid

  /** One teacher as offered in one cell. */
  datatype TeacherOption = TeacherOption(
    id: Id,
    name: string,
    selected: bool,
    available: bool,
    busy: bool,
    hasSkill: bool,
    selectable: bool)

  /** One cell of the grid, with the session found there, if any. */
  datatype CellView = CellView(
    yearGroup: string,
    day: string,
    slot: string,
    sessionId: Option<Id>,
    requiredSkill: Option<Id>,
    assignedTeacher: Option<Id>,
    assignedTeacherName: Option<string>,
    options: seq<TeacherOption>)

  datatype RowView = RowView(isLunch: bool, slot: string, cells: seq<CellView>)

  datatype DayView = DayView(day: string, rows: seq<RowView>)

  /**
   * `session_lookup.get((day, slot, year_group))`: the lookup is a dictionary
   * filled in store order, so of several grid sessions in one cell the last
   * one is found.
   */
  function Lookup(ss: seq<Session>, day: string, slot: string, yearGroup: string): (r: Option<Session>)
    ensures r.Some? ==> r.value in ss && InGrid(r.value) && AtCell(r.value, day, slot, yearGroup)
    ensures r.None? ==> forall s :: s in ss && InGrid(s) ==> !AtCell(s, day, slot, yearGroup)
  {
    if ss == [] then None
    else
      var n := |ss| - 1;
      if InGrid(ss[n]) && AtCell(ss[n], day, slot, yearGroup) then Some(ss[n])
      else
        var r := Lookup(ss[..n], day, slot, yearGroup);
        assert forall s :: s in ss ==> s in ss[..n] || s == ss[n];
        r
  }

  /** The session found is a grid session of the cell, and no later row of the store is one. */
  lemma {:induction false} LookupLast(ss: seq<Session>, day: string, slot: string, yearGroup: string) returns (k: nat)
    requires Lookup(ss, day, slot, yearGroup).Some?
    ensures k < |ss| && Lookup(ss, day, slot, yearGroup) == Some(ss[k])
    ensures forall j :: k < j < |ss| ==> !(InGrid(ss[j]) && AtCell(ss[j], day, slot, yearGroup))
  {
    var n := |ss| - 1;
    if InGrid(ss[n]) && AtCell(ss[n], day, slot, yearGroup) {
      k := n;
    } else {
      k := LookupLast(ss[..n], day, slot, yearGroup);
      assert ss[..n][k] == ss[k];
      forall j | k < j < |ss| ensures !(InGrid(ss[j]) && AtCell(ss[j], day, slot, yearGroup)) {
        if j < n {
          assert ss[..n][j] == ss[j];
        }
      }
    }
  }

  /** `busy_at_slot[(day, slot)]`: the teachers of the grid sessions taught in that hour. */
  function BusyIds(ss: seq<Session>, day: string, slot: string): (r: set<Id>)
    ensures forall id :: id in r <==> exists s :: s in ss && InGrid(s) && AtHour(s, day, slot) && s.assignedTeacher == Some(id)
  {
    set s | s in ss && InGrid(s) && AtHour(s, day, slot) && s.assignedTeacher.Some? :: s.assignedTeacher.value
  }

  /** The teacher of the session found in a cell, or none. */
  function CurrentTeacher(existing: Option<Session>): Option<Id>
  {
    if existing.Some? then existing.value.assignedTeacher else None
  }

  /** The skill the session found in a cell requires, or none when the cell is empty. */
  function RequiredSkill(existing: Option<Session>): Option<Id>
  {
    if existing.Some? then Some(existing.value.requiredSkill) else None
  }

  /** One teacher's entry in a cell of the hour (day, slot). */
  function OptionFor(t: Teacher, day: string, slot: string, busyNow: set<Id>, existing: Option<Session>): TeacherOption
    requires day in DAY_SHORT
  {
    var current := CurrentTeacher(existing);
    var required := RequiredSkill(existing);
    var available := TeacherIsAvailableForSlot(TeacherSlotTokens(t), day, slot);
    var busy := t.id in busyNow && Some(t.id) != current;
    var hasSkill := required.None? || required.value in t.skills;
    TeacherOption(t.id, t.name, Some(t.id) == current, available, busy, hasSkill, available && !busy && hasSkill)
  }

  /** The name of the assigned teacher, looked up among the teachers. */
  function TeacherName(ts: seq<Teacher>, id: Option<Id>): Option<string>
  {
    if id.None? then None
    else
      var t := FindTeacher(ts, id.value);
      if t.Some? then Some(t.value.name) else None
  }

  /** One cell: the session found there and one option per teacher, in the teachers' order. */
  function CellFor(ts: seq<Teacher>, ss: seq<Session>, day: string, slot: string, yearGroup: string): CellView
    requires day in DAY_SHORT
  {
    var existing := Lookup(ss, day, slot, yearGroup);
    var busyNow := BusyIds(ss, day, slot);
    var options := seq(|ts|, m requires 0 <= m < |ts| => OptionFor(ts[m], day, slot, busyNow, existing));
    CellView(yearGroup, day, slot,
      if existing.Some? then Some(existing.value.id) else None,
      RequiredSkill(existing), CurrentTeacher(existing), TeacherName(ts, CurrentTeacher(existing)), options)
  }

  /** One time row of a day: the lunch row has no cells, the others one per year group. */
  function RowFor(ts: seq<Teacher>, ss: seq<Session>, day: string, row: TimeRow): RowView
    requires day in DAY_SHORT
  {
    if row.isLunch then RowView(true, row.slot, [])
    else RowView(false, row.slot, seq(|YEAR_GROUPS|, j requires 0 <= j < |YEAR_GROUPS| => CellFor(ts, ss, day, row.slot, YEAR_GROUPS[j])))
  }

  function DayFor(ts: seq<Teacher>, ss: seq<Session>, day: string): DayView
    requires day in DAY_SHORT
  {
    DayView(day, seq(|TIME_ROWS|, k requires 0 <= k < |TIME_ROWS| => RowFor(ts, ss, day, TIME_ROWS[k])))
  }

  /** `build_schedule`: one day view per weekday, in week order. */
  function BuildSchedule(ts: seq<Teacher>, ss: seq<Session>): seq<DayView>
  {
    WeekDaysShort();
    seq(|WEEK_DAYS|, i requires 0 <= i < |WEEK_DAYS| => DayFor(ts, ss, WEEK_DAYS[i]))
  }

  /** A cell sits at its own day, slot and year group and lists every teacher once, in the teachers' order. */
  predicate CellShaped(ts: seq<Teacher>, c: CellView, day: string, slot: string, yearGroup: string)
  {
    && c.yearGroup == yearGroup && c.day == day && c.slot == slot
    && |c.options| == |ts|
    && forall m :: 0 <= m < |ts| ==> c.options[m].id == ts[m].id && c.options[m].name == ts[m].name
  }

  /** A row has the time row's slot; the lunch row has no cells, every other row one per year group in order. */
  predicate RowShaped(ts: seq<Teacher>, row: RowView, day: string, tr: TimeRow)
  {
    && row.slot == tr.slot && row.isLunch == tr.isLunch
    && (row.isLunch ==> row.cells == [])
    && (!row.isLunch ==> |row.cells| == |YEAR_GROUPS|)
    && forall j :: 0 <= j < |row.cells| ==> j < |YEAR_GROUPS| && CellShaped(ts, row.cells[j], day, tr.slot, YEAR_GROUPS[j])
  }

  /**
   * The shape of the view: the five weekdays in order; in each, the seven
   * time rows in order; the lunch row without cells; every other row with
   * one cell per year group in order, each cell at its own day, slot and
   * year group; and every cell listing every teacher once, in the teachers'
   * order.
   */
  lemma ScheduleShape(ts: seq<Teacher>, ss: seq<Session>)
    ensures var v := BuildSchedule(ts, ss);
      && |v| == |WEEK_DAYS| == 5
      && forall i :: 0 <= i < |v| ==>
        && v[i].day == WEEK_DAYS[i]
        && |v[i].rows| == |TIME_ROWS| == 7
        && forall k :: 0 <= k < |TIME_ROWS| ==> RowShaped(ts, v[i].rows[k], WEEK_DAYS[i], TIME_ROWS[k])
  {
    VocabularySizes();
    WeekDaysShort();
    var v := BuildSchedule(ts, ss);
    forall i | 0 <= i < |v|
      ensures v[i].day == WEEK_DAYS[i] && |v[i].rows| == |TIME_ROWS|
      ensures forall k :: 0 <= k < |TIME_ROWS| ==> RowShaped(ts, v[i].rows[k], WEEK_DAYS[i], TIME_ROWS[k])
    {
      assert WEEK_DAYS[i] in DAY_SHORT && v[i] == DayFor(ts, ss, WEEK_DAYS[i]);
      DayShape(ts, ss, WEEK_DAYS[i]);
    }
  }

  lemma DayShape(ts: seq<Teacher>, ss: seq<Session>, day: string)
    requires day in DAY_SHORT
    ensures var d := DayFor(ts, ss, day);
      && d.day == day && |d.rows| == |TIME_ROWS|
      && forall k :: 0 <= k < |TIME_ROWS| ==> RowShaped(ts, d.rows[k], day, TIME_ROWS[k])
  {
    var d := DayFor(ts, ss, day);
    forall k | 0 <= k < |TIME_ROWS| ensures RowShaped(ts, d.rows[k], day, TIME_ROWS[k]) {
      RowShape(ts, ss, day, TIME_ROWS[k]);
    }
  }

  /** Every row the view builds has its shape. */
  lemma RowShape(ts: seq<Teacher>, ss: seq<Session>, day: string, tr: TimeRow)
    requires day in DAY_SHORT
    ensures RowShaped(ts, RowFor(ts, ss, day, tr), day, tr)
  {
    var row := RowFor(ts, ss, day, tr);
    if !tr.isLunch {
      forall j | 0 <= j < |row.cells| ensures j < |YEAR_GROUPS| && CellShaped(ts, row.cells[j], day, tr.slot, YEAR_GROUPS[j]) {
        CellShape(ts, ss, day, tr.slot, YEAR_GROUPS[j]);
      }
    }
  }

  lemma CellShape(ts: seq<Teacher>, ss: seq<Session>, day: string, slot: string, yearGroup: string)
    requires day in DAY_SHORT
    ensures CellShaped(ts, CellFor(ts, ss, day, slot, yearGroup), day, slot, yearGroup)
  {
  }

  /**
   * What a cell shows: a session exactly when the store has a grid session
   * in that cell, and then the last such row's id, skill and teacher.
   */
  lemma CellSession(ts: seq<Teacher>, ss: seq<Session>, day: string, slot: string, yearGroup: string)
    requires day in DAY_SHORT
    ensures var c := CellFor(ts, ss, day, slot, yearGroup);
      && (c.sessionId.Some? <==> exists s :: s in ss && InGrid(s) && AtCell(s, day, slot, yearGroup))
      && (c.sessionId.None? ==> c.requiredSkill.None? && c.assignedTeacher.None? && c.assignedTeacherName.None?)
      && (c.sessionId.Some? ==>
            exists k :: && 0 <= k < |ss| && InGrid(ss[k]) && AtCell(ss[k], day, slot, yearGroup)
                        && c.sessionId == Some(ss[k].id) && c.requiredSkill == Some(ss[k].requiredSkill)
                        && c.assignedTeacher == ss[k].assignedTeacher
                        && forall j :: k < j < |ss| ==> !(InGrid(ss[j]) && AtCell(ss[j], day, slot, yearGroup)))
  {
    if Lookup(ss, day, slot, yearGroup).Some? {
      var k := LookupLast(ss, day, slot, yearGroup);
    }
  }

  /**
   * The rules for one teacher in one cell: offered only when available,
   * not busy and skilled; busy when another grid session of the hour has
   * them, except in the cell they hold themselves; skilled when the cell
   * requires no skill or they have the required one.
   */
  lemma OptionRules(ts: seq<Teacher>, ss: seq<Session>, day: string, slot: string, yearGroup: string, m: nat)
    requires day in DAY_SHORT && m < |ts|
    ensures var c := CellFor(ts, ss, day, slot, yearGroup);
      var o, t := c.options[m], ts[m];
      && (o.selectable <==> o.available && !o.busy && o.hasSkill)
      && (o.available <==> TeacherIsAvailableForSlot(TeacherSlotTokens(t), day, slot))
      && (o.selected <==> c.assignedTeacher == Some(t.id))
      && (o.busy ==> c.assignedTeacher != Some(t.id))
      && (o.busy <==>
            && c.assignedTeacher != Some(t.id)
            && exists s :: s in ss && InGrid(s) && AtHour(s, day, slot) && s.assignedTeacher == Some(t.id))
      && (c.requiredSkill.None? ==> o.hasSkill)
      && (o.hasSkill <==> c.requiredSkill.None? || c.requiredSkill.value in t.skills)
  {
  }

  /** On a clean grid two grid sessions in one cell, or with one teacher in one hour, are the same row. */
  lemma CleanPairs(ss: seq<Session>, a: Session, b: Session)
    requires CleanGrid(ss) && a in ss && b in ss && InGrid(a) && InGrid(b)
    ensures SameCell(a, b) ==> a == b
    ensures SameHour(a, b) && a.assignedTeacher.Some? && a.assignedTeacher == b.assignedTeacher ==> a == b
  {
    var i :| 0 <= i < |ss| && ss[i] == a;
    var j :| 0 <= j < |ss| && ss[j] == b;
    if i < j {
      assert HourKey(ss[i]) != HourKey(ss[j]) || a.assignedTeacher.None?;
    } else if j < i {
      assert HourKey(ss[j]) != HourKey(ss[i]) || b.assignedTeacher.None?;
    }
  }

  /**
   * On a clean store a teacher is busy in a cell exactly when they hold a
   * grid session of the same hour in another year group.
   */
  lemma BusyElsewhere(ts: seq<Teacher>, ss: seq<Session>, day: string, slot: string, yearGroup: string, m: nat)
    requires day in DAY_SHORT && m < |ts| && CleanGrid(ss)
    ensures CellFor(ts, ss, day, slot, yearGroup).options[m].busy <==>
      exists s :: s in ss && InGrid(s) && AtHour(s, day, slot) && s.assignedTeacher == Some(ts[m].id) && s.yearGroup != Some(yearGroup)
  {
    OptionRules(ts, ss, day, slot, yearGroup, m);
    BusyOther(ss, day, slot, yearGroup, ts[m].id);
  }

  lemma BusyOther(ss: seq<Session>, day: string, slot: string, yearGroup: string, id: Id)
    requires CleanGrid(ss)
    ensures (id in BusyIds(ss, day, slot) && CurrentTeacher(Lookup(ss, day, slot, yearGroup)) != Some(id)) <==>
      exists s :: s in ss && InGrid(s) && AtHour(s, day, slot) && s.assignedTeacher == Some(id) && s.yearGroup != Some(yearGroup)
  {
    var existing := Lookup(ss, day, slot, yearGroup);
    if id in BusyIds(ss, day, slot) && CurrentTeacher(existing) != Some(id) {
      var s :| s in ss && InGrid(s) && AtHour(s, day, slot) && s.assignedTeacher == Some(id);
      if s.yearGroup == Some(yearGroup) {
        CleanPairs(ss, s, existing.value);
      }
    }
    if exists s :: s in ss && InGrid(s) && AtHour(s, day, slot) && s.assignedTeacher == Some(id) && s.yearGroup != Some(yearGroup) {
      var s :| s in ss && InGrid(s) && AtHour(s, day, slot) && s.assignedTeacher == Some(id) && s.yearGroup != Some(yearGroup);
      if existing.Some? && existing.value.assignedTeacher == Some(id) {
        CleanPairs(ss, existing.value, s);
      }
    }
  }
}
