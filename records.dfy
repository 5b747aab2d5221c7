/**
 * The rows of the three tables the engine works on (teachers, skills and
 * sessions), the grid-vocabulary filter over sessions, the position of a grid
 * session in the week, and the store-wide orderings the engine relies on.
 */
module Records {
  import opened Vocabulary
  import opened Selection

  datatype Option<T> = None | Some(value: T)

  /** Primary keys. They start at 1, so a key is never mistaken for "absent" by a truth test. */
  type Id = n: int | n >= 1 witness 1

  datatype Teacher = Teacher(id: Id, name: string, freeSlots: string, skills: set<Id>)

  datatype Skill = Skill(id: Id, name: string)

  /** A session row; `day` and `yearGroup` are nullable columns, `slot` is not. */
  datatype Session = Session(
    id: Id,
    requiredSkill: Id,
    day: Option<string>,
    slot: string,
    yearGroup: Option<string>,
    assignedTeacher: Option<Id>)

  /** `grid_sessions_query`: day, slot and year group all belong to the fixed vocabulary. */
  predicate InGrid(s: Session)
  {
    && s.day.Some? && Member(WEEK_DAYS, s.day.value)
    && Member(TEACHING_SLOTS, s.slot)
    && s.yearGroup.Some? && Member(YEAR_GROUPS, s.yearGroup.value)
  }

  /** The coordinates of a session in the grid: the key of `by_cell` and of the view's lookup. */
  datatype Cell = Cell(day: Option<string>, slot: string, yearGroup: Option<string>)

  function CellOf(s: Session): Cell
  {
    Cell(s.day, s.slot, s.yearGroup)
  }

  /** The session sits in the cell (day, slot, yearGroup): an equality filter on the three columns. */
  predicate AtCell(s: Session, day: string, slot: string, yearGroup: string)
  {
    CellOf(s) == Cell(Some(day), slot, Some(yearGroup))
  }

  /** The session is taught in the hour (day, slot), whatever its year group. */
  predicate AtHour(s: Session, day: string, slot: string)
  {
    s.day == Some(day) && s.slot == slot
  }

  predicate SameCell(a: Session, b: Session)
  {
    CellOf(a) == CellOf(b)
  }

  predicate SameHour(a: Session, b: Session)
  {
    a.day == b.day && a.slot == b.slot
  }

  /** Which rows of the store are grid sessions. */
  function GridFlags(ss: seq<Session>): (r: seq<bool>)
    ensures |r| == |ss| && forall k :: 0 <= k < |ss| ==> (r[k] <==> InGrid(ss[k]))
  {
    seq(|ss|, k requires 0 <= k < |ss| => InGrid(ss[k]))
  }

  /** The grid sessions, in store order. */
  function GridSessions(ss: seq<Session>): seq<Session>
  {
    Select(ss, GridFlags(ss))
  }

  /** The filter keeps exactly the grid sessions of the store, and as many of them as there are flags set. */
  lemma GridSessionsMembers(ss: seq<Session>)
    ensures forall s :: s in GridSessions(ss) <==> s in ss && InGrid(s)
    ensures |GridSessions(ss)| == Count(GridFlags(ss)) <= |ss|
  {
    SelectMembers(ss, GridFlags(ss));
    SelectChosen(ss, GridFlags(ss));
    CountBound(GridFlags(ss));
  }

  /** A store holding only grid sessions passes the filter whole. */
  lemma GridSessionsOfGrid(ss: seq<Session>)
    requires forall k :: 0 <= k < |ss| ==> InGrid(ss[k])
    ensures GridSessions(ss) == ss
  {
    SelectAll(ss, GridFlags(ss));
  }

  lemma GridSessionsIdempotent(ss: seq<Session>)
    ensures GridSessions(GridSessions(ss)) == GridSessions(ss)
  {
    var g := GridSessions(ss);
    GridSessionsMembers(ss);
    forall k | 0 <= k < |g| ensures InGrid(g[k]) {
      assert g[k] in g;
    }
    GridSessionsOfGrid(g);
  }

  /** A grid session's coordinates belong to the vocabulary lists. */
  lemma InGridMembers(s: Session)
    requires InGrid(s)
    ensures s.day.value in WEEK_DAYS && s.slot in TEACHING_SLOTS && s.yearGroup.value in YEAR_GROUPS
  {
    MemberIn(WEEK_DAYS, s.day.value);
    MemberIn(TEACHING_SLOTS, s.slot);
    MemberIn(YEAR_GROUPS, s.yearGroup.value);
  }

  /** The allocator's sort key `(day_order[day], slot_order[slot], year_order[year_group])`. */
  function SortKey(s: Session): (nat, nat, nat)
    requires InGrid(s)
  {
    InGridMembers(s);
    (IndexOf(WEEK_DAYS, s.day.value), IndexOf(TEACHING_SLOTS, s.slot), IndexOf(YEAR_GROUPS, s.yearGroup.value))
  }

  /** The sort key packed into one number: 5 days, 6 slots and 5 year groups. */
  function Rank(s: Session): (r: nat)
    requires InGrid(s)
    ensures r < 150
  {
    VocabularySizes();
    var (d, t, y) := SortKey(s);
    (d * 6 + t) * 5 + y
  }

  /** Comparing ranks is comparing the key triples lexicographically. */
  lemma RankOrder(a: Session, b: Session)
    requires InGrid(a) && InGrid(b)
    ensures Rank(a) < Rank(b) <==>
      var (da, ta, ya) := SortKey(a);
      var (db, tb, yb) := SortKey(b);
      da < db || (da == db && (ta < tb || (ta == tb && ya < yb)))
  {
    VocabularySizes();
  }

  /** Equal ranks mean the same cell. */
  lemma RankSameCell(a: Session, b: Session)
    requires InGrid(a) && InGrid(b)
    ensures Rank(a) == Rank(b) <==> SameCell(a, b)
  {
    var (da, ta, ya) := SortKey(a);
    var (db, tb, yb) := SortKey(b);
    if Rank(a) == Rank(b) {
      RankOrder(a, b);
      RankOrder(b, a);
      assert da == db && ta == tb && ya == yb;
      assert a.day.value == WEEK_DAYS[da] == b.day.value;
      assert a.slot == TEACHING_SLOTS[ta] == b.slot;
      assert a.yearGroup.value == YEAR_GROUPS[ya] == b.yearGroup.value;
    }
  }

  /** Session ids strictly increase along the store: store order is id order. */
  predicate IdsIncreasing(ss: seq<Session>)
  {
    forall i, j :: 0 <= i < j < |ss| ==> ss[i].id < ss[j].id
  }

  /** The id the database hands out next: one more than the largest. */
  function NextId(ss: seq<Session>): (r: Id)
    requires IdsIncreasing(ss)
    ensures forall i :: 0 <= i < |ss| ==> ss[i].id < r
  {
    if ss == [] then 1 else ss[|ss| - 1].id + 1
  }

  /** The teacher with the given key, if any. */
  function FindTeacher(ts: seq<Teacher>, id: int): (r: Option<Teacher>)
    ensures r.Some? ==> r.value in ts && r.value.id == id
    ensures r.None? ==> forall k :: 0 <= k < |ts| ==> ts[k].id != id
  {
    if ts == [] then None
    else if ts[0].id == id then Some(ts[0])
    else FindTeacher(ts[1..], id)
  }

  /** The skill with the given key, if any. */
  function FindSkill(ks: seq<Skill>, id: int): (r: Option<Skill>)
    ensures r.Some? ==> r.value in ks && r.value.id == id
    ensures r.None? ==> forall k :: 0 <= k < |ks| ==> ks[k].id != id
  {
    if ks == [] then None
    else if ks[0].id == id then Some(ks[0])
    else FindSkill(ks[1..], id)
  }
}
