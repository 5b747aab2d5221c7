/**
 * The loops of `allocate_sessions`, on values: the inner loop that collects
 * the free teachers of one session, the pick of the least-loaded one, and
 * the two passes over the grid sessions. Each is proved to compute what the
 * allocation specification says; the store class runs them on its rows.
 */
module Allocator {
  import opened Text
  import opened Selection
  import opened Records
  import opened Availability
  import opened Allocation

  /** `busy_at_slot[(day, slot)]`, a dictionary with an empty default. */
  function BusyAt(busy: map<(Option<string>, string), set<Id>>, s: Session): set<Id>
  {
    if (s.day, s.slot) in busy then busy[(s.day, s.slot)] else {}
  }

  /** `assigned_count[id]`, zero for a teacher not counted yet. */
  function CountOf(count: map<Id, nat>, id: Id): nat
  {
    if id in count then count[id] else 0
  }

  /** The dictionaries agree with the choices made so far for the visited rows. */
  ghost predicate Tallied(busy: map<(Option<string>, string), set<Id>>, count: map<Id, nat>,
                          rows: seq<Session>, cs: seq<Option<Id>>)
    requires |cs| <= |rows|
  {
    && (forall s: Session, id: Id :: id in BusyAt(busy, s) <==> Busy(rows, cs, s, id))
    && (forall id: Id :: CountOf(count, id) == Load(cs, id))
  }

  /** Recording the choice for the next row keeps the dictionaries in step. */
  lemma TalliedStep(busy: map<(Option<string>, string), set<Id>>, count: map<Id, nat>,
                    rows: seq<Session>, cs: seq<Option<Id>>, x: Option<Id>)
    requires |cs| < |rows| && Tallied(busy, count, rows, cs)
    ensures var s := rows[|cs|];
      var busy' := if x.Some? then busy[(s.day, s.slot) := BusyAt(busy, s) + {x.value}] else busy;
      var count' := if x.Some? then count[x.value := CountOf(count, x.value) + 1] else count;
      Tallied(busy', count', rows, cs + [x])
  {
    var s, cs' := rows[|cs|], cs + [x];
    var busy' := if x.Some? then busy[(s.day, s.slot) := BusyAt(busy, s) + {x.value}] else busy;
    var count' := if x.Some? then count[x.value := CountOf(count, x.value) + 1] else count;
    assert cs'[..|cs|] == cs;
    forall u: Session, id: Id ensures id in BusyAt(busy', u) <==> Busy(rows, cs', u, id) {
      if Busy(rows, cs', u, id) {
        var p :| 0 <= p < |cs'| && SameHour(rows[p], u) && cs'[p] == Some(id);
        if p < |cs| {
          assert Busy(rows, cs, u, id);
        }
      }
      if id in BusyAt(busy, u) {
        var p :| 0 <= p < |cs| && SameHour(rows[p], u) && cs[p] == Some(id);
        assert cs'[p] == cs[p];
      }
      if x == Some(id) && SameHour(s, u) {
        assert cs'[|cs|] == x;
      }
    }
  }

  /**
   * The inner loop over the teachers (in name order): a teacher is a match
   * when they have the skill, list the hour, and are not busy in it.
   */
  method FreeTeachers(ts: seq<Teacher>, s: Session, busyNow: set<Id>, ghost rows: seq<Session>, ghost cs: seq<Option<Id>>)
      returns (matches: seq<Teacher>)
    requires InGrid(s) && |cs| <= |rows|
    requires forall id :: id in busyNow <==> Busy(rows, cs, s, id)
    ensures matches == Candidates(Eligible, ts, rows, cs, s)
  {
    ghost var flags := FreeFlags(Eligible, ts, rows, cs, s);
    matches := [];
    for k := 0 to |ts|
      invariant matches == Select(ts[..k], flags[..k])
    {
      SelectPrefix(ts, flags, k);
      var free := IsFree(ts[k], s, busyNow, rows, cs);
      if free {
        matches := matches + [ts[k]];
      }
    }
    assert ts[..|ts|] == ts && flags[..|flags|] == flags;
  }

  /** The three tests of the inner loop, in order, on one teacher. */
  method IsFree(t: Teacher, s: Session, busyNow: set<Id>, ghost rows: seq<Session>, ghost cs: seq<Option<Id>>)
      returns (free: bool)
    requires InGrid(s) && |cs| <= |rows|
    requires forall id :: id in busyNow <==> Busy(rows, cs, s, id)
    ensures free == Free(Eligible, rows, cs, s, t)
  {
    EligibleInGrid(t, s);
    if s.requiredSkill !in t.skills {
      return false;
    }
    if !TeacherIsAvailableForSlot(TeacherSlotTokens(t), s.day.value, s.slot) {
      return false;
    }
    if t.id in busyNow {
      return false;
    }
    return true;
  }

  /** The first candidate whose key is least is the one `Best` names. */
  lemma BestUnique(cs: seq<Option<Id>>, cands: seq<Teacher>, j: nat)
    requires j < |cands|
    requires forall k :: 0 <= k < |cands| ==> !KeyLess(cs, cands[k], cands[j])
    requires forall k :: 0 <= k < j ==> KeyLess(cs, cands[j], cands[k])
    ensures j == Best(cs, cands)
  {
    var b := Best(cs, cands);
    assert !(j < b) && !(b < j);
  }

  /**
   * `matches.sort(key=lambda t: (assigned_count[t.id], t.name.lower()))[0]`,
   * as a scan that keeps the first match with the least key, which is what
   * the stable sort puts first.
   */
  method LeastLoaded(matches: seq<Teacher>, count: map<Id, nat>, ghost cs: seq<Option<Id>>) returns (j: nat)
    requires matches != []
    requires forall id: Id :: CountOf(count, id) == Load(cs, id)
    ensures j == Best(cs, matches)
  {
    j := 0;
    KeyLessIrreflexive(cs, matches[0]);
    for k := 1 to |matches|
      invariant j < k
      invariant forall k' :: 0 <= k' < k ==> !KeyLess(cs, matches[k'], matches[j])
      invariant forall k' :: 0 <= k' < j ==> KeyLess(cs, matches[j], matches[k'])
    {
      var a, b := matches[k], matches[j];
      var ca, cb := CountOf(count, a.id), CountOf(count, b.id);
      if ca < cb || (ca == cb && StrLess(Lower(a.name), Lower(b.name))) {
        assert KeyLess(cs, a, b);
        KeyLessAsymmetric(cs, a, b);
        forall k' | 0 <= k' < k ensures !KeyLess(cs, matches[k'], a) && KeyLess(cs, a, matches[k']) {
          KeyLeqTransitive(cs, a, b, matches[k']);
          if !KeyLess(cs, a, matches[k']) {
            KeyLeqTransitive(cs, b, matches[k'], a);
          }
        }
        KeyLessIrreflexive(cs, a);
        j := k;
      }
    }
    BestUnique(cs, matches, j);
  }

  /** The teacher one session gets: the least-loaded match, or none. */
  method ChooseTeacher(ts: seq<Teacher>, s: Session, busy: map<(Option<string>, string), set<Id>>, count: map<Id, nat>,
                       ghost rows: seq<Session>, ghost cs: seq<Option<Id>>) returns (choice: Option<Id>)
    requires InGrid(s) && |cs| <= |rows| && Tallied(busy, count, rows, cs)
    ensures choice == Pick(Eligible, ts, rows, cs, s)
  {
    var matches := FreeTeachers(ts, s, BusyAt(busy, s), rows, cs);
    if matches == [] {
      return None;
    }
    var j := LeastLoaded(matches, count, cs);
    choice := Some(matches[j].id);
  }

  /** Row `j` once the first `p` visits of the first loop are done. */
  ghost predicate ClearedUpTo(ss: seq<Session>, o: seq<nat>, p: nat, cur: seq<Session>)
    requires p <= |o|
  {
    |cur| == |ss| && forall j :: 0 <= j < |ss| ==> cur[j] == if j in o[..p] then Cleared(ss)[j] else ss[j]
  }

  lemma ClearedStep(ss: seq<Session>, o: seq<nat>, p: nat, cur: seq<Session>)
    requires o == GridOrder(ss) && p < |o| && ClearedUpTo(ss, o, p, cur)
    ensures o[p] < |cur| && ClearedUpTo(ss, o, p + 1, cur[o[p] := cur[o[p]].(assignedTeacher := None)])
  {
    GridOrderMembers(ss);
    assert o[p] in o;
    TakeSnoc(o, p);
    var cur' := cur[o[p] := cur[o[p]].(assignedTeacher := None)];
    forall j | 0 <= j < |ss| ensures cur'[j] == if j in o[..p + 1] then Cleared(ss)[j] else ss[j] {
      assert j in o[..p + 1] <==> j in o[..p] || j == o[p];
    }
  }

  /** The first loop: every visited session loses its teacher. */
  method ClearVisited(ss: seq<Session>, o: seq<nat>) returns (cur: seq<Session>)
    requires o == GridOrder(ss)
    ensures cur == Cleared(ss)
  {
    cur := ss;
    for p := 0 to |o|
      invariant ClearedUpTo(ss, o, p, cur)
    {
      ClearedStep(ss, o, p, cur);
      cur := cur[o[p] := cur[o[p]].(assignedTeacher := None)];
    }
    GridOrderMembers(ss);
    assert o[..|o|] == o;
  }

  /** Row `j` of the store once the first `p` visits are done, with choices `cs`. */
  function VisitedUpTo(ss: seq<Session>, o: seq<nat>, cs: seq<Option<Id>>, p: nat, j: nat): Session
    requires j < |ss| && |cs| == p
  {
    if InGrid(ss[j]) && PosIn(o, j) < p then ss[j].(assignedTeacher := cs[PosIn(o, j)]) else Cleared(ss)[j]
  }

  /** Writing the choice of visit `p` moves every row to the next stage. */
  lemma VisitStep(ss: seq<Session>, o: seq<nat>, cs: seq<Option<Id>>, p: nat, cur: seq<Session>, x: Option<Id>)
    requires o == GridOrder(ss) && p < |o| && |cs| == p && |cur| == |ss|
    requires forall j :: 0 <= j < |ss| ==> cur[j] == VisitedUpTo(ss, o, cs, p, j)
    ensures o[p] < |ss| && cur[o[p]] == Visited(ss)[p]
    ensures var cur' := cur[o[p] := cur[o[p]].(assignedTeacher := x)];
      forall j :: 0 <= j < |ss| ==> cur'[j] == VisitedUpTo(ss, o, cs + [x], p + 1, j)
  {
    GridOrderMembers(ss);
    PosOf(Keys(ss), o, p);
    assert o[p] in o;
    var cur' := cur[o[p] := cur[o[p]].(assignedTeacher := x)];
    forall j | 0 <= j < |ss| ensures cur'[j] == VisitedUpTo(ss, o, cs + [x], p + 1, j) {
      if j != o[p] {
        assert PosIn(o, j) != p;
        if PosIn(o, j) < p {
          assert (cs + [x])[PosIn(o, j)] == cs[PosIn(o, j)];
        }
      }
    }
  }

  /**
   * The second loop: the grid sessions in visiting order, each given the
   * choice of `ChooseTeacher` while `busy_at_slot` and `assigned_count` keep
   * track of the choices so far. `assignedCount` and `unassignedCount` are the counts
   * the pass reports; `count` is `assigned_count` at the end.
   */
  method AssignVisited(ss: seq<Session>, o: seq<nat>, ts: seq<Teacher>, cleared: seq<Session>)
      returns (cur: seq<Session>, assignedCount: nat, unassignedCount: nat, count: map<Id, nat>)
    requires o == GridOrder(ss) && cleared == Cleared(ss)
    ensures cur == Allocate(ss, ts)
    ensures assignedCount + unassignedCount == |o|
    ensures assignedCount == Filled(TeachersAt(cur, o))
    ensures forall id: Id :: CountOf(count, id) == Load(TeachersAt(cur, o), id)
  {
    var sorted := ByName(ts);
    ghost var cs: seq<Option<Id>> := [];
    var busy: map<(Option<string>, string), set<Id>> := map[];
    count := map[];
    cur, assignedCount, unassignedCount := cleared, 0, 0;
    for p := 0 to |o|
      invariant VisitInv(ss, o, sorted, p, cur, cs, busy, count, assignedCount, unassignedCount)
    {
      cur, cs, busy, count, assignedCount, unassignedCount :=
        Visit(ss, o, sorted, p, cur, cs, busy, count, assignedCount, unassignedCount);
    }
    AssignDone(ss, ts, o, cur, cs, count, assignedCount);
  }

  /** What the second loop knows after `p` visits: the choices so far, their tallies and the rows they wrote. */
  ghost predicate VisitInv(ss: seq<Session>, o: seq<nat>, sorted: seq<Teacher>, p: nat, cur: seq<Session>,
                           cs: seq<Option<Id>>, busy: map<(Option<string>, string), set<Id>>, count: map<Id, nat>,
                           assignedCount: nat, unassignedCount: nat)
  {
    && o == GridOrder(ss) && p <= |o| && |cur| == |ss| && |cs| == p
    && cs == Choices(Eligible, sorted, Visited(ss), p)
    && Tallied(busy, count, Visited(ss), cs)
    && (forall j :: 0 <= j < |ss| ==> cur[j] == VisitedUpTo(ss, o, cs, p, j))
    && assignedCount + unassignedCount == p
    && assignedCount == Filled(cs)
  }

  /** Visit `p`: the session gets the choice of `ChooseTeacher`, and the bookkeeping records it. */
  method Visit(ss: seq<Session>, o: seq<nat>, sorted: seq<Teacher>, p: nat, cur: seq<Session>,
               ghost cs: seq<Option<Id>>, busy: map<(Option<string>, string), set<Id>>, count: map<Id, nat>,
               assignedCount: nat, unassignedCount: nat)
      returns (cur': seq<Session>, ghost cs': seq<Option<Id>>, busy': map<(Option<string>, string), set<Id>>,
               count': map<Id, nat>, assigned': nat, unassigned': nat)
    requires p < |o| && VisitInv(ss, o, sorted, p, cur, cs, busy, count, assignedCount, unassignedCount)
    ensures VisitInv(ss, o, sorted, p + 1, cur', cs', busy', count', assigned', unassigned')
  {
    ghost var v := Visited(ss);
    VisitStep(ss, o, cs, p, cur, None);
    var s := cur[o[p]];
    GridPos(ss, o[p]);
    var choice := ChooseTeacher(sorted, s, busy, count, v, cs);
    VisitStep(ss, o, cs, p, cur, choice);
    TalliedStep(busy, count, v, cs, choice);
    cur' := cur[o[p] := s.(assignedTeacher := choice)];
    busy', count', assigned', unassigned' := Record(busy, count, assignedCount, unassignedCount, s, choice, cs);
    cs' := cs + [choice];
    VisitInvIntro(ss, o, sorted, p + 1, cur', cs', busy', count', assigned', unassigned');
  }

  lemma VisitInvIntro(ss: seq<Session>, o: seq<nat>, sorted: seq<Teacher>, p: nat, cur: seq<Session>,
                      cs: seq<Option<Id>>, busy: map<(Option<string>, string), set<Id>>, count: map<Id, nat>,
                      assignedCount: nat, unassignedCount: nat)
    requires o == GridOrder(ss) && p <= |o| && |cur| == |ss| && |cs| == p
    requires cs == Choices(Eligible, sorted, Visited(ss), p)
    requires Tallied(busy, count, Visited(ss), cs)
    requires forall j :: 0 <= j < |ss| ==> cur[j] == VisitedUpTo(ss, o, cs, p, j)
    requires assignedCount + unassignedCount == p && assignedCount == Filled(cs)
    ensures VisitInv(ss, o, sorted, p, cur, cs, busy, count, assignedCount, unassignedCount)
  {
  }

  /** The bookkeeping after one visit: the hour's busy set, the teacher's count and the two counters. */
  method Record(busy: map<(Option<string>, string), set<Id>>, count: map<Id, nat>, assignedCount: nat, unassignedCount: nat,
                s: Session, choice: Option<Id>, ghost cs: seq<Option<Id>>)
      returns (busy': map<(Option<string>, string), set<Id>>, count': map<Id, nat>, assigned': nat, unassigned': nat)
    requires assignedCount == Filled(cs)
    ensures busy' == if choice.Some? then busy[(s.day, s.slot) := BusyAt(busy, s) + {choice.value}] else busy
    ensures count' == if choice.Some? then count[choice.value := CountOf(count, choice.value) + 1] else count
    ensures assigned' == Filled(cs + [choice])
    ensures assigned' + unassigned' == assignedCount + unassignedCount + 1
  {
    FilledSnoc(cs, choice);
    busy', count', assigned', unassigned' := busy, count, assignedCount, unassignedCount;
    if choice.Some? {
      busy' := busy[(s.day, s.slot) := BusyAt(busy, s) + {choice.value}];
      count' := count[choice.value := CountOf(count, choice.value) + 1];
      assigned' := assignedCount + 1;
    } else {
      unassigned' := unassignedCount + 1;
    }
  }

  lemma FilledSnoc(cs: seq<Option<Id>>, x: Option<Id>)
    ensures Filled(cs + [x]) == Filled(cs) + if x.Some? then 1 else 0
  {
    assert (cs + [x])[..|cs|] == cs;
  }

  /** Once every grid session is visited, the rows are those of the pass and the tallies count its result. */
  lemma AssignDone(ss: seq<Session>, ts: seq<Teacher>, o: seq<nat>, cur: seq<Session>, cs: seq<Option<Id>>, count: map<Id, nat>,
                   assignedCount: nat)
    requires o == GridOrder(ss) && |cur| == |ss| && |cs| == |o|
    requires cs == Choices(Eligible, ByName(ts), Visited(ss), |o|)
    requires forall j :: 0 <= j < |ss| ==> cur[j] == VisitedUpTo(ss, o, cs, |o|, j)
    requires forall id: Id :: CountOf(count, id) == Load(cs, id)
    requires assignedCount == Filled(cs)
    ensures cur == Allocate(ss, ts)
    ensures assignedCount == Filled(TeachersAt(cur, o))
    ensures forall id: Id :: CountOf(count, id) == Load(TeachersAt(cur, o), id)
  {
    forall j | 0 <= j < |ss| ensures cur[j] == Allocate(ss, ts)[j] {
      if InGrid(ss[j]) {
        GridPos(ss, j);
      }
    }
    AllocateTallies(ss, ts);
  }
}
