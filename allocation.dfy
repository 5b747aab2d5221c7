/**
 * The automatic allocator (`allocate_sessions`): every grid session loses its
 * teacher, then the grid sessions are visited in week order (day, slot, year
 * group) and each gets the least-loaded free teacher who has the required
 * skill and lists the hour among their free slots.
 *
 * The pass is specified as a function of the store and the teacher list; the
 * class in the store module performs it in place.
 */
module Allocation {
  import opened Vocabulary
  import opened Text
  import opened Selection
  import opened Records
  import opened Availability

  // ---------------------------------------------------------------- teachers by name

  /** `ORDER BY name`: no teacher's name is below an earlier teacher's name. */
  predicate NameOrdered(ts: seq<Teacher>)
  {
    forall i, j :: 0 <= i < j < |ts| ==> !StrLess(ts[j].name, ts[i].name)
  }

  /** Puts `t` before the first teacher whose name is not below `t`'s, so equal names keep their order. */
  function InsertByName(t: Teacher, ts: seq<Teacher>): (r: seq<Teacher>)
    ensures multiset(r) == multiset([t] + ts)
  {
    if ts == [] || !StrLess(ts[0].name, t.name) then [t] + ts
    else
      var rest := InsertByName(t, ts[1..]);
      assert ts == [ts[0]] + ts[1..];
      [ts[0]] + rest
  }

  lemma {:induction false} InsertByNameOrdered(t: Teacher, ts: seq<Teacher>)
    requires NameOrdered(ts)
    ensures NameOrdered(InsertByName(t, ts))
  {
    var r := InsertByName(t, ts);
    if ts == [] || !StrLess(ts[0].name, t.name) {
      forall j | 1 <= j < |r| ensures !StrLess(r[j].name, t.name) {
        if j > 1 {
          StrLeqTransitive(t.name, ts[0].name, ts[j - 1].name);
        }
      }
    } else {
      var rest := InsertByName(t, ts[1..]);
      InsertByNameOrdered(t, ts[1..]);
      forall j | 0 <= j < |rest| ensures !StrLess(rest[j].name, ts[0].name) {
        assert rest[j] in multiset(rest);
        if rest[j] == t {
          StrLessAsymmetric(ts[0].name, t.name);
        } else {
          assert rest[j] in ts[1..];
        }
      }
      assert r == [ts[0]] + rest;
    }
  }

  /** The teachers sorted by name: a stable insertion sort. */
  function ByName(ts: seq<Teacher>): (r: seq<Teacher>)
  {
    if ts == [] then [] else InsertByName(ts[0], ByName(ts[1..]))
  }

  /** `ORDER BY name` yields the same teachers, sorted. */
  lemma {:induction false} ByNameSorted(ts: seq<Teacher>)
    ensures NameOrdered(ByName(ts))
    ensures multiset(ByName(ts)) == multiset(ts)
  {
    if ts != [] {
      ByNameSorted(ts[1..]);
      InsertByNameOrdered(ts[0], ByName(ts[1..]));
      assert ts == [ts[0]] + ts[1..];
    }
  }

  // ---------------------------------------------------------------- positions by key

  /** Position `a` comes before `b`: a smaller key, or the same key and an earlier position. */
  predicate Before(keys: seq<int>, a: nat, b: nat)
    requires a < |keys| && b < |keys|
  {
    keys[a] < keys[b] || (keys[a] == keys[b] && a < b)
  }

  /** `o` lists positions of `keys` in `Before` order. */
  predicate OrderedBy(keys: seq<int>, o: seq<nat>)
  {
    && (forall p :: 0 <= p < |o| ==> o[p] < |keys|)
    && (forall p, q :: 0 <= p < q < |o| ==> Before(keys, o[p], o[q]))
  }

  /** Inserts position `i`, later than every listed position, after the positions whose key is not above its key. */
  function InsertPos(keys: seq<int>, o: seq<nat>, i: nat): (r: seq<nat>)
    requires OrderedBy(keys, o) && i < |keys| && forall p :: 0 <= p < |o| ==> o[p] < i
    ensures |r| == |o| + 1
    ensures forall x :: x in r <==> x in o || x == i
    ensures OrderedBy(keys, r)
  {
    if o == [] || keys[o[|o| - 1]] <= keys[i] then
      InsertLast(keys, o, i);
      o + [i]
    else
      var m := |o| - 1;
      var rest := InsertPos(keys, o[..m], i);
      InsertBeforeLast(keys, o, i, rest);
      rest + [o[m]]
  }

  lemma InsertLast(keys: seq<int>, o: seq<nat>, i: nat)
    requires OrderedBy(keys, o) && i < |keys| && forall p :: 0 <= p < |o| ==> o[p] < i
    requires o == [] || keys[o[|o| - 1]] <= keys[i]
    ensures OrderedBy(keys, o + [i])
  {
    var r := o + [i];
    forall p, q | 0 <= p < q < |r| ensures Before(keys, r[p], r[q]) {
      if q == |o| && p < |o| - 1 {
        assert Before(keys, o[p], o[|o| - 1]);
      }
    }
  }

  lemma InsertBeforeLast(keys: seq<int>, o: seq<nat>, i: nat, rest: seq<nat>)
    requires OrderedBy(keys, o) && i < |keys| && o != [] && keys[i] < keys[o[|o| - 1]]
    requires forall x :: x in rest <==> x in o[..|o| - 1] || x == i
    requires OrderedBy(keys, rest)
    ensures OrderedBy(keys, rest + [o[|o| - 1]])
  {
    var m := |o| - 1;
    var r := rest + [o[m]];
    forall p, q | 0 <= p < q < |r| ensures Before(keys, r[p], r[q]) {
      if q == |rest| {
        assert rest[p] in rest;
        if rest[p] != i {
          var k :| 0 <= k < m && o[..m][k] == rest[p];
          assert Before(keys, o[k], o[m]);
        }
      }
    }
  }

  /** The positions below `n` whose flag is set, in `Before` order. */
  function OrderUpTo(keys: seq<int>, flags: seq<bool>, n: nat): (r: seq<nat>)
    requires |flags| == |keys| && n <= |keys|
    ensures OrderedBy(keys, r)
    ensures forall p :: 0 <= p < |r| ==> r[p] < n
    ensures forall x :: x in r <==> 0 <= x < n && flags[x]
    ensures |r| == Count(flags[..n])
  {
    if n == 0 then []
    else
      var o := OrderUpTo(keys, flags, n - 1);
      assert flags[..n][..n - 1] == flags[..n - 1];
      if flags[n - 1] then
        var r := InsertPos(keys, o, n - 1);
        InsertBelow(o, r, n);
        r
      else o
  }

  lemma InsertBelow(o: seq<nat>, r: seq<nat>, n: nat)
    requires n >= 1 && forall p :: 0 <= p < |o| ==> o[p] < n - 1
    requires forall x :: x in r <==> x in o || x == n - 1
    ensures forall p :: 0 <= p < |r| ==> r[p] < n
  {
    forall p | 0 <= p < |r| ensures r[p] < n {
      assert r[p] in r;
    }
  }

  /** The flagged positions of `keys`, in `Before` order: a stable sort of them by key. */
  function Order(keys: seq<int>, flags: seq<bool>): (r: seq<nat>)
    requires |flags| == |keys|
    ensures OrderedBy(keys, r)
    ensures forall x :: x in r <==> 0 <= x < |keys| && flags[x]
    ensures |r| == Count(flags)
  {
    assert flags[..|keys|] == flags;
    OrderUpTo(keys, flags, |keys|)
  }

  // ---------------------------------------------------------------- choosing a teacher for one session

  /** The teacher has the session's skill and lists its hour among their free slots. */
  predicate Eligible(t: Teacher, s: Session)
  {
    && s.requiredSkill in t.skills
    && s.day.Some? && s.day.value in DAY_SHORT
    && TeacherIsAvailableForSlot(TeacherSlotTokens(t), s.day.value, s.slot)
  }

  /** A grid session's day always has an abbreviation, so eligibility is the skill and availability test alone. */
  lemma EligibleInGrid(t: Teacher, s: Session)
    requires InGrid(s)
    ensures s.day.Some? && s.day.value in DAY_SHORT
    ensures Eligible(t, s) <==>
      s.requiredSkill in t.skills && TeacherIsAvailableForSlot(TeacherSlotTokens(t), s.day.value, s.slot)
  {
    InGridMembers(s);
    WeekDaysShort();
  }

  /** `assigned_count[id]`: how many of the sessions decided so far went to the teacher. */
  function Load(cs: seq<Option<Id>>, id: Id): nat
  {
    if cs == [] then 0
    else Load(cs[..|cs| - 1], id) + (if cs[|cs| - 1] == Some(id) then 1 else 0)
  }

  /** `assigned`: how many of the sessions decided so far got a teacher. */
  function Filled(cs: seq<Option<Id>>): nat
  {
    if cs == [] then 0
    else Filled(cs[..|cs| - 1]) + (if cs[|cs| - 1].Some? then 1 else 0)
  }

  /** `id in busy_at_slot[(day, slot)]`: an earlier session of the same hour went to the teacher. */
  predicate Busy(rows: seq<Session>, cs: seq<Option<Id>>, s: Session, id: Id)
    requires |cs| <= |rows|
  {
    exists p :: 0 <= p < |cs| && SameHour(rows[p], s) && cs[p] == Some(id)
  }

  /**
   * The teacher passes the three tests of the inner loop. The pass is written
   * for any eligibility test `ok`; the allocator runs it with `Eligible`.
   */
  predicate Free(ok: (Teacher, Session) -> bool, rows: seq<Session>, cs: seq<Option<Id>>, s: Session, t: Teacher)
    requires |cs| <= |rows|
  {
    ok(t, s) && !Busy(rows, cs, s, t.id)
  }

  function FreeFlags(ok: (Teacher, Session) -> bool, ts: seq<Teacher>, rows: seq<Session>, cs: seq<Option<Id>>, s: Session): (r: seq<bool>)
    requires |cs| <= |rows|
    ensures |r| == |ts| && forall k :: 0 <= k < |ts| ==> (r[k] <==> Free(ok, rows, cs, s, ts[k]))
  {
    seq(|ts|, k requires 0 <= k < |ts| => Free(ok, rows, cs, s, ts[k]))
  }

  /** `matches`: the free teachers, in teacher order. */
  function Candidates(ok: (Teacher, Session) -> bool, ts: seq<Teacher>, rows: seq<Session>, cs: seq<Option<Id>>, s: Session): seq<Teacher>
    requires |cs| <= |rows|
  {
    Select(ts, FreeFlags(ok, ts, rows, cs, s))
  }

  /** The sort key `(assigned_count[id], name.lower())` of `a` is below that of `b`. */
  predicate KeyLess(cs: seq<Option<Id>>, a: Teacher, b: Teacher)
  {
    Load(cs, a.id) < Load(cs, b.id) || (Load(cs, a.id) == Load(cs, b.id) && StrLess(Lower(a.name), Lower(b.name)))
  }

  lemma KeyLessIrreflexive(cs: seq<Option<Id>>, a: Teacher)
    ensures !KeyLess(cs, a, a)
  {
    StrLessIrreflexive(Lower(a.name));
  }

  lemma KeyLessAsymmetric(cs: seq<Option<Id>>, a: Teacher, b: Teacher)
    requires KeyLess(cs, a, b)
    ensures !KeyLess(cs, b, a)
  {
    if Load(cs, a.id) == Load(cs, b.id) {
      StrLessAsymmetric(Lower(a.name), Lower(b.name));
    }
  }

  lemma KeyLeqTransitive(cs: seq<Option<Id>>, a: Teacher, b: Teacher, c: Teacher)
    requires !KeyLess(cs, b, a) && !KeyLess(cs, c, b)
    ensures !KeyLess(cs, c, a)
  {
    if Load(cs, a.id) == Load(cs, b.id) == Load(cs, c.id) {
      StrLeqTransitive(Lower(a.name), Lower(b.name), Lower(c.name));
    }
  }

  /**
   * `matches.sort(key=...)[0]`: the position of the first candidate whose key
   * is least. Python's sort is stable, so among equal keys the earliest wins.
   */
  function Best(cs: seq<Option<Id>>, cands: seq<Teacher>): (j: nat)
    requires cands != []
    ensures j < |cands|
    ensures forall k :: 0 <= k < |cands| ==> !KeyLess(cs, cands[k], cands[j])
    ensures forall k :: 0 <= k < j ==> KeyLess(cs, cands[j], cands[k])
  {
    if |cands| == 1 then
      KeyLessIrreflexive(cs, cands[0]);
      0
    else
      var b := 1 + Best(cs, cands[1..]);
      assert forall k :: 1 <= k < |cands| ==> cands[k] == cands[1..][k - 1];
      if KeyLess(cs, cands[b], cands[0]) then
        KeyLessAsymmetric(cs, cands[b], cands[0]);
        b
      else
        BestFirst(cs, cands, b);
        0
  }

  lemma BestFirst(cs: seq<Option<Id>>, cands: seq<Teacher>, b: nat)
    requires 0 < b < |cands| && !KeyLess(cs, cands[b], cands[0])
    requires forall k :: 1 <= k < |cands| ==> !KeyLess(cs, cands[k], cands[b])
    ensures forall k :: 0 <= k < |cands| ==> !KeyLess(cs, cands[k], cands[0])
  {
    forall k | 0 <= k < |cands| ensures !KeyLess(cs, cands[k], cands[0]) {
      if k == 0 {
        KeyLessIrreflexive(cs, cands[0]);
      } else {
        KeyLeqTransitive(cs, cands[0], cands[b], cands[k]);
      }
    }
  }

  /** The teacher the session gets, given the choices made for the sessions before it. */
  function Pick(ok: (Teacher, Session) -> bool, ts: seq<Teacher>, rows: seq<Session>, cs: seq<Option<Id>>, s: Session): Option<Id>
    requires |cs| <= |rows|
  {
    var cands := Candidates(ok, ts, rows, cs, s);
    if cands == [] then None else Some(cands[Best(cs, cands)].id)
  }

  /**
   * Teacher `k` is the one the inner loop selects: free, no free teacher has a
   * smaller key, and every free teacher listed before it has a larger key.
   */
  predicate Winner(ok: (Teacher, Session) -> bool, ts: seq<Teacher>, rows: seq<Session>, cs: seq<Option<Id>>, s: Session, k: nat)
    requires |cs| <= |rows|
  {
    && k < |ts| && Free(ok, rows, cs, s, ts[k])
    && (forall k' :: 0 <= k' < |ts| && Free(ok, rows, cs, s, ts[k']) ==> !KeyLess(cs, ts[k'], ts[k]))
    && (forall k' :: 0 <= k' < k && Free(ok, rows, cs, s, ts[k']) ==> KeyLess(cs, ts[k], ts[k']))
  }

  /** The session stays unassigned exactly when no teacher is free, and otherwise goes to the winner. */
  lemma PickSpec(ok: (Teacher, Session) -> bool, ts: seq<Teacher>, rows: seq<Session>, cs: seq<Option<Id>>, s: Session)
    requires |cs| <= |rows|
    ensures Pick(ok, ts, rows, cs, s).None? <==> forall k :: 0 <= k < |ts| ==> !Free(ok, rows, cs, s, ts[k])
    ensures Pick(ok, ts, rows, cs, s).Some? ==>
      exists k: nat :: Winner(ok, ts, rows, cs, s, k) && ts[k].id == Pick(ok, ts, rows, cs, s).value
  {
    var flags := FreeFlags(ok, ts, rows, cs, s);
    var cands, ch := Candidates(ok, ts, rows, cs, s), Chosen(flags);
    SelectChosen(ts, flags);
    if cands == [] {
      assert |ch| == 0;
    } else {
      var j := Best(cs, cands);
      var k := ch[j];
      assert cands[j] == ts[k];
      forall k' | 0 <= k' < |ts| && Free(ok, rows, cs, s, ts[k']) ensures !KeyLess(cs, ts[k'], ts[k]) {
        assert k' in ch;
        var p :| 0 <= p < |ch| && ch[p] == k';
        assert cands[p] == ts[k'];
      }
      forall k' | 0 <= k' < k && Free(ok, rows, cs, s, ts[k']) ensures KeyLess(cs, ts[k], ts[k']) {
        assert k' in ch;
        var p :| 0 <= p < |ch| && ch[p] == k';
        assert p < j by {
          assert !(j < p) && p != j;
        }
        assert cands[p] == ts[k'];
      }
      assert Winner(ok, ts, rows, cs, s, k);
    }
  }

  // ---------------------------------------------------------------- the pass over the sessions

  /** The teachers chosen for the first `n` sessions, in visiting order: the session loop. */
  function Choices(ok: (Teacher, Session) -> bool, ts: seq<Teacher>, rows: seq<Session>, n: nat): (r: seq<Option<Id>>)
    requires n <= |rows|
    ensures |r| == n
  {
    if n == 0 then []
    else
      var cs := Choices(ok, ts, rows, n - 1);
      cs + [Pick(ok, ts, rows, cs, rows[n - 1])]
  }

  /** Later sessions do not change the choices made for earlier ones. */
  lemma {:induction false} ChoicesPrefix(ok: (Teacher, Session) -> bool, ts: seq<Teacher>, rows: seq<Session>, m: nat, n: nat)
    requires m <= n <= |rows|
    ensures Choices(ok, ts, rows, n)[..m] == Choices(ok, ts, rows, m)
  {
    if m < n {
      ChoicesPrefix(ok, ts, rows, m, n - 1);
      assert Choices(ok, ts, rows, n)[..n - 1] == Choices(ok, ts, rows, n - 1);
    }
  }

  /** Each session gets the pick made from the choices before it. */
  lemma ChoiceAt(ok: (Teacher, Session) -> bool, ts: seq<Teacher>, rows: seq<Session>, n: nat, p: nat)
    requires p < n <= |rows|
    ensures Choices(ok, ts, rows, n)[p] == Pick(ok, ts, rows, Choices(ok, ts, rows, p), rows[p])
  {
    ChoicesPrefix(ok, ts, rows, p + 1, n);
    assert Choices(ok, ts, rows, n)[p] == Choices(ok, ts, rows, n)[..p + 1][p];
  }

  /** A teacher is busy in an hour exactly when an earlier session of that hour went to them. */
  lemma BusyAt(ok: (Teacher, Session) -> bool, ts: seq<Teacher>, rows: seq<Session>, n: nat, p: nat, id: Id)
    requires p < n <= |rows|
    ensures Busy(rows, Choices(ok, ts, rows, p), rows[p], id) <==>
      exists q :: 0 <= q < p && SameHour(rows[q], rows[p]) && Choices(ok, ts, rows, n)[q] == Some(id)
  {
    ChoicesPrefix(ok, ts, rows, p, n);
    assert forall q :: 0 <= q < p ==> Choices(ok, ts, rows, p)[q] == Choices(ok, ts, rows, n)[q];
  }

  /** No teacher gets two sessions of the same hour. */
  lemma ChoicesNoDoubleBooking(ok: (Teacher, Session) -> bool, ts: seq<Teacher>, rows: seq<Session>, n: nat, p: nat, q: nat)
    requires p < q < n <= |rows| && SameHour(rows[p], rows[q])
    requires Choices(ok, ts, rows, n)[p].Some?
    ensures Choices(ok, ts, rows, n)[q] != Choices(ok, ts, rows, n)[p]
  {
    var cs := Choices(ok, ts, rows, q);
    ChoiceAt(ok, ts, rows, n, q);
    PickSpec(ok, ts, rows, cs, rows[q]);
    var id := Choices(ok, ts, rows, n)[p].value;
    if Pick(ok, ts, rows, cs, rows[q]).Some? {
      var k: nat :| Winner(ok, ts, rows, cs, rows[q], k) && ts[k].id == Pick(ok, ts, rows, cs, rows[q]).value;
      BusyAt(ok, ts, rows, n, q, id);
      assert Busy(rows, cs, rows[q], id);
    }
  }

  /** A session stays unassigned exactly when every eligible teacher already has a session of that hour. */
  lemma ChoicesUnassigned(ok: (Teacher, Session) -> bool, ts: seq<Teacher>, rows: seq<Session>, n: nat, p: nat)
    requires p < n <= |rows|
    ensures Choices(ok, ts, rows, n)[p].None? <==>
      forall k :: 0 <= k < |ts| && ok(ts[k], rows[p]) ==>
        exists q :: 0 <= q < p && SameHour(rows[q], rows[p]) && Choices(ok, ts, rows, n)[q] == Some(ts[k].id)
  {
    ChoiceAt(ok, ts, rows, n, p);
    PickSpec(ok, ts, rows, Choices(ok, ts, rows, p), rows[p]);
    forall k | 0 <= k < |ts| {
      BusyAt(ok, ts, rows, n, p, ts[k].id);
    }
  }

  /** An assigned session went to the winner among the teachers free for it. */
  lemma ChoicesAssigned(ok: (Teacher, Session) -> bool, ts: seq<Teacher>, rows: seq<Session>, n: nat, p: nat)
    requires p < n <= |rows| && Choices(ok, ts, rows, n)[p].Some?
    ensures exists k: nat :: Winner(ok, ts, rows, Choices(ok, ts, rows, p), rows[p], k) && ts[k].id == Choices(ok, ts, rows, n)[p].value
  {
    ChoiceAt(ok, ts, rows, n, p);
    PickSpec(ok, ts, rows, Choices(ok, ts, rows, p), rows[p]);
  }

  /** An assigned session went to a teacher of the list who passes the eligibility test. */
  lemma ChoicesSound(ok: (Teacher, Session) -> bool, ts: seq<Teacher>, rows: seq<Session>, n: nat, p: nat)
      returns (k: nat)
    requires p < n <= |rows| && Choices(ok, ts, rows, n)[p].Some?
    ensures k < |ts| && ts[k].id == Choices(ok, ts, rows, n)[p].value && ok(ts[k], rows[p])
  {
    ChoicesAssigned(ok, ts, rows, n, p);
    k :| Winner(ok, ts, rows, Choices(ok, ts, rows, p), rows[p], k) && ts[k].id == Choices(ok, ts, rows, n)[p].value;
  }

  // ---------------------------------------------------------------- the store

  /** The allocator's sort key of every row; rows outside the grid are not visited and get 0. */
  function Keys(ss: seq<Session>): (r: seq<int>)
    ensures |r| == |ss| && forall i :: 0 <= i < |ss| && InGrid(ss[i]) ==> r[i] == Rank(ss[i])
  {
    seq(|ss|, i requires 0 <= i < |ss| => if InGrid(ss[i]) then Rank(ss[i]) else 0)
  }

  /** `session_rows` after the sort: the positions of the grid sessions by sort key, ties in store order. */
  function GridOrder(ss: seq<Session>): (o: seq<nat>)
    ensures OrderedBy(Keys(ss), o)
    ensures forall p :: 0 <= p < |o| ==> o[p] < |ss|
  {
    Order(Keys(ss), GridFlags(ss))
  }

  /** The first loop: every grid session loses its teacher. */
  function Cleared(ss: seq<Session>): (r: seq<Session>)
    ensures |r| == |ss|
    ensures forall i :: 0 <= i < |ss| ==> r[i] == if InGrid(ss[i]) then ss[i].(assignedTeacher := None) else ss[i]
  {
    seq(|ss|, i requires 0 <= i < |ss| => if InGrid(ss[i]) then ss[i].(assignedTeacher := None) else ss[i])
  }

  /** The grid sessions, cleared, in the order the second loop visits them. */
  function Visited(ss: seq<Session>): (r: seq<Session>)
    ensures |r| == |GridOrder(ss)|
    ensures forall p :: 0 <= p < |r| ==> r[p] == Cleared(ss)[GridOrder(ss)[p]]
  {
    var o := GridOrder(ss);
    seq(|o|, p requires 0 <= p < |o| => Cleared(ss)[o[p]])
  }

  /** Where `i` stands in `o`: its first position, or `|o|` when it is absent. */
  function PosIn(o: seq<nat>, i: nat): (p: nat)
    ensures p <= |o|
    ensures p < |o| ==> o[p] == i
    ensures i in o ==> p < |o|
  {
    if o == [] then 0 else if o[0] == i then 0 else 1 + PosIn(o[1..], i)
  }

  /** `allocate_sessions`: the store after the allocator has run over the teachers `ts`. */
  function Allocate(ss: seq<Session>, ts: seq<Teacher>): (r: seq<Session>)
    ensures |r| == |ss|
  {
    var o := GridOrder(ss);
    var cs := Choices(Eligible, ByName(ts), Visited(ss), |o|);
    seq(|ss|, i requires 0 <= i < |ss| =>
      if InGrid(ss[i]) && PosIn(o, i) < |cs| then ss[i].(assignedTeacher := cs[PosIn(o, i)]) else ss[i])
  }

  /** Changing a session's teacher changes neither its grid membership nor its sort key nor who may teach it. */
  lemma RetaughtSame(s: Session, x: Option<Id>)
    ensures InGrid(s.(assignedTeacher := x)) == InGrid(s)
    ensures InGrid(s) ==> Rank(s.(assignedTeacher := x)) == Rank(s)
    ensures forall t :: Eligible(t, s.(assignedTeacher := x)) == Eligible(t, s)
  {
  }

  /**
   * The visiting order lists every grid session once, no other row, in
   * increasing sort key (the rank packs day, slot and year group; see
   * RankOrder) and, on equal keys, in store order, which is id order.
   */
  lemma GridOrderSpec(ss: seq<Session>)
    ensures forall i :: i in GridOrder(ss) <==> 0 <= i < |ss| && InGrid(ss[i])
    ensures |GridOrder(ss)| == |GridSessions(ss)|
    ensures forall p, q :: 0 <= p < q < |GridOrder(ss)| ==>
      var a, b := ss[GridOrder(ss)[p]], ss[GridOrder(ss)[q]];
      InGrid(a) && InGrid(b) && (Rank(a) < Rank(b) || (Rank(a) == Rank(b) && GridOrder(ss)[p] < GridOrder(ss)[q]))
  {
    var o := GridOrder(ss);
    GridSessionsMembers(ss);
    forall p, q | 0 <= p < q < |o| ensures InGrid(ss[o[p]]) && InGrid(ss[o[q]]) {
      assert o[p] in o && o[q] in o;
    }
  }

  /** The visiting order lists exactly the grid rows. */
  lemma GridOrderMembers(ss: seq<Session>)
    ensures forall i :: i in GridOrder(ss) <==> 0 <= i < |ss| && InGrid(ss[i])
  {
  }

  /** Positions in an order are distinct, so each is found where it stands. */
  lemma PosOf(keys: seq<int>, o: seq<nat>, p: nat)
    requires OrderedBy(keys, o) && p < |o|
    ensures PosIn(o, o[p]) == p
  {
    assert o[p] in o;
  }

  /** A grid row is visited, and the visit sees it with its teacher cleared. */
  lemma GridPos(ss: seq<Session>, i: nat)
    requires i < |ss| && InGrid(ss[i])
    ensures PosIn(GridOrder(ss), i) < |GridOrder(ss)| && GridOrder(ss)[PosIn(GridOrder(ss), i)] == i
    ensures Visited(ss)[PosIn(GridOrder(ss), i)] == ss[i].(assignedTeacher := None)
  {
    GridOrderMembers(ss);
  }

  /** The teacher of grid row `i` after the pass is the choice made at its visit. */
  lemma AllocateAt(ss: seq<Session>, ts: seq<Teacher>, i: nat)
    requires i < |ss| && InGrid(ss[i])
    ensures |Allocate(ss, ts)| == |ss|
    ensures Allocate(ss, ts)[i] ==
      ss[i].(assignedTeacher := Choices(Eligible, ByName(ts), Visited(ss), |GridOrder(ss)|)[PosIn(GridOrder(ss), i)])
  {
    GridPos(ss, i);
  }

  /** Only teachers of grid sessions change. */
  lemma AllocateShape(ss: seq<Session>, ts: seq<Teacher>)
    ensures |Allocate(ss, ts)| == |ss|
    ensures forall i :: 0 <= i < |ss| ==> Allocate(ss, ts)[i].(assignedTeacher := ss[i].assignedTeacher) == ss[i]
    ensures forall i :: 0 <= i < |ss| && !InGrid(ss[i]) ==> Allocate(ss, ts)[i] == ss[i]
  {
  }

  /** The allocator changes no id, so the store stays in id order. */
  lemma AllocateIds(ss: seq<Session>, ts: seq<Teacher>)
    requires IdsIncreasing(ss)
    ensures IdsIncreasing(Allocate(ss, ts))
  {
    AllocateShape(ss, ts);
    var r := Allocate(ss, ts);
    assert forall i :: 0 <= i < |ss| ==> r[i].id == r[i].(assignedTeacher := ss[i].assignedTeacher).id;
  }

  /**
   * The allocator first clears every grid teacher, so the teachers a store
   * held before do not matter: two stores that differ only in the teachers
   * of their grid sessions are allocated alike.
   */
  lemma AllocateForgets(ss: seq<Session>, ss': seq<Session>, ts: seq<Teacher>)
    requires |ss'| == |ss|
    requires forall i :: 0 <= i < |ss| ==> ss'[i] == ss[i].(assignedTeacher := ss'[i].assignedTeacher)
    requires forall i :: 0 <= i < |ss| && !InGrid(ss[i]) ==> ss'[i] == ss[i]
    ensures Allocate(ss', ts) == Allocate(ss, ts)
  {
    RetaughtViews(ss, ss');
    var o := GridOrder(ss);
    assert GridOrder(ss') == o;
    assert Visited(ss') == Visited(ss);
    var cs := Choices(Eligible, ByName(ts), Visited(ss), |o|);
    var a, a' := Allocate(ss, ts), Allocate(ss', ts);
    forall i | 0 <= i < |ss| ensures a'[i] == a[i] {
      RetaughtSame(ss[i], ss'[i].assignedTeacher);
    }
  }

  /** Stores that differ only in grid teachers have the same sort keys, grid rows and cleared rows. */
  lemma RetaughtViews(ss: seq<Session>, ss': seq<Session>)
    requires |ss'| == |ss|
    requires forall i :: 0 <= i < |ss| ==> ss'[i] == ss[i].(assignedTeacher := ss'[i].assignedTeacher)
    requires forall i :: 0 <= i < |ss| && !InGrid(ss[i]) ==> ss'[i] == ss[i]
    ensures Keys(ss') == Keys(ss) && GridFlags(ss') == GridFlags(ss) && Cleared(ss') == Cleared(ss)
  {
    var k, k', g, g', c, c' := Keys(ss), Keys(ss'), GridFlags(ss), GridFlags(ss'), Cleared(ss), Cleared(ss');
    forall i | 0 <= i < |ss| ensures k'[i] == k[i] && g'[i] == g[i] && c'[i] == c[i] {
      RetaughtSame(ss[i], ss'[i].assignedTeacher);
    }
  }

  /** Running the allocator a second time changes nothing. */
  lemma AllocateIdempotent(ss: seq<Session>, ts: seq<Teacher>)
    ensures Allocate(Allocate(ss, ts), ts) == Allocate(ss, ts)
  {
    AllocateShape(ss, ts);
    var r := Allocate(ss, ts);
    forall i | 0 <= i < |ss| ensures r[i] == ss[i].(assignedTeacher := r[i].assignedTeacher) {
      assert r[i].(assignedTeacher := ss[i].assignedTeacher) == ss[i];
    }
    AllocateForgets(ss, r, ts);
  }

  /** The teachers a store holds at the positions `o`, in that order. */
  function TeachersAt(r: seq<Session>, o: seq<nat>): (xs: seq<Option<Id>>)
    requires forall p :: 0 <= p < |o| ==> o[p] < |r|
    ensures |xs| == |o| && forall p :: 0 <= p < |o| ==> xs[p] == r[o[p]].assignedTeacher
  {
    seq(|o|, p requires 0 <= p < |o| => r[o[p]].assignedTeacher)
  }

  /**
   * The choices of the pass are the teachers it leaves on the grid sessions
   * in visiting order, so the tallies it keeps (`assigned_count[id]`,
   * `assigned`) count the grid sessions the new store gives a teacher.
   */
  lemma AllocateTallies(ss: seq<Session>, ts: seq<Teacher>)
    ensures |Allocate(ss, ts)| == |ss|
    ensures Choices(Eligible, ByName(ts), Visited(ss), |GridOrder(ss)|) == TeachersAt(Allocate(ss, ts), GridOrder(ss))
  {
    var o := GridOrder(ss);
    forall p | 0 <= p < |o|
      ensures o[p] < |Allocate(ss, ts)| && Choices(Eligible, ByName(ts), Visited(ss), |o|)[p] == Allocate(ss, ts)[o[p]].assignedTeacher
    {
      TallyAt(ss, ts, p);
    }
  }

  /** The session visited `p`-th holds the `p`-th choice of the pass. */
  lemma TallyAt(ss: seq<Session>, ts: seq<Teacher>, p: nat)
    requires p < |GridOrder(ss)|
    ensures |Allocate(ss, ts)| == |ss| && GridOrder(ss)[p] < |ss|
    ensures Choices(Eligible, ByName(ts), Visited(ss), |GridOrder(ss)|)[p] == Allocate(ss, ts)[GridOrder(ss)[p]].assignedTeacher
  {
    var o := GridOrder(ss);
    GridOrderMembers(ss);
    assert o[p] in o;
    PosOf(Keys(ss), o, p);
  }

  /** Every teacher the allocator assigns is one of the store's teachers, has the skill and is free at that hour. */
  lemma AllocateSound(ss: seq<Session>, ts: seq<Teacher>, i: nat)
    requires i < |ss| && InGrid(ss[i])
    requires Allocate(ss, ts)[i].assignedTeacher.Some?
    ensures exists t :: t in ts && t.id == Allocate(ss, ts)[i].assignedTeacher.value && Eligible(t, ss[i])
  {
    var p := PosIn(GridOrder(ss), i);
    AllocateAt(ss, ts, i);
    GridPos(ss, i);
    VisitedSound(ss, ts, p);
    RetaughtSame(ss[i], None);
  }

  /** The same for the visited sessions, before the choices are written back. */
  lemma VisitedSound(ss: seq<Session>, ts: seq<Teacher>, p: nat)
    requires p < |GridOrder(ss)|
    requires Choices(Eligible, ByName(ts), Visited(ss), |GridOrder(ss)|)[p].Some?
    ensures exists t :: t in ts && t.id == Choices(Eligible, ByName(ts), Visited(ss), |GridOrder(ss)|)[p].value
                      && Eligible(t, Visited(ss)[p])
  {
    var o, b, v := GridOrder(ss), ByName(ts), Visited(ss);
    var k := ChoicesSound(Eligible, b, v, |o|, p);
    ByNameMember(ts, k);
  }

  /** A sorted teacher is a teacher of the store. */
  lemma ByNameMember(ts: seq<Teacher>, k: nat)
    requires k < |ByName(ts)|
    ensures ByName(ts)[k] in ts
  {
    ByNameSorted(ts);
    assert ByName(ts)[k] in multiset(ByName(ts));
  }

  /** No teacher gets two grid sessions of the same hour. */
  lemma AllocateNoDoubleBooking(ss: seq<Session>, ts: seq<Teacher>, i: nat, j: nat)
    requires i < |ss| && j < |ss| && i != j && InGrid(ss[i]) && InGrid(ss[j]) && SameHour(ss[i], ss[j])
    requires Allocate(ss, ts)[i].assignedTeacher.Some?
    ensures Allocate(ss, ts)[j].assignedTeacher != Allocate(ss, ts)[i].assignedTeacher
  {
    var o, b, v := GridOrder(ss), ByName(ts), Visited(ss);
    var c := Choices(Eligible, b, v, |o|);
    var p, q := PosIn(o, i), PosIn(o, j);
    AllocateAt(ss, ts, i);
    AllocateAt(ss, ts, j);
    GridPos(ss, i);
    GridPos(ss, j);
    if p < q {
      ChoicesNoDoubleBooking(Eligible, b, v, |o|, p, q);
    } else if c[q].Some? {
      ChoicesNoDoubleBooking(Eligible, b, v, |o|, q, p);
    }
  }

  /** In the allocated store `r`, a grid session of the same hour visited before row `i` has teacher `id`. */
  predicate TakenBefore(ss: seq<Session>, r: seq<Session>, i: nat, id: Id)
    requires i < |ss| && |r| == |ss|
  {
    exists j :: 0 <= j < |ss| && InGrid(ss[j]) && SameHour(ss[j], ss[i]) && Before(Keys(ss), j, i)
      && r[j].assignedTeacher == Some(id)
  }

  /** `Before` is a strict order. */
  lemma BeforeAsymmetric(keys: seq<int>, a: nat, b: nat)
    requires a < |keys| && b < |keys| && Before(keys, a, b)
    ensures !Before(keys, b, a) && a != b
  {
  }

  /** A same-hour row visited before row `i` and holding `id` is a visit before `i`'s that chose `id`. */
  lemma TakenBeforeToVisit(ss: seq<Session>, ts: seq<Teacher>, i: nat, id: Id, j: nat) returns (q: nat)
    requires i < |ss| && InGrid(ss[i])
    requires j < |ss| && InGrid(ss[j]) && SameHour(ss[j], ss[i]) && Before(Keys(ss), j, i)
    requires Allocate(ss, ts)[j].assignedTeacher == Some(id)
    ensures q < PosIn(GridOrder(ss), i)
    ensures SameHour(Visited(ss)[q], Visited(ss)[PosIn(GridOrder(ss), i)])
    ensures Choices(Eligible, ByName(ts), Visited(ss), |GridOrder(ss)|)[q] == Some(id)
  {
    var o := GridOrder(ss);
    var p := PosIn(o, i);
    GridPos(ss, i);
    GridPos(ss, j);
    AllocateAt(ss, ts, j);
    q := PosIn(o, j);
    BeforeAsymmetric(Keys(ss), j, i);
    assert !(p < q) && q != p;
  }

  /** Conversely, a visit before `i`'s of the same hour that chose `id` is such a row. */
  lemma VisitToTakenBefore(ss: seq<Session>, ts: seq<Teacher>, i: nat, id: Id, q: nat) returns (j: nat)
    requires i < |ss| && InGrid(ss[i])
    requires q < PosIn(GridOrder(ss), i) <= |GridOrder(ss)|
    requires SameHour(Visited(ss)[q], Visited(ss)[PosIn(GridOrder(ss), i)])
    requires Choices(Eligible, ByName(ts), Visited(ss), |GridOrder(ss)|)[q] == Some(id)
    ensures j < |ss| && InGrid(ss[j]) && SameHour(ss[j], ss[i]) && Before(Keys(ss), j, i)
    ensures Allocate(ss, ts)[j].assignedTeacher == Some(id)
  {
    var o := GridOrder(ss);
    GridPos(ss, i);
    j := o[q];
    GridOrderMembers(ss);
    assert j in o;
    PosOf(Keys(ss), o, q);
    AllocateAt(ss, ts, j);
  }

  /** Unassigned, read on the visiting order and the sorted teachers. */
  lemma UnassignedVisits(ss: seq<Session>, ts: seq<Teacher>, i: nat)
    requires i < |ss| && InGrid(ss[i])
    ensures var o, b, v := GridOrder(ss), ByName(ts), Visited(ss);
      var c, p := Choices(Eligible, b, v, |o|), PosIn(o, i);
      && p < |o| && v[p] == ss[i].(assignedTeacher := None)
      && Allocate(ss, ts)[i].assignedTeacher == c[p]
      && (c[p].None? <==>
        forall k :: 0 <= k < |b| && Eligible(b[k], v[p]) ==>
          exists q :: 0 <= q < p && SameHour(v[q], v[p]) && c[q] == Some(b[k].id))
  {
    var o, b, v := GridOrder(ss), ByName(ts), Visited(ss);
    AllocateAt(ss, ts, i);
    GridPos(ss, i);
    ChoicesUnassigned(Eligible, b, v, |o|, PosIn(o, i));
  }

  /**
   * A grid session ends unassigned exactly when every teacher of the store
   * who has the skill and is free at that hour already got a session of the
   * same hour visited before it.
   */
  lemma AllocateUnassigned(ss: seq<Session>, ts: seq<Teacher>, i: nat)
    requires i < |ss| && InGrid(ss[i])
    ensures |Allocate(ss, ts)| == |ss|
    ensures Allocate(ss, ts)[i].assignedTeacher.None? <==>
      forall t :: t in ts && Eligible(t, ss[i]) ==> TakenBefore(ss, Allocate(ss, ts), i, t.id)
  {
    AllocateShape(ss, ts);
    if Allocate(ss, ts)[i].assignedTeacher.None? {
      UnassignedAllTaken(ss, ts, i);
    } else {
      AssignedSomeFree(ss, ts, i);
    }
  }

  lemma UnassignedAllTaken(ss: seq<Session>, ts: seq<Teacher>, i: nat)
    requires i < |ss| && InGrid(ss[i])
    requires Allocate(ss, ts)[i].assignedTeacher.None?
    ensures forall t :: t in ts && Eligible(t, ss[i]) ==> TakenBefore(ss, Allocate(ss, ts), i, t.id)
  {
    var o, b, v := GridOrder(ss), ByName(ts), Visited(ss);
    var c, p := Choices(Eligible, b, v, |o|), PosIn(o, i);
    UnassignedVisits(ss, ts, i);
    RetaughtSame(ss[i], None);
    forall t | t in ts && Eligible(t, ss[i]) ensures TakenBefore(ss, Allocate(ss, ts), i, t.id) {
      var k := SortedIndex(ts, t);
      var q :| 0 <= q < p && SameHour(v[q], v[p]) && c[q] == Some(b[k].id);
      var j := VisitToTakenBefore(ss, ts, i, t.id, q);
    }
  }

  lemma AssignedSomeFree(ss: seq<Session>, ts: seq<Teacher>, i: nat)
    requires i < |ss| && InGrid(ss[i])
    requires Allocate(ss, ts)[i].assignedTeacher.Some?
    ensures !forall t :: t in ts && Eligible(t, ss[i]) ==> TakenBefore(ss, Allocate(ss, ts), i, t.id)
  {
    var o, b, v := GridOrder(ss), ByName(ts), Visited(ss);
    var c, p := Choices(Eligible, b, v, |o|), PosIn(o, i);
    var r := Allocate(ss, ts);
    UnassignedVisits(ss, ts, i);
    RetaughtSame(ss[i], None);
    var k :| 0 <= k < |b| && Eligible(b[k], v[p]) &&
      !exists q :: 0 <= q < p && SameHour(v[q], v[p]) && c[q] == Some(b[k].id);
    ByNameMember(ts, k);
    NotTakenBefore(ss, ts, i, b[k].id);
  }

  /** A teacher no earlier visit of the hour chose holds no earlier row of the hour. */
  lemma NotTakenBefore(ss: seq<Session>, ts: seq<Teacher>, i: nat, id: Id)
    requires i < |ss| && InGrid(ss[i])
    requires var o, v := GridOrder(ss), Visited(ss);
      var c, p := Choices(Eligible, ByName(ts), v, |o|), PosIn(o, i);
      p < |o| && !exists q :: 0 <= q < p && SameHour(v[q], v[p]) && c[q] == Some(id)
    ensures !TakenBefore(ss, Allocate(ss, ts), i, id)
  {
    if TakenBefore(ss, Allocate(ss, ts), i, id) {
      var j :| 0 <= j < |ss| && InGrid(ss[j]) && SameHour(ss[j], ss[i]) && Before(Keys(ss), j, i)
        && Allocate(ss, ts)[j].assignedTeacher == Some(id);
      var q := TakenBeforeToVisit(ss, ts, i, id, j);
      assert false;
    }
  }

  /** Where a teacher of the store stands among the sorted teachers. */
  lemma SortedIndex(ts: seq<Teacher>, t: Teacher) returns (k: nat)
    requires t in ts
    ensures k < |ByName(ts)| && ByName(ts)[k] == t
  {
    ByNameSorted(ts);
    assert t in multiset(ByName(ts));
    k :| 0 <= k < |ByName(ts)| && ByName(ts)[k] == t;
  }
}
