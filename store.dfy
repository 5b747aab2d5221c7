/**
 * The three tables as one in-memory store, and the operations of the engine
 * that change it in place: the startup repair of the grid, the lookup of one
 * cell for the editor, the allocator and the edit routes. Each method is
 * proved to leave the store as the matching function of the old store says.
 */
module Store {
  import opened Vocabulary
  import opened Selection
  import opened Records
  import opened Grid
  import opened Allocation
  import opened Allocator
  import opened Availability
  import opened Edits

  /** What the merge pass knows after the first `i` rows. */
  ghost predicate MergeInv(ss: seq<Session>, i: nat, out: seq<Session>, keep: seq<bool>, kept: seq<nat>,
                           firstAt: map<Cell, nat>, removed: nat)
  {
    && i <= |ss| && keep == KeepFlags(ss)[..i] && kept == Chosen(keep) && |out| == |kept|
    && (forall p :: 0 <= p < |out| ==> kept[p] < i && out[p] == MergedRow(ss, i, kept[p]))
    && firstAt.Keys == CellsSeen(ss, i)
    && (forall c :: c in firstAt ==> firstAt[c] < |out| && InGrid(ss[kept[firstAt[c]]]) && CellOf(ss[kept[firstAt[c]]]) == c)
    && (forall p :: 0 <= p < |out| && InGrid(ss[kept[p]]) ==> CellOf(ss[kept[p]]) in firstAt && firstAt[CellOf(ss[kept[p]])] == p)
    && removed == Count(DropFlags(ss)[..i])
  }

  /** Row `i` is kept: it is outside the grid, or the first of a cell not seen yet. */
  lemma MergeKept(ss: seq<Session>, i: nat, out: seq<Session>, keep: seq<bool>, kept: seq<nat>,
                  firstAt: map<Cell, nat>, removed: nat)
    requires MergeInv(ss, i, out, keep, kept, firstAt, removed) && i < |ss|
    requires !InGrid(ss[i]) || CellOf(ss[i]) !in firstAt
    ensures MergeInv(ss, i + 1, out + [ss[i]], keep + [true], kept + [i],
                     if InGrid(ss[i]) then firstAt[CellOf(ss[i]) := |out|] else firstAt, removed)
  {
    MergeKeptFlags(ss, i, out, keep, kept, firstAt, removed);
    MergeKeptRows(ss, i, out, keep, kept, firstAt, removed);
    MergeKeptIndex(ss, i, out, keep, kept, firstAt, removed);
  }

  lemma MergeKeptFlags(ss: seq<Session>, i: nat, out: seq<Session>, keep: seq<bool>, kept: seq<nat>,
                       firstAt: map<Cell, nat>, removed: nat)
    requires MergeInv(ss, i, out, keep, kept, firstAt, removed) && i < |ss|
    requires !InGrid(ss[i]) || CellOf(ss[i]) !in firstAt
    ensures keep + [true] == KeepFlags(ss)[..i + 1] && kept + [i] == Chosen(keep + [true])
    ensures removed == Count(DropFlags(ss)[..i + 1])
  {
    var kf, df := KeepFlags(ss), DropFlags(ss);
    if InGrid(ss[i]) {
      UnseenCellKept(ss, i);
    }
    assert kf[i] == Kept(ss, i) == true && df[i] == false;
    CountSnoc(df, i);
    ChosenSnoc(keep, true);
    assert kf[..i + 1] == keep + [true];
  }

  lemma MergeKeptRows(ss: seq<Session>, i: nat, out: seq<Session>, keep: seq<bool>, kept: seq<nat>,
                      firstAt: map<Cell, nat>, removed: nat)
    requires MergeInv(ss, i, out, keep, kept, firstAt, removed) && i < |ss|
    requires !InGrid(ss[i]) || CellOf(ss[i]) !in firstAt
    ensures forall p :: 0 <= p < |out| + 1 ==> (kept + [i])[p] < i + 1 && (out + [ss[i]])[p] == MergedRow(ss, i + 1, (kept + [i])[p])
  {
    var s := ss[i];
    if InGrid(s) {
      UnseenCellKept(ss, i);
    }
    forall p | 0 <= p < |out| ensures out[p] == MergedRow(ss, i + 1, kept[p]) {
      MergedRowStep(ss, i, kept[p]);
      if InGrid(ss[kept[p]]) && CellOf(ss[kept[p]]) == CellOf(s) {
        SameCellInGrid(ss[kept[p]], s);
      }
    }
  }

  lemma MergeKeptIndex(ss: seq<Session>, i: nat, out: seq<Session>, keep: seq<bool>, kept: seq<nat>,
                       firstAt: map<Cell, nat>, removed: nat)
    requires MergeInv(ss, i, out, keep, kept, firstAt, removed) && i < |ss|
    requires !InGrid(ss[i]) || CellOf(ss[i]) !in firstAt
    ensures var f := if InGrid(ss[i]) then firstAt[CellOf(ss[i]) := |out|] else firstAt;
      var out', kept' := out + [ss[i]], kept + [i];
      && f.Keys == CellsSeen(ss, i + 1)
      && (forall c :: c in f ==> f[c] < |out'| && InGrid(ss[kept'[f[c]]]) && CellOf(ss[kept'[f[c]]]) == c)
      && (forall p :: 0 <= p < |out'| && InGrid(ss[kept'[p]]) ==> CellOf(ss[kept'[p]]) in f && f[CellOf(ss[kept'[p]])] == p)
  {
  }

  /** Row `i` is a later row of a cell already seen: it is dropped and may hand its teacher to the kept row. */
  lemma MergeDropped(ss: seq<Session>, i: nat, out: seq<Session>, keep: seq<bool>, kept: seq<nat>,
                     firstAt: map<Cell, nat>, removed: nat)
    requires MergeInv(ss, i, out, keep, kept, firstAt, removed) && i < |ss|
    requires InGrid(ss[i]) && CellOf(ss[i]) in firstAt
    ensures var p := firstAt[CellOf(ss[i])];
      var out' := if out[p].assignedTeacher.None? && ss[i].assignedTeacher.Some?
                  then out[p := out[p].(assignedTeacher := ss[i].assignedTeacher)] else out;
      MergeInv(ss, i + 1, out', keep + [false], kept, firstAt, removed + 1)
  {
    MergeDroppedFlags(ss, i, keep, removed);
    MergeDroppedRows(ss, i, out, keep, kept, firstAt, removed);
  }

  lemma MergeDroppedFlags(ss: seq<Session>, i: nat, keep: seq<bool>, removed: nat)
    requires i < |ss| && keep == KeepFlags(ss)[..i] && removed == Count(DropFlags(ss)[..i])
    requires InGrid(ss[i]) && CellOf(ss[i]) in CellsSeen(ss, i)
    ensures keep + [false] == KeepFlags(ss)[..i + 1] && Chosen(keep) == Chosen(keep + [false])
    ensures removed + 1 == Count(DropFlags(ss)[..i + 1])
    ensures CellsSeen(ss, i + 1) == CellsSeen(ss, i)
  {
    var kf, df := KeepFlags(ss), DropFlags(ss);
    SeenCellDropped(ss, i);
    assert kf[i] == false && df[i] == true;
    CountSnoc(df, i);
    ChosenSnoc(keep, false);
    TakeSnoc(kf, i);
  }

  lemma MergeDroppedRows(ss: seq<Session>, i: nat, out: seq<Session>, keep: seq<bool>, kept: seq<nat>,
                         firstAt: map<Cell, nat>, removed: nat)
    requires MergeInv(ss, i, out, keep, kept, firstAt, removed) && i < |ss|
    requires InGrid(ss[i]) && CellOf(ss[i]) in firstAt
    ensures var p := firstAt[CellOf(ss[i])];
      var out' := if out[p].assignedTeacher.None? && ss[i].assignedTeacher.Some?
                  then out[p := out[p].(assignedTeacher := ss[i].assignedTeacher)] else out;
      forall q :: 0 <= q < |out'| ==> kept[q] < i + 1 && out'[q] == MergedRow(ss, i + 1, kept[q])
  {
    var s := ss[i];
    var p := firstAt[CellOf(s)];
    var out' := if out[p].assignedTeacher.None? && s.assignedTeacher.Some?
                then out[p := out[p].(assignedTeacher := s.assignedTeacher)] else out;
    forall q | 0 <= q < |out'| ensures out'[q] == MergedRow(ss, i + 1, kept[q]) {
      MergedRowStep(ss, i, kept[q]);
    }
  }

  /**
   * The first pass of `deduplicate_grid_sessions`: walking the rows in id
   * order, the first grid row of each cell is kept and takes the teacher of
   * a later row of its cell while it has none; the later rows are dropped
   * and counted. `keep` says which rows stay and `out` lists them.
   */
  method MergeCells(ss: seq<Session>) returns (out: seq<Session>, keep: seq<bool>, removed: nat)
    ensures keep == KeepFlags(ss) && removed == DedupRemoved(ss)
    ensures |out| == |Chosen(keep)|
    ensures forall p :: 0 <= p < |out| ==> out[p] == MergedRow(ss, |ss|, Chosen(keep)[p])
  {
    out, keep, removed := [], [], 0;
    var firstAt: map<Cell, nat> := map[];
    ghost var kept: seq<nat> := [];
    for i := 0 to |ss|
      invariant MergeInv(ss, i, out, keep, kept, firstAt, removed)
    {
      var s := ss[i];
      if !InGrid(s) || CellOf(s) !in firstAt {
        MergeKept(ss, i, out, keep, kept, firstAt, removed);
        if InGrid(s) {
          firstAt := firstAt[CellOf(s) := |out|];
        }
        out := out + [s];
        keep := keep + [true];
        kept := kept + [i];
      } else {
        MergeDropped(ss, i, out, keep, kept, firstAt, removed);
        var p := firstAt[CellOf(s)];
        if out[p].assignedTeacher.None? && s.assignedTeacher.Some? {
          out := out[p := out[p].(assignedTeacher := s.assignedTeacher)];
        }
        keep := keep + [false];
        removed := removed + 1;
      }
    }
    assert ss[..|ss|] == ss && keep == KeepFlags(ss)[..|ss|] == KeepFlags(ss);
    assert DropFlags(ss)[..|ss|] == DropFlags(ss);
  }

  /** The (day, slot, teacher) keys of the grid rows with a teacher among the first `i` rows. */
  ghost predicate SeenKeys(ss: seq<Session>, i: nat, seen: set<(Option<string>, string, Option<Id>)>)
    requires i <= |ss|
  {
    forall x :: x in seen <==> exists j :: 0 <= j < i && InGrid(ss[j]) && ss[j].assignedTeacher.Some? && HourKey(ss[j]) == x
  }

  /** The first `p` surviving rows are repaired; the rest still hold their merged form. */
  ghost predicate RowsCleared(ss: seq<Session>, kept: seq<nat>, merged: seq<Session>, p: nat, out: seq<Session>)
    requires forall q :: 0 <= q < |kept| ==> kept[q] < |ss|
  {
    && p <= |kept| && |out| == |merged| && |merged| == |kept|
    && (forall q :: 0 <= q < p ==> out[q] == Repaired(ss, kept[q]))
    && (forall q :: p <= q < |out| ==> out[q] == merged[q])
  }

  /** What the conflict pass knows after the first `i` rows, `p` of them kept. */
  ghost predicate ClearInv(ss: seq<Session>, keep: seq<bool>, kept: seq<nat>, merged: seq<Session>, i: nat, p: nat,
                           out: seq<Session>, seen: set<(Option<string>, string, Option<Id>)>, conflicts: nat)
    requires keep == KeepFlags(ss) && kept == Chosen(keep) && |merged| == |kept|
  {
    && i <= |ss| && p == |Chosen(keep[..i])|
    && RowsCleared(ss, kept, merged, p, out)
    && SeenKeys(ss, i, seen)
    && conflicts == Count(ConflictFlags(ss)[..i])
  }

  /** Whether row `i` repeats a key already seen: exactly when it is conflicting. */
  lemma ClearHit(ss: seq<Session>, i: nat, seen: set<(Option<string>, string, Option<Id>)>)
    requires i < |ss| && SeenKeys(ss, i, seen)
    ensures Conflicting(ss, i) <==> (InGrid(ss[i]) && ss[i].assignedTeacher.Some? && HourKey(ss[i]) in seen)
    ensures SeenKeys(ss, i + 1, if InGrid(ss[i]) && ss[i].assignedTeacher.Some? then seen + {HourKey(ss[i])} else seen)
  {
    ConflictingSeen(ss, i);
  }

  /** The number of kept rows among the first `i + 1`, and the position of row `i` among them. */
  lemma ClearPosition(keep: seq<bool>, i: nat, p: nat)
    requires i < |keep| && p == |Chosen(keep[..i])|
    ensures p + (if keep[i] then 1 else 0) == |Chosen(keep[..i + 1])| <= |Chosen(keep)|
    ensures keep[i] ==> p < |Chosen(keep)| && Chosen(keep)[p] == i
  {
    ChosenPrefixOf(keep, i + 1);
    TakeSnoc(keep, i);
    ChosenSnoc(keep[..i], keep[i]);
    if keep[i] {
      var all, a1 := Chosen(keep), Chosen(keep[..i + 1]);
      assert a1[p] == i;
      assert all[..p + 1][p] == all[p];
    }
  }

  /** The rows of the conflict pass after row `i`: a kept row `i` takes its repaired form. */
  lemma ClearRows(ss: seq<Session>, kept: seq<nat>, merged: seq<Session>, i: nat, p: nat, p': nat,
                  out: seq<Session>, out': seq<Session>, hit: bool, kept_i: bool)
    requires i < |ss| && |merged| == |kept|
    requires forall q :: 0 <= q < |kept| ==> kept[q] < |ss|
    requires forall q :: 0 <= q < |merged| ==> merged[q] == MergedRow(ss, |ss|, kept[q])
    requires RowsCleared(ss, kept, merged, p, out)
    requires hit <==> Conflicting(ss, i)
    requires kept_i <==> Kept(ss, i)
    requires kept_i ==> p < |kept| && kept[p] == i
    requires p' == if kept_i then p + 1 else p
    requires out' == if hit && kept_i then out[p := out[p].(assignedTeacher := None)] else out
    ensures RowsCleared(ss, kept, merged, p', out')
  {
    if kept_i {
      RepairedOfMerged(ss, i);
      var want := seq(|kept|, q requires 0 <= q < |kept| => Repaired(ss, kept[q]));
      assert out'[p] == want[p] by {
        assert out[p] == merged[p];
      }
      MoveBoundary(out, out', want, merged, p);
    }
  }

  /**
   * A sequence that agrees with `want` before `p` and with `merged` from `p`
   * on, and that takes `want`'s value at `p`, agrees with `want` before `p + 1`.
   */
  lemma MoveBoundary<T>(out: seq<T>, out': seq<T>, want: seq<T>, merged: seq<T>, p: nat)
    requires |out| == |merged| == |want| == |out'| && p < |out|
    requires forall q :: 0 <= q < p ==> out[q] == want[q]
    requires forall q :: p <= q < |out| ==> out[q] == merged[q]
    requires out' == out[p := out'[p]] && out'[p] == want[p]
    ensures forall q :: 0 <= q < p + 1 ==> out'[q] == want[q]
    ensures forall q :: p + 1 <= q < |out'| ==> out'[q] == merged[q]
  {
  }

  /**
   * The second pass of `deduplicate_grid_sessions`: walking the old rows in
   * id order with the (day, slot, teacher) keys seen so far, every grid row
   * whose key was seen is counted, and cleared when it survived the merge.
   */
  method ClearConflicts(ss: seq<Session>, merged: seq<Session>, keep: seq<bool>) returns (out: seq<Session>, conflicts: nat)
    requires keep == KeepFlags(ss) && |merged| == |Chosen(keep)|
    requires forall p :: 0 <= p < |merged| ==> merged[p] == MergedRow(ss, |ss|, Chosen(keep)[p])
    ensures out == Dedup(ss) && conflicts == DedupConflicts(ss)
  {
    out, conflicts := merged, 0;
    ghost var kept := Chosen(keep);
    var seen: set<(Option<string>, string, Option<Id>)> := {};
    var p := 0;
    for i := 0 to |ss|
      invariant ClearInv(ss, keep, kept, merged, i, p, out, seen, conflicts)
    {
      ClearPosition(keep, i, p);
      p, out, seen, conflicts := ClearRow(ss, keep, kept, merged, i, p, out, seen, conflicts);
    }
    ClearDone(ss, keep, kept, merged, p, out, seen, conflicts);
  }

  /**
   * One row of the conflict pass: a row with a teacher whose (day, slot,
   * teacher) key was seen is a conflict, and is cleared only if it survived
   * the merge.
   */
  method ClearRow(ss: seq<Session>, keep: seq<bool>, ghost kept: seq<nat>, merged: seq<Session>, i: nat, p: nat,
                  out: seq<Session>, seen: set<(Option<string>, string, Option<Id>)>, conflicts: nat)
      returns (p': nat, out': seq<Session>, seen': set<(Option<string>, string, Option<Id>)>, conflicts': nat)
    requires keep == KeepFlags(ss) && kept == Chosen(keep) && |merged| == |kept|
    requires forall q :: 0 <= q < |merged| ==> merged[q] == MergedRow(ss, |ss|, kept[q])
    requires ClearInv(ss, keep, kept, merged, i, p, out, seen, conflicts) && i < |ss|
    requires keep[i] ==> p < |kept|
    ensures ClearInv(ss, keep, kept, merged, i + 1, p', out', seen', conflicts')
  {
    p', out', seen', conflicts' := p, out, seen, conflicts;
    var s := ss[i];
    ghost var hit := InGrid(s) && s.assignedTeacher.Some? && HourKey(s) in seen;
    if InGrid(s) && s.assignedTeacher.Some? {
      if HourKey(s) in seen {
        conflicts' := conflicts + 1;
        if keep[i] {
          out' := out[p := out[p].(assignedTeacher := None)];
        }
      }
      seen' := seen + {HourKey(s)};
    }
    if keep[i] {
      p' := p + 1;
    }
    ClearHit(ss, i, seen);
    ClearPosition(keep, i, p);
    ClearCount(ss, i, hit, conflicts, conflicts');
    assert ChosenFrom(keep, kept);
    ClearRows(ss, kept, merged, i, p, p', out, out', hit, keep[i]);
  }

  /** The conflict count after row `i` goes up by one exactly when row `i` is conflicting. */
  lemma ClearCount(ss: seq<Session>, i: nat, hit: bool, conflicts: nat, conflicts': nat)
    requires i < |ss| && conflicts == Count(ConflictFlags(ss)[..i])
    requires hit <==> Conflicting(ss, i)
    requires conflicts' == if hit then conflicts + 1 else conflicts
    ensures conflicts' == Count(ConflictFlags(ss)[..i + 1])
  {
    CountSnoc(ConflictFlags(ss), i);
  }

  /** After the last row the conflict pass has produced the repaired store and the conflict count. */
  lemma ClearDone(ss: seq<Session>, keep: seq<bool>, kept: seq<nat>, merged: seq<Session>, p: nat,
                  out: seq<Session>, seen: set<(Option<string>, string, Option<Id>)>, conflicts: nat)
    requires keep == KeepFlags(ss) && kept == Chosen(keep) && |merged| == |kept|
    requires ClearInv(ss, keep, kept, merged, |ss|, p, out, seen, conflicts)
    ensures out == Dedup(ss) && conflicts == DedupConflicts(ss)
  {
    assert keep[..|ss|] == keep;
    assert ConflictFlags(ss)[..|ss|] == ConflictFlags(ss);
    DedupRows(ss);
    assert |out| == |Dedup(ss)|;
    forall q | 0 <= q < |out|
      ensures out[q] == Dedup(ss)[q]
    {
    }
  }

  /** The position of the first session in cell `c`, by a scan in id order. */
  method FindCell(ss: seq<Session>, c: Cell) returns (k: nat)
    ensures k == FirstInCell(ss, c)
  {
    k := 0;
    while k < |ss| && CellOf(ss[k]) != c
      invariant k <= |ss|
      invariant forall j :: 0 <= j < k ==> CellOf(ss[j]) != c
    {
      k := k + 1;
    }
    FirstInCellAt(ss, c, k);
  }

  /**
   * The loop over the later sessions of a cell whose first session is at
   * `k`: each one may hand its teacher to the first and is deleted.
   */
  method CollapseCell(ss: seq<Session>, c: Cell, k: nat) returns (out: seq<Session>, deduped: nat)
    requires k < |ss| && CellOf(ss[k]) == c
    requires forall j :: 0 <= j < k ==> CellOf(ss[j]) != c
    ensures out == Collapsed(ss, c, k, MergedTeacher(ss, c))
    ensures deduped == CellCount(ss[k + 1..], c)
  {
    MergedTeacherSpec(ss[..k], c);
    MergeStep(ss, k);
    var primary := ss[k];
    var rest: seq<Session> := [];
    deduped := 0;
    for j := k + 1 to |ss|
      invariant CollapseInv(ss, c, k, j, primary, rest, deduped)
    {
      primary, rest, deduped := CollapseRow(ss, c, k, j, primary, rest, deduped);
    }
    assert ss[..|ss|] == ss;
    out := ss[..k] + [primary] + rest;
  }

  /** What the collapse loop knows after the rows before `j`. */
  ghost predicate CollapseInv(ss: seq<Session>, c: Cell, k: nat, j: nat, primary: Session, rest: seq<Session>, deduped: nat)
  {
    && k < j <= |ss|
    && rest == OutsideCell(ss[k + 1..j], c)
    && deduped == CellCount(ss[k + 1..j], c)
    && primary == ss[k].(assignedTeacher := MergedTeacher(ss[..j], c))
  }

  /** One later row of the cell: it may hand its teacher to the first, and it is dropped; other rows stay. */
  method CollapseRow(ss: seq<Session>, c: Cell, k: nat, j: nat, primary: Session, rest: seq<Session>, deduped: nat)
      returns (primary': Session, rest': seq<Session>, deduped': nat)
    requires j < |ss| && CollapseInv(ss, c, k, j, primary, rest, deduped)
    ensures CollapseInv(ss, c, k, j + 1, primary', rest', deduped')
  {
    var s := ss[j];
    MergeStep(ss, j);
    OutsideSnoc(ss[k + 1..j], s, c);
    assert ss[k + 1..j + 1] == ss[k + 1..j] + [s];
    primary', rest', deduped' := primary, rest, deduped;
    if CellOf(s) == c {
      if primary.assignedTeacher.None? && s.assignedTeacher.Some? {
        primary' := primary.(assignedTeacher := s.assignedTeacher);
      }
      deduped' := deduped + 1;
    } else {
      rest' := rest + [s];
    }
  }

  /** The conflict query of the save route: a scan for another session of the hour with the teacher. */
  method FindConflict(ss: seq<Session>, index: nat, day: string, slot: string, id: Id) returns (found: bool)
    ensures found == HourTaken(ss, index, day, slot, id)
  {
    for j := 0 to |ss|
      invariant !exists j' :: 0 <= j' < j && j' != index && AtHour(ss[j'], day, slot) && ss[j'].assignedTeacher == Some(id)
    {
      if j != index && ss[j].day == Some(day) && ss[j].slot == slot && ss[j].assignedTeacher == Some(id) {
        return true;
      }
    }
    return false;
  }

  /** The teacher checks of the save route, the conflict query as a scan. */
  method CheckTeacherRow(store: seq<Session>, index: nat, ts: seq<Teacher>, skill: Id, day: string, slot: string, id: int)
      returns (r: TeacherCheck)
    requires day in DAY_SHORT
    ensures r == CheckTeacher(store, index, ts, skill, day, slot, id)
  {
    var t := FindTeacher(ts, id);
    if t.None? {
      return Refuse(UnknownTeacher);
    }
    if !TeacherIsAvailableForSlot(TeacherSlotTokens(t.value), day, slot) {
      return Refuse(TeacherNotAvailable);
    }
    if skill !in t.value.skills {
      return Refuse(TeacherMissingSkill);
    }
    var conflict := FindConflict(store, index, day, slot, t.value.id);
    if conflict {
      return Refuse(TeacherBusy);
    }
    return Accept(t.value.id);
  }

  /**
   * The save route past the cell lookup: the session takes the skill, then
   * the teacher checks run and the teacher (or none) is written.
   */
  method WriteCell(store: seq<Session>, index: nat, ts: seq<Teacher>, skill: Id, day: string, slot: string,
                   teacherId: Option<int>) returns (outcome: SaveOutcome)
    requires index < |store| && day in DAY_SHORT
    ensures outcome == SaveInCell(store, index, ts, skill, day, slot, teacherId)
  {
    var row := store[index].(requiredSkill := skill);
    if !TeacherGiven(teacherId) {
      return Saved(store[index := row.(assignedTeacher := None)], index);
    }
    // The conflict query skips the cell's own row, so the skill written to it
    // before the checks does not change their answer.
    var check := CheckTeacherRow(store, index, ts, skill, day, slot, teacherId.value);
    if check.Refuse? {
      return Rejected(check.reason);
    }
    outcome := Saved(store[index := row.(assignedTeacher := Some(check.teacher))], index);
  }

  /** `get_or_create_grid_cell_session` on a copy of the sessions table. */
  method LookupCell(ss: seq<Session>, day: string, slot: string, yearGroup: string, skill: Id)
      returns (out: seq<Session>, index: nat, deduped: nat)
    requires IdsIncreasing(ss)
    ensures CellLookup(out, index, deduped) == GetOrCreate(ss, day, slot, yearGroup, skill)
  {
    var c := Cell(Some(day), slot, Some(yearGroup));
    index := FindCell(ss, c);
    if index == |ss| {
      out := ss + [Session(NextId(ss), skill, Some(day), slot, Some(yearGroup), None)];
      deduped := 0;
    } else {
      out, deduped := CollapseCell(ss, c, index);
    }
  }

  /**
   * The save route past the coordinate and skill checks: the cell lookup,
   * then the write. The caller keeps the result only when the save succeeds,
   * which is what the missing commit of a failed request amounts to.
   */
  method SaveInStore(before: seq<Session>, ts: seq<Teacher>, ks: seq<Skill>, day: string, slot: string, yearGroup: string,
                     skillId: Option<int>, teacherId: Option<int>, skill: Skill) returns (outcome: SaveOutcome)
    requires IdsIncreasing(before) && ValidCoordinates(day, slot, yearGroup) && FormSkill(ks, skillId) == Some(skill)
    ensures outcome == Save(before, ts, ks, day, slot, yearGroup, skillId, teacherId)
    ensures outcome.Saved? ==> IdsIncreasing(outcome.store)
  {
    var cur, index, deduped := LookupCell(before, day, slot, yearGroup, skill.id);
    SaveAfterLookup(before, ts, ks, day, slot, yearGroup, skillId, teacherId, skill);
    GetOrCreateCell(before, day, slot, yearGroup, skill.id);
    outcome := WriteCell(cur, index, ts, skill.id, day, slot, teacherId);
    SaveInCellIds(cur, index, ts, skill.id, day, slot, teacherId);
  }

  /** The sessions of the cell deleted one by one: what is left, and how many went. */
  method DropCell(ss: seq<Session>, c: Cell) returns (out: seq<Session>, removed: nat)
    ensures out == OutsideCell(ss, c) && removed == CellCount(ss, c)
  {
    out, removed := [], 0;
    for j := 0 to |ss|
      invariant out == OutsideCell(ss[..j], c) && removed == CellCount(ss[..j], c)
    {
      OutsideSnoc(ss[..j], ss[j], c);
      assert ss[..j + 1] == ss[..j] + [ss[j]];
      if CellOf(ss[j]) == c {
        removed := removed + 1;
      } else {
        out := out + [ss[j]];
      }
    }
    assert ss[..|ss|] == ss;
  }

  /** The bulk update of `delete_teacher`: each session assigned to the teacher loses its teacher. */
  method ReleaseTeacher(ss: seq<Session>, id: Id) returns (out: seq<Session>)
    ensures out == Release(ss, id)
  {
    out := ss;
    for i := 0 to |ss|
      invariant |out| == |ss|
      invariant forall j :: 0 <= j < |ss| ==> out[j] == if j < i then Release(ss, id)[j] else ss[j]
    {
      if out[i].assignedTeacher == Some(id) {
        out := out[i := out[i].(assignedTeacher := None)];
      }
    }
  }

  /** The rows of a table whose flag is set, collected in order. */
  method Keep<T>(xs: seq<T>, flags: seq<bool>) returns (out: seq<T>)
    requires |flags| == |xs|
    ensures out == Select(xs, flags)
  {
    out := [];
    for k := 0 to |xs|
      invariant out == Select(xs[..k], flags[..k])
    {
      SelectSnoc(xs[..k], flags[..k], xs[k], flags[k]);
      assert xs[..k + 1] == xs[..k] + [xs[k]] && flags[..k + 1] == flags[..k] + [flags[k]];
      if flags[k] {
        out := out + [xs[k]];
      }
    }
    assert xs[..|xs|] == xs && flags[..|flags|] == flags;
  }

  class Timetable {
    var teachers: seq<Teacher>
    var skills: seq<Skill>
    /** The sessions table in primary-key order. */
    var sessions: seq<Session>

    ghost predicate Valid()
      reads this
    {
      IdsIncreasing(sessions)
    }

    constructor (teachers: seq<Teacher>, skills: seq<Skill>, sessions: seq<Session>)
      requires IdsIncreasing(sessions)
      ensures Valid()
      ensures this.teachers == teachers && this.skills == skills && this.sessions == sessions
    {
      this.teachers := teachers;
      this.skills := skills;
      this.sessions := sessions;
    }

    /** `deduplicate_grid_sessions`: the merge pass, then the conflict pass, on the grid rows of the store. */
    method DeduplicateGridSessions() returns (removed: nat, conflicts: nat)
      requires Valid()
      modifies this
      ensures Valid()
      ensures sessions == Dedup(old(sessions))
      ensures removed == DedupRemoved(old(sessions)) && conflicts == DedupConflicts(old(sessions))
      ensures teachers == old(teachers) && skills == old(skills)
    {
      var merged, keep;
      merged, keep, removed := MergeCells(sessions);
      DedupIds(sessions);
      sessions, conflicts := ClearConflicts(sessions, merged, keep);
    }

    /**
     * `get_or_create_grid_cell_session`: the cell's first session by id is
     * kept in place, takes a teacher from a later session of the cell when it
     * has none, and every later session of the cell is deleted; an empty cell
     * gets a new session with the next id and the given skill.
     */
    method GetOrCreateGridCellSession(day: string, slot: string, yearGroup: string, skill: Id)
      returns (index: nat, deduped: nat)
      requires Valid()
      modifies this
      ensures Valid()
      ensures CellLookup(sessions, index, deduped) == GetOrCreate(old(sessions), day, slot, yearGroup, skill)
      ensures teachers == old(teachers) && skills == old(skills)
    {
      GetOrCreateCell(sessions, day, slot, yearGroup, skill);
      sessions, index, deduped := LookupCell(sessions, day, slot, yearGroup, skill);
    }

    /**
     * `allocate_sessions`: every grid session loses its teacher, then each in
     * week order gets the least-loaded free teacher with the skill, taken
     * from the teachers in name order. The counts are those of the final log
     * line: every grid session is either assigned or unassigned, and the
     * assigned ones are those that hold a teacher afterwards.
     */
    method AllocateSessions() returns (assignedCount: nat, unassignedCount: nat)
      requires Valid()
      modifies this
      ensures Valid()
      ensures sessions == Allocate(old(sessions), teachers)
      ensures assignedCount + unassignedCount == |GridSessions(old(sessions))|
      ensures assignedCount == Filled(TeachersAt(sessions, GridOrder(old(sessions))))
      ensures teachers == old(teachers) && skills == old(skills)
    {
      var o := GridOrder(sessions);
      GridOrderSpec(sessions);
      AllocateIds(sessions, teachers);
      var cleared := ClearVisited(sessions, o);
      var count;
      sessions, assignedCount, unassignedCount, count := AssignVisited(sessions, o, teachers, cleared);
    }

    /**
     * `save_grid_session`: the checks in the route's order. A failure after
     * the cell lookup ends the request without a commit, so the store goes
     * back to what it was before.
     */
    method SaveGridSession(day: string, slot: string, yearGroup: string, skillId: Option<int>, teacherId: Option<int>)
      returns (outcome: SaveOutcome)
      requires Valid()
      modifies this
      ensures Valid()
      ensures outcome == Save(old(sessions), teachers, skills, day, slot, yearGroup, skillId, teacherId)
      ensures sessions == if outcome.Saved? then outcome.store else old(sessions)
      ensures teachers == old(teachers) && skills == old(skills)
    {
      SaveEarly(sessions, teachers, skills, day, slot, yearGroup, skillId, teacherId);
      if !ValidCoordinates(day, slot, yearGroup) {
        return Rejected(InvalidCoordinates);
      }
      var skill := FormSkill(skills, skillId);
      if skill.None? {
        return Rejected(MissingSkill);
      }
      outcome := SaveInStore(sessions, teachers, skills, day, slot, yearGroup, skillId, teacherId, skill.value);
      if outcome.Saved? {
        sessions := outcome.store;
      }
    }

    /** `clear_grid_session`: delete every session of the cell, or report that there is none. */
    method ClearGridSession(day: string, slot: string, yearGroup: string) returns (outcome: ClearOutcome)
      requires Valid()
      modifies this
      ensures Valid()
      ensures outcome == ClearCell(old(sessions), day, slot, yearGroup)
      ensures sessions == if outcome.CellCleared? then outcome.store else old(sessions)
      ensures teachers == old(teachers) && skills == old(skills)
    {
      ClearCellSpec(sessions, day, slot, yearGroup);
      var out, removed := DropCell(sessions, Cell(Some(day), slot, Some(yearGroup)));
      if removed == 0 {
        return NothingToClear;
      }
      sessions := out;
      outcome := CellCleared(out, removed);
    }

    /** `delete_teacher`: release the teacher's sessions, then delete the teacher. */
    method RemoveTeacher(id: int) returns (outcome: TeacherDeletion)
      requires Valid()
      modifies this
      ensures Valid()
      ensures outcome == DeleteTeacher(old(teachers), old(sessions), id)
      ensures outcome.TeacherDeleted? ==> teachers == outcome.teachers && sessions == outcome.store
      ensures outcome.NoSuchTeacher? ==> teachers == old(teachers) && sessions == old(sessions)
      ensures skills == old(skills)
    {
      var t := FindTeacher(teachers, id);
      if t.None? {
        return NoSuchTeacher;
      }
      ReleaseKeeps(sessions, t.value.id);
      sessions := ReleaseTeacher(sessions, t.value.id);
      teachers := Keep(teachers, OtherTeachers(teachers, t.value.id));
      outcome := TeacherDeleted(teachers, sessions);
    }

    /** `delete_skill`: refused while a session requires the skill; otherwise the skill and its teacher links go. */
    method RemoveSkill(id: int) returns (outcome: SkillDeletion)
      requires Valid()
      modifies this
      ensures Valid()
      ensures outcome == DeleteSkill(old(skills), old(teachers), old(sessions), id)
      ensures outcome.SkillDeleted? ==> skills == outcome.skills && teachers == outcome.teachers
      ensures !outcome.SkillDeleted? ==> skills == old(skills) && teachers == old(teachers)
      ensures sessions == old(sessions)
    {
      var k := FindSkill(skills, id);
      if k.None? {
        return NoSuchSkill;
      }
      var inUse := false;
      for i := 0 to |sessions|
        invariant inUse == exists j :: 0 <= j < i && sessions[j].requiredSkill == k.value.id
      {
        if sessions[i].requiredSkill == k.value.id {
          inUse := true;
        }
      }
      if inUse {
        return SkillInUse;
      }
      var ts := teachers;
      for j := 0 to |ts|
        invariant |ts| == |teachers|
        invariant forall j' :: 0 <= j' < |ts| ==>
          ts[j'] == if j' < j then teachers[j'].(skills := teachers[j'].skills - {k.value.id}) else teachers[j']
      {
        ts := ts[j := ts[j].(skills := ts[j].skills - {k.value.id})];
      }
      skills := Keep(skills, OtherSkills(skills, k.value.id));
      teachers := ts;
      outcome := SkillDeleted(skills, teachers);
    }
  }
}
