/**
 * Grid repair: the startup pass that merges duplicate grid cells and clears
 * double bookings (`deduplicate_grid_sessions`), and the lookup of one cell's
 * session used by the editor (`get_or_create_grid_cell_session`).
 *
 * The store is a sequence of sessions in increasing id order, so "the first
 * by id" is "the first in the sequence". Both operations are specified here
 * as functions of the old store; the class in the store module performs them
 * in place and is proved to agree with these functions.
 */
module Grid {
  import opened Vocabulary
  import opened Records
  import opened Selection

  // ---------------------------------------------------------------- merging a cell

  /**
   * The teacher a cell keeps when its sessions are merged in id order: the
   * first one's own teacher, or else the teacher of the first later one that
   * has one.
   */
  function MergedTeacher(ss: seq<Session>, c: Cell): Option<Id>
  {
    if ss == [] then None
    else
      var n := |ss| - 1;
      var f := MergedTeacher(ss[..n], c);
      if f.Some? then f else if CellOf(ss[n]) == c then ss[n].assignedTeacher else None
  }

  /** The merged teacher is held by a session of the cell, and none before it in the cell holds one. */
  lemma {:induction false} MergedTeacherSpec(ss: seq<Session>, c: Cell)
    ensures MergedTeacher(ss, c).None? <==>
      forall i :: 0 <= i < |ss| && CellOf(ss[i]) == c ==> ss[i].assignedTeacher.None?
    ensures MergedTeacher(ss, c).Some? ==>
      exists i :: 0 <= i < |ss| && CellOf(ss[i]) == c && ss[i].assignedTeacher == MergedTeacher(ss, c)
        && forall j :: 0 <= j < i && CellOf(ss[j]) == c ==> ss[j].assignedTeacher.None?
  {
    if ss != [] {
      var n := |ss| - 1;
      var init := ss[..n];
      MergedTeacherSpec(init, c);
      assert forall i :: 0 <= i < n ==> init[i] == ss[i];
      if MergedTeacher(init, c).Some? {
        var i :| 0 <= i < n && CellOf(init[i]) == c && init[i].assignedTeacher == MergedTeacher(init, c)
          && forall j :: 0 <= j < i && CellOf(init[j]) == c ==> init[j].assignedTeacher.None?;
        assert CellOf(ss[i]) == c && ss[i].assignedTeacher == MergedTeacher(ss, c);
      } else if MergedTeacher(ss, c).Some? {
        assert CellOf(ss[n]) == c && ss[n].assignedTeacher == MergedTeacher(ss, c);
      }
    }
  }

  // ---------------------------------------------------------------- deduplicate_grid_sessions

  /** No earlier session shares the cell: the one `by_cell` keeps. */
  predicate CellFirst(ss: seq<Session>, i: nat)
    requires i < |ss|
  {
    forall k :: 0 <= k < i ==> CellOf(ss[k]) != CellOf(ss[i])
  }

  /** The key of `by_teacher_slot`: the hour and the teacher. */
  function HourKey(s: Session): (Option<string>, string, Option<Id>)
  {
    (s.day, s.slot, s.assignedTeacher)
  }

  /** No earlier grid session has the same teacher in the same hour: the one `by_teacher_slot` spares. */
  predicate HourFirst(ss: seq<Session>, i: nat)
    requires i < |ss|
  {
    forall k :: 0 <= k < i && InGrid(ss[k]) ==> HourKey(ss[k]) != HourKey(ss[i])
  }

  /** The row survives the repair: it is outside the grid or the first of its cell. */
  predicate Kept(ss: seq<Session>, i: nat)
    requires i < |ss|
  {
    !InGrid(ss[i]) || CellFirst(ss, i)
  }

  /** A grid row whose teacher the conflict pass clears; deleted rows are among them. */
  predicate Conflicting(ss: seq<Session>, i: nat)
    requires i < |ss|
  {
    InGrid(ss[i]) && ss[i].assignedTeacher.Some? && !HourFirst(ss, i)
  }

  /**
   * The teacher a grid row holds after the repair. A row that had a teacher
   * keeps it only if it came first in its (day, slot, teacher) group, which
   * was collected before any merging; a row that had none takes the merged
   * teacher of its cell, and the conflict pass never looks at it again.
   */
  function RepairedTeacher(ss: seq<Session>, i: nat): Option<Id>
    requires i < |ss|
  {
    if ss[i].assignedTeacher.Some? then
      if HourFirst(ss, i) then ss[i].assignedTeacher else None
    else
      MergedTeacher(ss, CellOf(ss[i]))
  }

  /** The row as it ends up: grid rows may change teacher, other rows are not touched. */
  function Repaired(ss: seq<Session>, i: nat): Session
    requires i < |ss|
  {
    if InGrid(ss[i]) then ss[i].(assignedTeacher := RepairedTeacher(ss, i)) else ss[i]
  }

  function KeepFlags(ss: seq<Session>): (r: seq<bool>)
    ensures |r| == |ss| && forall i :: 0 <= i < |ss| ==> r[i] == Kept(ss, i)
  {
    seq(|ss|, i requires 0 <= i < |ss| => Kept(ss, i))
  }

  function DropFlags(ss: seq<Session>): (r: seq<bool>)
    ensures |r| == |ss| && forall i :: 0 <= i < |ss| ==> r[i] == !Kept(ss, i)
  {
    seq(|ss|, i requires 0 <= i < |ss| => !Kept(ss, i))
  }

  function ConflictFlags(ss: seq<Session>): (r: seq<bool>)
    ensures |r| == |ss| && forall i :: 0 <= i < |ss| ==> r[i] == Conflicting(ss, i)
  {
    seq(|ss|, i requires 0 <= i < |ss| => Conflicting(ss, i))
  }

  function RepairedRows(ss: seq<Session>): (r: seq<Session>)
    ensures |r| == |ss| && forall i :: 0 <= i < |ss| ==> r[i] == Repaired(ss, i)
  {
    seq(|ss|, i requires 0 <= i < |ss| => Repaired(ss, i))
  }

  /** The store after `deduplicate_grid_sessions`: the surviving rows, repaired, in store order. */
  function Dedup(ss: seq<Session>): seq<Session>
  {
    Select(RepairedRows(ss), KeepFlags(ss))
  }

  /** `removed`: the grid rows deleted because an earlier row has their cell. */
  function DedupRemoved(ss: seq<Session>): nat
  {
    Count(DropFlags(ss))
  }

  /** `unassigned_conflicts`: the grid rows that lost their teacher to an earlier row in the same hour. */
  function DedupConflicts(ss: seq<Session>): nat
  {
    Count(ConflictFlags(ss))
  }

  /** The repaired store lists exactly the surviving rows, repaired, and `removed` is how many went. */
  lemma DedupRows(ss: seq<Session>)
    ensures var r, ks := Dedup(ss), Chosen(KeepFlags(ss));
      && |r| == |ks|
      && (forall p :: 0 <= p < |ks| ==> ks[p] < |ss| && Kept(ss, ks[p]) && r[p] == Repaired(ss, ks[p]))
      && (forall i :: 0 <= i < |ss| && Kept(ss, i) ==> i in ks)
      && (forall p, q :: 0 <= p < q < |ks| ==> ks[p] < ks[q])
    ensures |Dedup(ss)| + DedupRemoved(ss) == |ss|
  {
    SelectChosen(RepairedRows(ss), KeepFlags(ss));
    CountComplement(KeepFlags(ss), DropFlags(ss));
  }

  // ---------------------------------------------------------------- the repair, one row at a time

  /**
   * Row `j` after the merge pass has seen the first `i` rows: a grid row
   * carries the merged teacher of its cell among those rows.
   */
  function MergedRow(ss: seq<Session>, i: nat, j: nat): Session
    requires j < |ss| && i <= |ss|
  {
    if InGrid(ss[j]) then ss[j].(assignedTeacher := MergedTeacher(ss[..i], CellOf(ss[j]))) else ss[j]
  }

  /** One more row seen: a cell with no merged teacher yet takes the new row's teacher if the row is in it. */
  lemma MergeStep(ss: seq<Session>, i: nat)
    requires i < |ss|
    ensures forall c ::
      MergedTeacher(ss[..i + 1], c) ==
        (if MergedTeacher(ss[..i], c).Some? then MergedTeacher(ss[..i], c)
         else if CellOf(ss[i]) == c then ss[i].assignedTeacher else None)
  {
    assert ss[..i + 1][..i] == ss[..i];
    assert ss[..i + 1][i] == ss[i];
  }

  /** One more row seen, for a row seen before it. */
  lemma MergedRowStep(ss: seq<Session>, i: nat, j: nat)
    requires j < i < |ss|
    ensures MergedRow(ss, i + 1, j) ==
      if InGrid(ss[j]) && CellOf(ss[j]) == CellOf(ss[i]) && MergedRow(ss, i, j).assignedTeacher.None?
      then MergedRow(ss, i, j).(assignedTeacher := ss[i].assignedTeacher)
      else MergedRow(ss, i, j)
  {
    MergeStep(ss, i);
  }

  /** The cells of the grid rows among the first `i`. */
  function CellsSeen(ss: seq<Session>, i: nat): set<Cell>
    requires i <= |ss|
  {
    if i == 0 then {} else CellsSeen(ss, i - 1) + (if InGrid(ss[i - 1]) then {CellOf(ss[i - 1])} else {})
  }

  lemma CellsSeenSpec(ss: seq<Session>, i: nat)
    requires i <= |ss|
    ensures forall c :: c in CellsSeen(ss, i) <==> exists j :: 0 <= j < i && InGrid(ss[j]) && CellOf(ss[j]) == c
  {
    forall c ensures c in CellsSeen(ss, i) <==> exists j :: 0 <= j < i && InGrid(ss[j]) && CellOf(ss[j]) == c {
      CellSeenAt(ss, i, c);
    }
  }

  /** A cell is among those seen in the first `i` rows exactly when one of those rows is a grid row in it. */
  lemma {:induction false} CellSeenAt(ss: seq<Session>, i: nat, c: Cell)
    requires i <= |ss|
    ensures c in CellsSeen(ss, i) <==> exists j :: 0 <= j < i && InGrid(ss[j]) && CellOf(ss[j]) == c
  {
    if i > 0 {
      CellSeenAt(ss, i - 1, c);
      CellRowSnoc(ss, i, c);
    }
  }

  /** A grid row of cell `c` among the first `i` rows is the last of them or one before it. */
  lemma CellRowSnoc(ss: seq<Session>, i: nat, c: Cell)
    requires 0 < i <= |ss|
    ensures (exists j :: 0 <= j < i && InGrid(ss[j]) && CellOf(ss[j]) == c) <==>
            (exists j :: 0 <= j < i - 1 && InGrid(ss[j]) && CellOf(ss[j]) == c) || (InGrid(ss[i - 1]) && CellOf(ss[i - 1]) == c)
  {
    var rows := seq(i, j requires 0 <= j < i => InGrid(ss[j]) && CellOf(ss[j]) == c);
    SomeSnoc(rows);
  }

  /** A grid row whose cell was seen before is not the first of its cell, and the repair drops it. */
  lemma SeenCellDropped(ss: seq<Session>, i: nat)
    requires i < |ss| && InGrid(ss[i]) && CellOf(ss[i]) in CellsSeen(ss, i)
    ensures !Kept(ss, i)
  {
    CellsSeenSpec(ss, i);
  }

  /** A grid row whose cell was not seen before is kept, and after it is seen it holds its own teacher. */
  lemma UnseenCellKept(ss: seq<Session>, i: nat)
    requires i < |ss| && InGrid(ss[i]) && CellOf(ss[i]) !in CellsSeen(ss, i)
    ensures Kept(ss, i) && MergedRow(ss, i + 1, i) == ss[i]
  {
    CellsSeenSpec(ss, i);
    NoEarlierRowOfCell(ss, i);
    MergeStep(ss, i);
  }

  /** Rows in the same cell are both in the grid or both outside it. */
  lemma SameCellInGrid(a: Session, b: Session)
    requires CellOf(a) == CellOf(b)
    ensures InGrid(a) == InGrid(b)
  {
  }

  /** A grid row with no earlier grid row in its cell is the first of its cell, and its cell has no teacher yet. */
  lemma NoEarlierRowOfCell(ss: seq<Session>, i: nat)
    requires i < |ss| && InGrid(ss[i])
    requires forall j :: 0 <= j < i && InGrid(ss[j]) ==> CellOf(ss[j]) != CellOf(ss[i])
    ensures CellFirst(ss, i) && Kept(ss, i)
    ensures MergedTeacher(ss[..i], CellOf(ss[i])).None?
  {
    forall j | 0 <= j < i ensures CellOf(ss[j]) != CellOf(ss[i]) {
      if CellOf(ss[j]) == CellOf(ss[i]) {
        SameCellInGrid(ss[j], ss[i]);
      }
    }
    MergedTeacherSpec(ss[..i], CellOf(ss[i]));
  }

  /** The first row of a cell that has a teacher is the merged teacher of its cell. */
  lemma FirstMergedTeacher(ss: seq<Session>, i: nat)
    requires i < |ss| && CellFirst(ss, i) && ss[i].assignedTeacher.Some?
    ensures MergedTeacher(ss, CellOf(ss[i])) == ss[i].assignedTeacher
  {
    var c := CellOf(ss[i]);
    MergedTeacherSpec(ss, c);
    var k :| 0 <= k < |ss| && CellOf(ss[k]) == c && ss[k].assignedTeacher == MergedTeacher(ss, c)
      && forall j :: 0 <= j < k && CellOf(ss[j]) == c ==> ss[j].assignedTeacher.None?;
    assert !(k < i) && !(i < k);
  }

  /** A surviving row after both passes: the merged row, less its teacher when the conflict pass clears it. */
  lemma RepairedOfMerged(ss: seq<Session>, i: nat)
    requires i < |ss| && Kept(ss, i)
    ensures Repaired(ss, i) ==
      if Conflicting(ss, i) then MergedRow(ss, |ss|, i).(assignedTeacher := None) else MergedRow(ss, |ss|, i)
    ensures Conflicting(ss, i) <==> (InGrid(ss[i]) && ss[i].assignedTeacher.Some? &&
      exists j :: 0 <= j < i && InGrid(ss[j]) && ss[j].assignedTeacher.Some? && HourKey(ss[j]) == HourKey(ss[i]))
  {
    assert ss[..|ss|] == ss;
    if InGrid(ss[i]) && ss[i].assignedTeacher.Some? {
      FirstMergedTeacher(ss, i);
    }
  }

  /** The conflict test on a row, as the set of hours seen so far answers it. */
  lemma ConflictingSeen(ss: seq<Session>, i: nat)
    requires i < |ss|
    ensures Conflicting(ss, i) <==> (InGrid(ss[i]) && ss[i].assignedTeacher.Some? &&
      exists j :: 0 <= j < i && InGrid(ss[j]) && ss[j].assignedTeacher.Some? && HourKey(ss[j]) == HourKey(ss[i]))
  {
  }

  /** The repair keeps ids in increasing order. */
  lemma DedupIds(ss: seq<Session>)
    requires IdsIncreasing(ss)
    ensures IdsIncreasing(Dedup(ss))
  {
    var r, ks := Dedup(ss), Chosen(KeepFlags(ss));
    DedupRows(ss);
    forall p, q | 0 <= p < q < |r| ensures r[p].id < r[q].id {
      RepairedShape(ss, ks[p]);
      RepairedShape(ss, ks[q]);
    }
  }

  /** A repaired row differs from the original at most in its teacher, and only inside the grid. */
  lemma RepairedShape(ss: seq<Session>, i: nat)
    requires i < |ss|
    ensures Repaired(ss, i) == ss[i].(assignedTeacher := Repaired(ss, i).assignedTeacher)
    ensures CellOf(Repaired(ss, i)) == CellOf(ss[i]) && InGrid(Repaired(ss, i)) == InGrid(ss[i])
    ensures !InGrid(ss[i]) ==> Repaired(ss, i) == ss[i]
  {
  }

  /** Some row of each cell is the first of that cell. */
  lemma {:induction false} FirstOfCell(ss: seq<Session>, i: nat) returns (f: nat)
    requires i < |ss|
    ensures f <= i && CellOf(ss[f]) == CellOf(ss[i]) && CellFirst(ss, f)
    decreases i
  {
    if CellFirst(ss, i) {
      f := i;
    } else {
      var k :| 0 <= k < i && CellOf(ss[k]) == CellOf(ss[i]);
      f := FirstOfCell(ss, k);
    }
  }

  /** The row at `i` survives, repaired. */
  lemma KeptInDedup(ss: seq<Session>, i: nat)
    requires i < |ss| && Kept(ss, i)
    ensures Repaired(ss, i) in Dedup(ss)
  {
    var ks := Chosen(KeepFlags(ss));
    DedupRows(ss);
    var p :| 0 <= p < |ks| && ks[p] == i;
    assert Dedup(ss)[p] == Repaired(ss, i);
  }

  /** After the repair no two surviving rows share a grid cell. */
  lemma DedupOnePerCell(ss: seq<Session>)
    ensures var r := Dedup(ss);
      forall p, q :: 0 <= p < q < |r| && InGrid(r[p]) ==> CellOf(r[p]) != CellOf(r[q])
  {
    var r, ks := Dedup(ss), Chosen(KeepFlags(ss));
    DedupRows(ss);
    forall p, q | 0 <= p < q < |r| && InGrid(r[p]) ensures CellOf(r[p]) != CellOf(r[q]) {
      RepairedShape(ss, ks[p]);
      RepairedShape(ss, ks[q]);
    }
  }

  /** Every grid cell that had sessions keeps one: the one with the lowest id. */
  lemma DedupKeepsCells(ss: seq<Session>)
    requires IdsIncreasing(ss)
    ensures forall i :: 0 <= i < |ss| && InGrid(ss[i]) ==>
      exists x :: x in Dedup(ss) && CellOf(x) == CellOf(ss[i]) && x.id <= ss[i].id
  {
    forall i | 0 <= i < |ss| && InGrid(ss[i])
      ensures exists x :: x in Dedup(ss) && CellOf(x) == CellOf(ss[i]) && x.id <= ss[i].id
    {
      var f := FirstOfCell(ss, i);
      KeptInDedup(ss, f);
      RepairedShape(ss, f);
      assert ss[f].id <= ss[i].id;
    }
  }

  /** Every surviving row is a row of the old store with at most its teacher changed. */
  lemma DedupRowsFromStore(ss: seq<Session>)
    ensures var r := Dedup(ss);
      forall p :: 0 <= p < |r| ==> exists i :: 0 <= i < |ss| && r[p] == ss[i].(assignedTeacher := r[p].assignedTeacher)
  {
    var r, ks := Dedup(ss), Chosen(KeepFlags(ss));
    DedupRows(ss);
    forall p | 0 <= p < |r| ensures exists i :: 0 <= i < |ss| && r[p] == ss[i].(assignedTeacher := r[p].assignedTeacher) {
      RepairedShape(ss, ks[p]);
    }
  }

  /** Rows outside the grid survive unchanged, and every surviving row outside the grid was in the store. */
  lemma DedupOutsideGrid(ss: seq<Session>)
    ensures forall i :: 0 <= i < |ss| && !InGrid(ss[i]) ==> ss[i] in Dedup(ss)
    ensures forall x :: x in Dedup(ss) && !InGrid(x) ==> x in ss
  {
    var r, ks := Dedup(ss), Chosen(KeepFlags(ss));
    DedupRows(ss);
    forall i | 0 <= i < |ss| && !InGrid(ss[i]) ensures ss[i] in r {
      assert Kept(ss, i);
      var p :| 0 <= p < |ks| && ks[p] == i;
      assert r[p] == ss[i];
    }
    forall x | x in r && !InGrid(x) ensures x in ss {
      var p :| 0 <= p < |r| && r[p] == x;
      RepairedShape(ss, ks[p]);
    }
  }

  /**
   * The conflict rule: a surviving grid row that had teacher `t` keeps it
   * exactly when no grid row with a lower id had `t` in the same hour, and
   * otherwise ends with no teacher.
   */
  lemma DedupHourRule(ss: seq<Session>, i: nat)
    requires IdsIncreasing(ss)
    requires i < |ss| && InGrid(ss[i]) && CellFirst(ss, i) && ss[i].assignedTeacher.Some?
    ensures Repaired(ss, i) in Dedup(ss)
    ensures Repaired(ss, i).assignedTeacher == ss[i].assignedTeacher <==>
      forall k :: 0 <= k < |ss| && InGrid(ss[k]) && HourKey(ss[k]) == HourKey(ss[i]) ==> ss[i].id <= ss[k].id
    ensures Repaired(ss, i).assignedTeacher != ss[i].assignedTeacher ==> Repaired(ss, i).assignedTeacher.None?
  {
    KeptInDedup(ss, i);
    if !HourFirst(ss, i) {
      var k :| 0 <= k < i && InGrid(ss[k]) && HourKey(ss[k]) == HourKey(ss[i]);
      assert ss[k].id < ss[i].id;
    } else {
      forall k | 0 <= k < |ss| && InGrid(ss[k]) && HourKey(ss[k]) == HourKey(ss[i]) ensures ss[i].id <= ss[k].id {
        assert !(k < i);
      }
    }
  }

  /**
   * The merge rule: a surviving grid row that had no teacher takes the
   * teacher of the lowest-id row of its cell that has one, or stays empty
   * when none has; the conflict pass does not clear it.
   */
  lemma DedupMergeRule(ss: seq<Session>, i: nat)
    requires IdsIncreasing(ss)
    requires i < |ss| && InGrid(ss[i]) && CellFirst(ss, i) && ss[i].assignedTeacher.None?
    ensures Repaired(ss, i) in Dedup(ss)
    ensures Repaired(ss, i).assignedTeacher.None? <==>
      forall k :: 0 <= k < |ss| && CellOf(ss[k]) == CellOf(ss[i]) ==> ss[k].assignedTeacher.None?
    ensures Repaired(ss, i).assignedTeacher.Some? ==>
      exists k :: 0 <= k < |ss| && CellOf(ss[k]) == CellOf(ss[i]) && ss[k].assignedTeacher == Repaired(ss, i).assignedTeacher
        && forall j :: 0 <= j < |ss| && CellOf(ss[j]) == CellOf(ss[i]) && ss[j].assignedTeacher.Some? ==> ss[k].id <= ss[j].id
  {
    KeptInDedup(ss, i);
    MergedTeacherLowest(ss, CellOf(ss[i]));
  }

  /** In a store in id order the merged teacher is the teacher of the lowest-id row of the cell that has one. */
  lemma MergedTeacherLowest(ss: seq<Session>, c: Cell)
    requires IdsIncreasing(ss)
    ensures MergedTeacher(ss, c).None? <==> forall k :: 0 <= k < |ss| && CellOf(ss[k]) == c ==> ss[k].assignedTeacher.None?
    ensures MergedTeacher(ss, c).Some? ==>
      exists k :: 0 <= k < |ss| && CellOf(ss[k]) == c && ss[k].assignedTeacher == MergedTeacher(ss, c)
        && forall j :: 0 <= j < |ss| && CellOf(ss[j]) == c && ss[j].assignedTeacher.Some? ==> ss[k].id <= ss[j].id
  {
    MergedTeacherSpec(ss, c);
    if MergedTeacher(ss, c).Some? {
      var k :| 0 <= k < |ss| && CellOf(ss[k]) == c && ss[k].assignedTeacher == MergedTeacher(ss, c)
        && forall j :: 0 <= j < k && CellOf(ss[j]) == c ==> ss[j].assignedTeacher.None?;
      forall j | 0 <= j < |ss| && CellOf(ss[j]) == c && ss[j].assignedTeacher.Some? ensures ss[k].id <= ss[j].id {
        assert !(j < k);
      }
    }
  }

  /** No two grid rows share a cell, and no two grid rows share an hour and a teacher. */
  predicate CleanGrid(ss: seq<Session>)
  {
    && (forall i, j :: 0 <= i < j < |ss| && InGrid(ss[i]) && InGrid(ss[j]) ==> CellOf(ss[i]) != CellOf(ss[j]))
    && (forall i, j :: 0 <= i < j < |ss| && InGrid(ss[i]) && InGrid(ss[j]) && ss[i].assignedTeacher.Some? ==>
          HourKey(ss[i]) != HourKey(ss[j]))
  }

  /** On a clean grid every row survives as it is and clears no teacher. */
  lemma CleanRow(ss: seq<Session>, i: nat)
    requires CleanGrid(ss) && i < |ss|
    ensures Kept(ss, i) && !Conflicting(ss, i) && Repaired(ss, i) == ss[i]
  {
    if InGrid(ss[i]) {
      assert CellFirst(ss, i);
      if ss[i].assignedTeacher.Some? {
        assert HourFirst(ss, i);
      } else {
        MergedTeacherSpec(ss, CellOf(ss[i]));
        forall k | 0 <= k < |ss| && CellOf(ss[k]) == CellOf(ss[i]) ensures ss[k].assignedTeacher.None? {
          assert InGrid(ss[k]);
        }
      }
    }
  }

  /** On a clean grid the repair changes nothing and counts nothing. */
  lemma DedupClean(ss: seq<Session>)
    requires CleanGrid(ss)
    ensures Dedup(ss) == ss && DedupRemoved(ss) == 0 && DedupConflicts(ss) == 0
  {
    forall i | 0 <= i < |ss| ensures Kept(ss, i) && !Conflicting(ss, i) && Repaired(ss, i) == ss[i] {
      CleanRow(ss, i);
    }
    assert RepairedRows(ss) == ss;
    SelectAll(ss, KeepFlags(ss));
    SelectAll(ss, DropFlags(ss));
    SelectAll(ss, ConflictFlags(ss));
  }

  /**
   * The repair does not guarantee one teacher per hour. Row `a` holds teacher
   * `t` in one cell; in another cell of the same hour the first row `b` is
   * empty and the extra `c` holds `t`. `by_teacher_slot` groups `a` and `c`,
   * the conflict pass clears the deleted `c`, and the merge has already copied
   * `t` onto `b`: the hour ends with `t` twice.
   */
  lemma DedupDoubleBooking(a: Session, b: Session, c: Session)
    requires InGrid(a) && InGrid(b) && SameCell(b, c) && SameHour(a, b) && !SameCell(a, b)
    requires a.id < b.id < c.id
    requires a.assignedTeacher.Some? && b.assignedTeacher.None? && c.assignedTeacher == a.assignedTeacher
    ensures var r := Dedup([a, b, c]);
      |r| == 2 && InGrid(r[0]) && InGrid(r[1]) && SameHour(r[0], r[1])
      && r[0].assignedTeacher == r[1].assignedTeacher == a.assignedTeacher
  {
    var ss := [a, b, c];
    DoubleBookingRows(ss, a, b, c);
    var rs := RepairedRows(ss);
    assert rs == [rs[0], rs[1], rs[2]];
    SelectFirstTwo(rs[0], rs[1], rs[2]);
  }

  lemma SelectFirst<T>(x: T, y: T)
    ensures Select([x, y], [true, false]) == [x]
  {
    SelectSnoc([], [], x, true);
    assert [] + [x] == [x] && [] + [true] == [true];
    SelectSnoc([x], [true], y, false);
    assert [x] + [y] == [x, y] && [true] + [false] == [true, false];
  }

  lemma SelectFirstTwo<T>(x: T, y: T, z: T)
    ensures Select([x, y, z], [true, true, false]) == [x, y]
  {
    SelectSnoc([], [], x, true);
    assert [] + [x] == [x] && [] + [true] == [true];
    SelectSnoc([x], [true], y, true);
    assert [x] + [y] == [x, y] && [true] + [true] == [true, true];
    SelectSnoc([x, y], [true, true], z, false);
    assert [x, y] + [z] == [x, y, z] && [true, true] + [false] == [true, true, false];
  }

  /** Which rows of the double-booking store survive, and what they become. */
  lemma DoubleBookingRows(ss: seq<Session>, a: Session, b: Session, c: Session)
    requires ss == [a, b, c]
    requires InGrid(a) && InGrid(b) && SameCell(b, c) && !SameCell(a, b)
    requires a.assignedTeacher.Some? && b.assignedTeacher.None? && c.assignedTeacher == a.assignedTeacher
    ensures KeepFlags(ss) == [true, true, false]
    ensures |RepairedRows(ss)| == 3 && RepairedRows(ss)[0] == a
    ensures RepairedRows(ss)[1] == b.(assignedTeacher := a.assignedTeacher)
  {
    assert Kept(ss, 1) by {
      assert CellOf(ss[0]) != CellOf(ss[1]);
    }
    assert !Kept(ss, 2) by {
      assert CellOf(ss[1]) == CellOf(ss[2]);
    }
    assert HourFirst(ss, 0);
    assert MergedTeacher(ss, CellOf(b)) == a.assignedTeacher by {
      MergedTeacherSpec(ss, CellOf(b));
      assert CellOf(ss[0]) != CellOf(b) && CellOf(ss[2]) == CellOf(b);
    }
  }

  /** `unassigned_conflicts` also counts a row that the merge deletes. */
  lemma DedupConflictCountsDeleted(a: Session, b: Session)
    requires InGrid(a) && SameCell(a, b) && a.assignedTeacher.Some? && b.assignedTeacher == a.assignedTeacher
    ensures Dedup([a, b]) == [a] && DedupRemoved([a, b]) == 1 && DedupConflicts([a, b]) == 1
  {
    var ss := [a, b];
    var rs := RepairedRows(ss);
    assert CellOf(ss[0]) == CellOf(ss[1]) && HourKey(ss[0]) == HourKey(ss[1]);
    assert KeepFlags(ss) == [true, false];
    assert DropFlags(ss) == [false, true];
    assert ConflictFlags(ss) == [false, true] by {
      assert HourFirst(ss, 0);
    }
    assert rs[0] == a by {
      assert HourFirst(ss, 0);
    }
    assert rs == [a, rs[1]];
    SelectFirst(a, rs[1]);
    assert Count([false, true]) == 1 by {
      assert [false, true][..1] == [false];
      assert [false][..0] == [];
    }
  }

  // ---------------------------------------------------------------- the repair as evidently intended

  /** A row after the merge pass alone: an empty grid row takes its cell's merged teacher. */
  function MergedOnly(ss: seq<Session>, i: nat): Session
    requires i < |ss|
  {
    if InGrid(ss[i]) && ss[i].assignedTeacher.None? then ss[i].(assignedTeacher := MergedTeacher(ss, CellOf(ss[i]))) else ss[i]
  }

  function MergedRows(ss: seq<Session>): (r: seq<Session>)
    ensures |r| == |ss| && forall i :: 0 <= i < |ss| ==> r[i] == MergedOnly(ss, i)
  {
    seq(|ss|, i requires 0 <= i < |ss| => MergedOnly(ss, i))
  }

  /** The surviving rows once the cells are merged, before any conflict is looked at. */
  function CellsMerged(ss: seq<Session>): seq<Session>
  {
    Select(MergedRows(ss), KeepFlags(ss))
  }

  /** The conflict pass over a store: a grid row loses its teacher when an earlier grid row has it in the same hour. */
  function ConflictsCleared(ms: seq<Session>): (r: seq<Session>)
    ensures |r| == |ms|
    ensures forall i :: 0 <= i < |ms| ==> r[i] == if Conflicting(ms, i) then ms[i].(assignedTeacher := None) else ms[i]
  {
    seq(|ms|, i requires 0 <= i < |ms| => if Conflicting(ms, i) then ms[i].(assignedTeacher := None) else ms[i])
  }

  /**
   * The repair with the conflict pass grouping the rows that survive the
   * merge, by the teachers they hold after it, instead of the rows and
   * teachers read before it.
   */
  function DedupFixed(ss: seq<Session>): seq<Session>
  {
    ConflictsCleared(CellsMerged(ss))
  }

  /** The merge leaves one row per grid cell, each a surviving row with at most its teacher changed. */
  lemma CellsMergedOnePerCell(ss: seq<Session>)
    ensures var m := CellsMerged(ss);
      forall p, q :: 0 <= p < q < |m| && InGrid(m[p]) ==> CellOf(m[p]) != CellOf(m[q])
  {
    var m, kf := CellsMerged(ss), KeepFlags(ss);
    var ks := Chosen(kf);
    SelectChosen(MergedRows(ss), kf);
    forall p, q | 0 <= p < q < |m| && InGrid(m[p]) ensures CellOf(m[p]) != CellOf(m[q]) {
      var i, j := ks[p], ks[q];
      assert i < j < |ss| && kf[i] && kf[j];
      assert m[p] == MergedOnly(ss, i) && m[q] == MergedOnly(ss, j);
      MergedOnlyCell(ss, i);
      MergedOnlyCell(ss, j);
      KeptCellsDistinct(ss, i, j);
    }
  }

  /** Merging changes only the teacher, so a row keeps its cell. */
  lemma MergedOnlyCell(ss: seq<Session>, i: nat)
    requires i < |ss|
    ensures CellOf(MergedOnly(ss, i)) == CellOf(ss[i]) && InGrid(MergedOnly(ss, i)) == InGrid(ss[i])
  {
    SameCellInGrid(MergedOnly(ss, i), ss[i]);
  }

  /** Two surviving grid rows are in different cells. */
  lemma KeptCellsDistinct(ss: seq<Session>, i: nat, j: nat)
    requires i < j < |ss| && Kept(ss, i) && Kept(ss, j) && InGrid(ss[i])
    ensures CellOf(ss[i]) != CellOf(ss[j])
  {
    if CellOf(ss[i]) == CellOf(ss[j]) {
      SameCellInGrid(ss[i], ss[j]);
    }
  }

  /** The corrected repair leaves a clean grid: one row per cell, and no teacher twice in an hour. */
  lemma DedupFixedClean(ss: seq<Session>)
    ensures CleanGrid(DedupFixed(ss))
  {
    var m, r := CellsMerged(ss), DedupFixed(ss);
    CellsMergedOnePerCell(ss);
    forall i, j | 0 <= i < j < |r| && InGrid(r[i]) && InGrid(r[j]) && r[i].assignedTeacher.Some?
      ensures HourKey(r[i]) != HourKey(r[j])
    {
      if r[j].assignedTeacher.Some? {
        assert r[i] == m[i] && r[j] == m[j];
        assert HourFirst(m, j);
      }
    }
  }

  // ---------------------------------------------------------------- get_or_create_grid_cell_session

  /** The outcome of looking up one cell: the new store, where the cell's session is, and how many rows went. */
  datatype CellLookup = CellLookup(store: seq<Session>, index: nat, deduped: nat)

  /** The position of the first session in cell `c`, or `|ss|` when there is none. */
  function FirstInCell(ss: seq<Session>, c: Cell): (r: nat)
    ensures r <= |ss|
    ensures r < |ss| ==> CellOf(ss[r]) == c
    ensures forall k :: 0 <= k < r ==> CellOf(ss[k]) != c
  {
    if ss == [] then 0
    else if CellOf(ss[0]) == c then 0
    else 1 + FirstInCell(ss[1..], c)
  }

  /** How many sessions are in cell `c`. */
  function CellCount(ss: seq<Session>, c: Cell): nat
  {
    if ss == [] then 0 else (if CellOf(ss[0]) == c then 1 else 0) + CellCount(ss[1..], c)
  }

  /** The sessions that are not in cell `c`, in order. */
  function OutsideCell(ss: seq<Session>, c: Cell): seq<Session>
  {
    if ss == [] then []
    else (if CellOf(ss[0]) != c then [ss[0]] else []) + OutsideCell(ss[1..], c)
  }

  /** The session created for an empty cell: the next id, the given skill, no teacher. */
  function NewCellSession(ss: seq<Session>, day: string, slot: string, yearGroup: string, skill: Id): Session
    requires IdsIncreasing(ss)
  {
    Session(NextId(ss), skill, Some(day), slot, Some(yearGroup), None)
  }

  /**
   * `get_or_create_grid_cell_session`: with no session in the cell, a new one
   * is added and nothing was deduplicated; otherwise the first session by id
   * stays where it is with the cell's merged teacher, every later session of
   * the cell is deleted, and `deduped` counts them.
   */
  function GetOrCreate(ss: seq<Session>, day: string, slot: string, yearGroup: string, skill: Id): CellLookup
    requires IdsIncreasing(ss)
  {
    var c := Cell(Some(day), slot, Some(yearGroup));
    var k := FirstInCell(ss, c);
    if k == |ss| then
      CellLookup(ss + [NewCellSession(ss, day, slot, yearGroup, skill)], |ss|, 0)
    else
      CellLookup(Collapsed(ss, c, k, MergedTeacher(ss, c)), k, CellCount(ss[k + 1..], c))
  }

  lemma {:induction false} OutsideAppend(a: seq<Session>, b: seq<Session>, c: Cell)
    ensures OutsideCell(a + b, c) == OutsideCell(a, c) + OutsideCell(b, c)
    ensures CellCount(a + b, c) == CellCount(a, c) + CellCount(b, c)
  {
    if a == [] {
      AppendEmpty(b);
    } else {
      OutsideAppend(a[1..], b, c);
      DropAppend(a, b);
      var h := if CellOf(a[0]) != c then [a[0]] else [];
      var x, y := OutsideCell(a[1..], c), OutsideCell(b, c);
      assert OutsideCell(a + b, c) == h + OutsideCell(a[1..] + b, c);
      AppendAssoc(h, x, y);
    }
  }

  /** One more row: it joins the outside, or counts towards the cell. */
  lemma OutsideSnoc(a: seq<Session>, s: Session, c: Cell)
    ensures OutsideCell(a + [s], c) == OutsideCell(a, c) + (if CellOf(s) != c then [s] else [])
    ensures CellCount(a + [s], c) == CellCount(a, c) + (if CellOf(s) == c then 1 else 0)
  {
    OutsideAppend(a, [s], c);
    assert [s][1..] == [];
  }

  /** A scan that stops at the first row of the cell, or at the end, finds `FirstInCell`. */
  lemma FirstInCellAt(ss: seq<Session>, c: Cell, k: nat)
    requires k <= |ss| && (k < |ss| ==> CellOf(ss[k]) == c)
    requires forall j :: 0 <= j < k ==> CellOf(ss[j]) != c
    ensures FirstInCell(ss, c) == k
  {
    var f := FirstInCell(ss, c);
    assert !(f < k) && !(k < f);
  }

  /** The rows outside the cell are rows of the store. */
  lemma {:induction false} OutsideMembers(ss: seq<Session>, c: Cell)
    ensures forall x :: x in OutsideCell(ss, c) ==> x in ss
  {
    if ss != [] {
      OutsideMembers(ss[1..], c);
    }
  }

  /** Rewriting a row of the cell with another row of the cell does not change what lies outside it. */
  lemma {:induction false} OutsideUpdate(ss: seq<Session>, c: Cell, k: nat, x: Session)
    requires k < |ss| && CellOf(ss[k]) == c && CellOf(x) == c
    ensures OutsideCell(ss[k := x], c) == OutsideCell(ss, c)
    ensures CellCount(ss[k := x], c) == CellCount(ss, c)
  {
    if k > 0 {
      OutsideUpdate(ss[1..], c, k - 1, x);
      assert ss[k := x][1..] == ss[1..][k - 1 := x];
    } else {
      assert ss[k := x][1..] == ss[1..];
    }
  }

  /** Apart from the cell's session, every row after the lookup was a row before it. */
  lemma GetOrCreateFrom(ss: seq<Session>, day: string, slot: string, yearGroup: string, skill: Id)
    requires IdsIncreasing(ss)
    ensures var res := GetOrCreate(ss, day, slot, yearGroup, skill);
      forall p :: 0 <= p < |res.store| && p != res.index ==> res.store[p] in ss
  {
    var c := Cell(Some(day), slot, Some(yearGroup));
    var k := FirstInCell(ss, c);
    var res := GetOrCreate(ss, day, slot, yearGroup, skill);
    if k < |ss| {
      var rest := ss[k + 1..];
      var out := OutsideCell(rest, c);
      OutsideMembers(rest, c);
      forall p | 0 <= p < |res.store| && p != k ensures res.store[p] in ss {
        if p < k {
          assert res.store[p] == ss[p];
        } else {
          assert res.store[p] == out[p - k - 1];
          assert out[p - k - 1] in rest;
        }
      }
    }
  }

  /** None of the rows outside the cell is in it. */
  lemma {:induction false} OutsideNotInCell(ss: seq<Session>, c: Cell)
    ensures forall p :: 0 <= p < |OutsideCell(ss, c)| ==> CellOf(OutsideCell(ss, c)[p]) != c
  {
    if ss != [] {
      OutsideNotInCell(ss[1..], c);
    }
  }

  /** A store with no session in the cell is its own outside, and the outside is as long as the store less the cell. */
  lemma {:induction false} OutsideCount(ss: seq<Session>, c: Cell)
    ensures |OutsideCell(ss, c)| + CellCount(ss, c) == |ss|
    ensures (forall k :: 0 <= k < |ss| ==> CellOf(ss[k]) != c) ==> OutsideCell(ss, c) == ss
  {
    if ss != [] {
      OutsideCount(ss[1..], c);
      if forall k :: 0 <= k < |ss| ==> CellOf(ss[k]) != c {
        assert forall k :: 0 <= k < |ss[1..]| ==> ss[1..][k] == ss[k + 1];
        assert [ss[0]] + ss[1..] == ss;
      }
    }
  }

  /** Leaving rows out keeps ids increasing, and no id falls below the first. */
  lemma {:induction false} OutsideIds(ss: seq<Session>, c: Cell)
    requires IdsIncreasing(ss)
    ensures IdsIncreasing(OutsideCell(ss, c))
    ensures ss != [] ==> forall p :: 0 <= p < |OutsideCell(ss, c)| ==> ss[0].id <= OutsideCell(ss, c)[p].id
  {
    if ss != [] {
      var rest := ss[1..];
      assert IdsIncreasing(rest) by {
        assert forall i :: 0 <= i < |rest| ==> rest[i] == ss[i + 1];
      }
      OutsideIds(rest, c);
      if rest != [] {
        assert ss[0].id < rest[0].id;
      }
    }
  }

  /** The store with the cell's row at `k` given teacher `t` and the cell's later rows deleted. */
  function Collapsed(ss: seq<Session>, c: Cell, k: nat, t: Option<Id>): seq<Session>
    requires k < |ss|
  {
    ss[..k] + [ss[k].(assignedTeacher := t)] + OutsideCell(ss[k + 1..], c)
  }

  /** Collapsing a cell leaves the rows outside it as they were, in order. */
  lemma CollapsedOutside(ss: seq<Session>, c: Cell, k: nat, t: Option<Id>)
    requires k < |ss| && CellOf(ss[k]) == c
    requires forall j :: 0 <= j < k ==> CellOf(ss[j]) != c
    ensures OutsideCell(Collapsed(ss, c, k, t), c) == OutsideCell(ss, c)
  {
    var head, m, rest := ss[..k], ss[k].(assignedTeacher := t), ss[k + 1..];
    var out := OutsideCell(rest, c);
    assert ss == head + [ss[k]] + rest;
    assert OutsideCell(head, c) == head by {
      OutsideCount(head, c);
    }
    assert OutsideCell(out, c) == out by {
      OutsideNotInCell(rest, c);
      OutsideCount(out, c);
    }
    assert OutsideCell([m], c) == [] && OutsideCell([ss[k]], c) == [] by {
      assert [m][1..] == [] && [ss[k]][1..] == [];
    }
    OutsideAppend(head, [ss[k]], c);
    OutsideAppend(head + [ss[k]], rest, c);
    OutsideAppend(head, [m], c);
    OutsideAppend(head + [m], out, c);
  }

  /** After collapsing, the cell's only row is at `k`. */
  lemma CollapsedCell(ss: seq<Session>, c: Cell, k: nat, t: Option<Id>)
    requires k < |ss| && CellOf(ss[k]) == c
    requires forall j :: 0 <= j < k ==> CellOf(ss[j]) != c
    ensures var s := Collapsed(ss, c, k, t);
      && k < |s| && s[k] == ss[k].(assignedTeacher := t)
      && forall p :: 0 <= p < |s| && CellOf(s[p]) == c ==> p == k
  {
    var s, out := Collapsed(ss, c, k, t), OutsideCell(ss[k + 1..], c);
    OutsideNotInCell(ss[k + 1..], c);
    forall p | 0 <= p < |s| && p != k ensures CellOf(s[p]) != c {
      if p < k {
        assert s[p] == ss[p];
      } else {
        assert s[p] == out[p - k - 1];
      }
    }
  }

  /** Collapsing keeps ids increasing. */
  lemma CollapsedIds(ss: seq<Session>, c: Cell, k: nat, t: Option<Id>)
    requires IdsIncreasing(ss) && k < |ss|
    ensures IdsIncreasing(Collapsed(ss, c, k, t))
  {
    var s, rest := Collapsed(ss, c, k, t), ss[k + 1..];
    var out := OutsideCell(rest, c);
    assert IdsIncreasing(rest) by {
      assert forall i :: 0 <= i < |rest| ==> rest[i] == ss[k + 1 + i];
    }
    OutsideIds(rest, c);
    if rest != [] {
      assert ss[k].id < rest[0].id;
    }
    forall i, j | 0 <= i < j < |s| ensures s[i].id < s[j].id {
      if j <= k {
        assert s[i] == ss[i];
      } else if i <= k {
        assert s[j] == out[j - k - 1];
        assert s[i].id <= ss[k].id;
      } else {
        assert s[i] == out[i - k - 1] && s[j] == out[j - k - 1];
      }
    }
  }

  /** Collapsing deletes the cell's rows after `k`, and only those. */
  lemma CollapsedCount(ss: seq<Session>, c: Cell, k: nat, t: Option<Id>)
    requires k < |ss| && CellOf(ss[k]) == c
    requires forall j :: 0 <= j < k ==> CellOf(ss[j]) != c
    ensures |Collapsed(ss, c, k, t)| + CellCount(ss[k + 1..], c) == |ss|
    ensures CellCount(ss, c) == 1 + CellCount(ss[k + 1..], c)
  {
    var head, rest := ss[..k], ss[k + 1..];
    assert ss == head + [ss[k]] + rest;
    OutsideCount(rest, c);
    assert CellCount(head, c) == 0 by {
      OutsideCount(head, c);
    }
    assert CellCount([ss[k]], c) == 1 by {
      assert [ss[k]][1..] == [];
    }
    OutsideAppend(head, [ss[k]], c);
    OutsideAppend(head + [ss[k]], rest, c);
  }

  /** The cell is empty exactly when the search for its first row runs off the end. */
  lemma {:induction false} FirstInCellCount(ss: seq<Session>, c: Cell)
    ensures FirstInCell(ss, c) == |ss| <==> CellCount(ss, c) == 0
  {
    if ss != [] {
      FirstInCellCount(ss[1..], c);
    }
  }

  /**
   * The store after `get_or_create_grid_cell_session`: rows outside the cell
   * are unchanged and in order, the cell has exactly one row, at the returned
   * index, and ids still increase along the store.
   */
  lemma GetOrCreateCell(ss: seq<Session>, day: string, slot: string, yearGroup: string, skill: Id)
    requires IdsIncreasing(ss)
    ensures var c, res := Cell(Some(day), slot, Some(yearGroup)), GetOrCreate(ss, day, slot, yearGroup, skill);
      && OutsideCell(res.store, c) == OutsideCell(ss, c)
      && res.index < |res.store| && CellOf(res.store[res.index]) == c
      && (forall p :: 0 <= p < |res.store| && CellOf(res.store[p]) == c ==> p == res.index)
      && IdsIncreasing(res.store)
  {
    var c := Cell(Some(day), slot, Some(yearGroup));
    var k := FirstInCell(ss, c);
    if k == |ss| {
      var s := GetOrCreate(ss, day, slot, yearGroup, skill).store;
      assert OutsideCell(s, c) == OutsideCell(ss, c) by {
        OutsideAppend(ss, [s[|ss|]], c);
        assert [s[|ss|]][1..] == [];
      }
      assert IdsIncreasing(s) by {
        assert forall i :: 0 <= i < |ss| ==> s[i] == ss[i];
      }
    } else {
      var t := MergedTeacher(ss, c);
      CollapsedOutside(ss, c, k, t);
      CollapsedCell(ss, c, k, t);
      CollapsedIds(ss, c, k, t);
    }
  }

  /** An empty cell gains a fresh empty session with the next id, after every other row. */
  lemma GetOrCreateEmptyCell(ss: seq<Session>, day: string, slot: string, yearGroup: string, skill: Id)
    requires IdsIncreasing(ss) && CellCount(ss, Cell(Some(day), slot, Some(yearGroup))) == 0
    ensures GetOrCreate(ss, day, slot, yearGroup, skill) ==
      CellLookup(ss + [Session(NextId(ss), skill, Some(day), slot, Some(yearGroup), None)], |ss|, 0)
  {
    FirstInCellCount(ss, Cell(Some(day), slot, Some(yearGroup)));
  }

  /**
   * A cell that has sessions keeps its lowest-id one, in place, with the
   * merged teacher; `deduped` is the number of its other rows, all deleted.
   */
  lemma GetOrCreateFoundCell(ss: seq<Session>, day: string, slot: string, yearGroup: string, skill: Id)
    requires IdsIncreasing(ss) && CellCount(ss, Cell(Some(day), slot, Some(yearGroup))) > 0
    ensures var c, res := Cell(Some(day), slot, Some(yearGroup)), GetOrCreate(ss, day, slot, yearGroup, skill);
      && res.index < |ss| && CellOf(ss[res.index]) == c
      && (forall i :: 0 <= i < |ss| && CellOf(ss[i]) == c ==> ss[res.index].id <= ss[i].id)
      && res.store[res.index] == ss[res.index].(assignedTeacher := MergedTeacher(ss, c))
      && res.deduped + 1 == CellCount(ss, c)
      && |res.store| + res.deduped == |ss|
  {
    var c := Cell(Some(day), slot, Some(yearGroup));
    FirstInCellCount(ss, c);
    var k := FirstInCell(ss, c);
    var t := MergedTeacher(ss, c);
    CollapsedCell(ss, c, k, t);
    CollapsedCount(ss, c, k, t);
    forall i | 0 <= i < |ss| && CellOf(ss[i]) == c ensures ss[k].id <= ss[i].id {
      assert !(i < k);
    }
  }

  /** A cell with a single row at `k` is already collapsed. */
  lemma SingleRowCollapsed(s: seq<Session>, c: Cell, k: nat)
    requires k < |s| && CellOf(s[k]) == c
    requires forall p :: 0 <= p < |s| && CellOf(s[p]) == c ==> p == k
    ensures FirstInCell(s, c) == k
    ensures MergedTeacher(s, c) == s[k].assignedTeacher
    ensures Collapsed(s, c, k, s[k].assignedTeacher) == s
    ensures CellCount(s[k + 1..], c) == 0
  {
    FirstInCellAt(s, c, k);
    SingleRowMerged(s, c, k);
    var rest := s[k + 1..];
    forall j | 0 <= j < |rest| ensures CellOf(rest[j]) != c {
      assert rest[j] == s[k + 1 + j];
    }
    OutsideCount(rest, c);
    assert s[k].(assignedTeacher := s[k].assignedTeacher) == s[k];
    AroundAt(s, k);
  }

  /** The one row of a cell holds its merged teacher. */
  lemma SingleRowMerged(s: seq<Session>, c: Cell, k: nat)
    requires k < |s| && CellOf(s[k]) == c
    requires forall p :: 0 <= p < |s| && CellOf(s[p]) == c ==> p == k
    ensures MergedTeacher(s, c) == s[k].assignedTeacher
  {
    MergedTeacherSpec(s, c);
    if MergedTeacher(s, c).Some? {
      var i :| 0 <= i < |s| && CellOf(s[i]) == c && s[i].assignedTeacher == MergedTeacher(s, c)
        && forall j :: 0 <= j < i && CellOf(s[j]) == c ==> s[j].assignedTeacher.None?;
      assert i == k;
    }
  }

  /** Looking the same cell up again finds its one row, deletes nothing and changes nothing. */
  lemma GetOrCreateStable(ss: seq<Session>, day: string, slot: string, yearGroup: string, skill: Id, skill2: Id)
    requires IdsIncreasing(ss)
    ensures var res := GetOrCreate(ss, day, slot, yearGroup, skill);
      IdsIncreasing(res.store) &&
      GetOrCreate(res.store, day, slot, yearGroup, skill2) == CellLookup(res.store, res.index, 0)
  {
    var c := Cell(Some(day), slot, Some(yearGroup));
    var res := GetOrCreate(ss, day, slot, yearGroup, skill);
    GetOrCreateCell(ss, day, slot, yearGroup, skill);
    SingleRowCollapsed(res.store, c, res.index);
  }
}
