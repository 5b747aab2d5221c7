/**
 * Keeping the elements of a sequence whose flag is set, in order: the shape of
 * every filter over the store. The lemmas here know nothing about sessions, so
 * the filters built on them are reasoned about without unfolding their row tests.
 */
module Selection {

  /** The elements of `xs` whose flag in `keep` is set, in order. */
  function Select<T>(xs: seq<T>, keep: seq<bool>): seq<T>
    requires |keep| == |xs|
  {
    if xs == [] then []
    else
      var n := |xs| - 1;
      Select(xs[..n], keep[..n]) + (if keep[n] then [xs[n]] else [])
  }

  /** `r` lists, in increasing order, exactly the positions whose flag is set. */
  predicate ChosenFrom(keep: seq<bool>, r: seq<nat>)
  {
    && (forall p :: 0 <= p < |r| ==> r[p] < |keep| && keep[r[p]])
    && (forall i :: 0 <= i < |keep| && keep[i] ==> i in r)
    && (forall p, q :: 0 <= p < q < |r| ==> r[p] < r[q])
  }

  /** The positions whose flag is set, in increasing order. */
  function Chosen(keep: seq<bool>): (r: seq<nat>)
    ensures ChosenFrom(keep, r)
  {
    if keep == [] then []
    else
      var n := |keep| - 1;
      var init := Chosen(keep[..n]);
      ChosenStep(keep, init);
      init + (if keep[n] then [n] else [])
  }

  lemma ChosenStep(keep: seq<bool>, init: seq<nat>)
    requires keep != [] && ChosenFrom(keep[..|keep| - 1], init)
    ensures ChosenFrom(keep, init + (if keep[|keep| - 1] then [|keep| - 1] else []))
  {
    var n := |keep| - 1;
    var r := init + (if keep[n] then [n] else []);
    forall p | 0 <= p < |r| ensures r[p] < |keep| && keep[r[p]] {
      if p < |init| {
        assert keep[..n][init[p]] == keep[init[p]];
      }
    }
    forall i | 0 <= i < |keep| && keep[i] ensures i in r {
      if i < n {
        assert keep[..n][i] == keep[i];
        assert i in init;
      }
    }
  }

  /** Appending one flag appends its position when it is set. */
  lemma ChosenSnoc(keep: seq<bool>, b: bool)
    ensures Chosen(keep + [b]) == Chosen(keep) + (if b then [|keep|] else [])
  {
    assert (keep + [b])[..|keep|] == keep;
  }

  /** The positions chosen among the first `i` flags start the positions chosen among all of them. */
  lemma {:induction false} ChosenPrefixOf(keep: seq<bool>, i: nat)
    requires i <= |keep|
    ensures |Chosen(keep[..i])| <= |Chosen(keep)|
    ensures Chosen(keep)[..|Chosen(keep[..i])|] == Chosen(keep[..i])
    decreases |keep| - i
  {
    if i < |keep| {
      var a, a1, all := Chosen(keep[..i]), Chosen(keep[..i + 1]), Chosen(keep);
      ChosenPrefixOf(keep, i + 1);
      TakeSnoc(keep, i);
      ChosenSnoc(keep[..i], keep[i]);
      assert a1 == a + (if keep[i] then [i] else []);
      TakeAppend(a, if keep[i] then [i] else []);
      TakeTake(all, |a|, |a1|);
    } else {
      assert keep[..i] == keep;
    }
  }

  /** How many flags are set. */
  function Count(keep: seq<bool>): nat
  {
    if keep == [] then 0 else Count(keep[..|keep| - 1]) + (if keep[|keep| - 1] then 1 else 0)
  }

  /** Counting one more flag. */
  lemma CountSnoc(keep: seq<bool>, i: nat)
    requires i < |keep|
    ensures Count(keep[..i + 1]) == Count(keep[..i]) + (if keep[i] then 1 else 0)
  {
    assert keep[..i + 1][..i] == keep[..i];
  }

  /** No more flags are set than there are flags. */
  lemma {:induction false} CountBound(keep: seq<bool>)
    ensures Count(keep) <= |keep|
  {
    if keep != [] {
      CountBound(keep[..|keep| - 1]);
    }
  }

  /** The selection lists exactly the elements at the chosen positions, and there are `Count` of them. */
  lemma {:induction false} SelectChosen<T>(xs: seq<T>, keep: seq<bool>)
    requires |keep| == |xs|
    ensures |Select(xs, keep)| == |Chosen(keep)| == Count(keep)
    ensures forall p :: 0 <= p < |Chosen(keep)| ==> Select(xs, keep)[p] == xs[Chosen(keep)[p]]
  {
    if xs != [] {
      var n := |xs| - 1;
      SelectChosen(xs[..n], keep[..n]);
      SelectChosenStep(xs, keep);
    }
  }

  lemma SelectChosenStep<T>(xs: seq<T>, keep: seq<bool>)
    requires |keep| == |xs| && xs != []
    requires var n := |xs| - 1;
      && |Select(xs[..n], keep[..n])| == |Chosen(keep[..n])| == Count(keep[..n])
      && forall p :: 0 <= p < |Chosen(keep[..n])| ==> Select(xs[..n], keep[..n])[p] == xs[..n][Chosen(keep[..n])[p]]
    ensures |Select(xs, keep)| == |Chosen(keep)| == Count(keep)
    ensures forall p :: 0 <= p < |Chosen(keep)| ==> Select(xs, keep)[p] == xs[Chosen(keep)[p]]
  {
    var n := |xs| - 1;
    var s0, k0 := Select(xs[..n], keep[..n]), Chosen(keep[..n]);
    forall p | 0 <= p < |Chosen(keep)| ensures Select(xs, keep)[p] == xs[Chosen(keep)[p]] {
      if p < |k0| {
        assert Select(xs, keep)[p] == s0[p] && Chosen(keep)[p] == k0[p];
        assert xs[..n][k0[p]] == xs[k0[p]];
      }
    }
  }

  /** Flags that are complements of each other split the positions between them. */
  lemma {:induction false} CountComplement(a: seq<bool>, b: seq<bool>)
    requires |a| == |b| && forall i :: 0 <= i < |a| ==> a[i] == !b[i]
    ensures Count(a) + Count(b) == |a|
  {
    if a != [] {
      var n := |a| - 1;
      CountComplement(a[..n], b[..n]);
    }
  }

  /** Selecting from a longer sequence adds at most its last element. */
  lemma SelectSnoc<T>(xs: seq<T>, keep: seq<bool>, x: T, b: bool)
    requires |keep| == |xs|
    ensures Select(xs + [x], keep + [b]) == Select(xs, keep) + (if b then [x] else [])
  {
    assert (xs + [x])[..|xs|] == xs;
    assert (keep + [b])[..|keep|] == keep;
  }

  /** Selecting from one more element of a sequence adds at most that element. */
  lemma SelectPrefix<T>(xs: seq<T>, keep: seq<bool>, k: nat)
    requires |keep| == |xs| && k < |xs|
    ensures Select(xs[..k + 1], keep[..k + 1]) == Select(xs[..k], keep[..k]) + (if keep[k] then [xs[k]] else [])
  {
    SelectSnoc(xs[..k], keep[..k], xs[k], keep[k]);
    assert xs[..k + 1] == xs[..k] + [xs[k]] && keep[..k + 1] == keep[..k] + [keep[k]];
  }

  /** With every flag clear nothing is counted; with every flag set everything is selected. */
  lemma {:induction false} SelectAll<T>(xs: seq<T>, keep: seq<bool>)
    requires |keep| == |xs|
    ensures (forall i :: 0 <= i < |keep| ==> keep[i]) ==> Select(xs, keep) == xs
    ensures (forall i :: 0 <= i < |keep| ==> !keep[i]) ==> Count(keep) == 0
  {
    if xs != [] {
      var n := |xs| - 1;
      SelectAll(xs[..n], keep[..n]);
      assert xs[..n] + [xs[n]] == xs;
    }
  }

  /** An element is selected exactly when it sits at a position whose flag is set. */
  lemma SelectMembers<T>(xs: seq<T>, keep: seq<bool>)
    requires |keep| == |xs|
    ensures forall x :: x in Select(xs, keep) <==> exists i :: 0 <= i < |xs| && keep[i] && xs[i] == x
  {
    SelectChosen(xs, keep);
    var r, ks := Select(xs, keep), Chosen(keep);
    forall x | x in r ensures exists i :: 0 <= i < |xs| && keep[i] && xs[i] == x {
      var p :| 0 <= p < |r| && r[p] == x;
      assert keep[ks[p]] && xs[ks[p]] == x;
    }
    forall i | 0 <= i < |xs| && keep[i] ensures xs[i] in r {
      assert i in ks;
      var p :| 0 <= p < |ks| && ks[p] == i;
      assert r[p] == xs[i];
    }
  }

  // ---------------------------------------------------------------- slices

  /** A sequence is the part before `k`, the element at `k` and the part after it. */
  lemma AroundAt<T>(s: seq<T>, k: nat)
    requires k < |s|
    ensures s[..k] + [s[k]] + s[k + 1..] == s
  {
  }

  /** The first `m` of the first `n` elements are the first `m`. */
  lemma TakeTake<T>(s: seq<T>, m: nat, n: nat)
    requires m <= n <= |s|
    ensures s[..n][..m] == s[..m]
  {
  }

  /** A concatenation starts with its first part. */
  lemma TakeAppend<T>(a: seq<T>, b: seq<T>)
    ensures (a + b)[..|a|] == a
  {
  }

  lemma AppendEmpty<T>(b: seq<T>)
    ensures [] + b == b
  {
  }

  /** A concatenation with a non-empty first part starts with its head and goes on with the rest. */
  lemma DropAppend<T>(a: seq<T>, b: seq<T>)
    requires a != []
    ensures (a + b)[0] == a[0] && (a + b)[1..] == a[1..] + b
  {
  }

  lemma AppendAssoc<T>(x: seq<T>, y: seq<T>, z: seq<T>)
    ensures x + (y + z) == (x + y) + z
  {
  }

  /** The first `k + 1` elements are the first `k` and then element `k`. */
  lemma TakeSnoc<T>(s: seq<T>, k: nat)
    requires k < |s|
    ensures s[..k + 1] == s[..k] + [s[k]]
  {
  }

  /** Some flag among the first `|flags|` is set exactly when one among all but the last is, or the last is. */
  lemma SomeSnoc(flags: seq<bool>)
    requires flags != []
    ensures (exists j :: 0 <= j < |flags| && flags[j]) <==>
            (exists j :: 0 <= j < |flags| - 1 && flags[j]) || flags[|flags| - 1]
  {
  }
}
