/**
 * String handling used by the availability matcher and the import path:
 * whitespace, ASCII lower-casing, `str.strip`, the whitespace-collapsing
 * `normalize`, splitting on the separators `|`, `;` and `,`, joining, and
 * Python's lexicographic string order.
 */
module Text {

  /** The characters for which Python's `str.isspace` holds (they are also what `\s` matches). */
  predicate IsSpace(c: char)
  {
    ('\t' <= c <= '\r') || ('\U{1C}' <= c <= ' ') || c == '\U{85}' || c == '\U{A0}' || c == '\U{1680}'
    || ('\U{2000}' <= c <= '\U{200A}') || c == '\U{2028}' || c == '\U{2029}' || c == '\U{202F}'
    || c == '\U{205F}' || c == '\U{3000}'
  }

  predicate IsUpper(c: char)
  {
    'A' <= c <= 'Z'
  }

  predicate AllSpace(s: string)
  {
    forall i :: 0 <= i < |s| ==> IsSpace(s[i])
  }

  predicate NoSpace(s: string)
  {
    forall c | c in s :: !IsSpace(c)
  }

  /** Neither the first nor the last character is whitespace. */
  predicate IsTrimmed(s: string)
  {
    s == [] || (!IsSpace(s[0]) && !IsSpace(s[|s| - 1]))
  }

  // ---------------------------------------------------------------- lower-casing

  function LowerChar(c: char): (r: char)
    ensures !IsUpper(r)
    ensures IsSpace(r) <==> IsSpace(c)
    ensures !IsUpper(c) ==> r == c
  {
    if IsUpper(c) then (c as int + 32) as char else c
  }

  /** `str.lower`, restricted to the ASCII letters. */
  function Lower(s: string): string
  {
    seq(|s|, i requires 0 <= i < |s| => LowerChar(s[i]))
  }

  lemma LowerConcat(a: string, b: string)
    ensures Lower(a + b) == Lower(a) + Lower(b)
  {
  }

  lemma LowerOfLower(s: string)
    requires forall i :: 0 <= i < |s| ==> !IsUpper(s[i])
    ensures Lower(s) == s
  {
  }

  // ---------------------------------------------------------------- strip

  function TrimStart(s: string): (r: string)
    ensures |r| <= |s| && r == s[|s| - |r|..]
    ensures AllSpace(s[..|s| - |r|])
    ensures r != [] ==> !IsSpace(r[0])
  {
    if s != [] && IsSpace(s[0]) then
      var r := TrimStart(s[1..]);
      TrimStartStep(s, r);
      r
    else
      s
  }

  /** Cutting one leading space before a trimmed tail keeps the shape of `TrimStart`'s result. */
  lemma TrimStartStep(s: string, r: string)
    requires s != [] && IsSpace(s[0])
    requires |r| <= |s| - 1 && r == s[1..][|s| - 1 - |r|..]
    requires AllSpace(s[1..][..|s| - 1 - |r|])
    ensures |r| <= |s| && r == s[|s| - |r|..]
    ensures AllSpace(s[..|s| - |r|])
  {
    var cut := s[..|s| - |r|];
    forall i | 0 <= i < |cut| ensures IsSpace(cut[i]) {
      if i > 0 {
        assert cut[i] == s[1..][..|s| - 1 - |r|][i - 1];
      }
    }
  }

  function TrimEnd(s: string): (r: string)
    ensures |r| <= |s| && r == s[..|r|]
    ensures AllSpace(s[|r|..])
    ensures r != [] ==> !IsSpace(r[|r| - 1])
  {
    if s != [] && IsSpace(s[|s| - 1]) then
      var r := TrimEnd(s[..|s| - 1]);
      TrimEndStep(s, r);
      r
    else
      s
  }

  /** Cutting one trailing space after a trimmed head keeps the shape of `TrimEnd`'s result. */
  lemma TrimEndStep(s: string, r: string)
    requires s != [] && IsSpace(s[|s| - 1])
    requires |r| <= |s| - 1 && r == s[..|s| - 1][..|r|]
    requires AllSpace(s[..|s| - 1][|r|..])
    ensures |r| <= |s| && r == s[..|r|]
    ensures AllSpace(s[|r|..])
  {
    var cut := s[|r|..];
    forall i | 0 <= i < |cut| ensures IsSpace(cut[i]) {
      if i < |cut| - 1 {
        assert cut[i] == s[..|s| - 1][|r|..][i];
      }
    }
  }

  /** `str.strip`: whitespace cut away on both sides. */
  function Strip(s: string): (r: string)
    ensures IsTrimmed(r)
    ensures |r| <= |s|
  {
    TrimEnd(TrimStart(s))
  }

  /**
   * What `str.strip` leaves: the infix of the input starting at `i` with
   * only whitespace before and after it, which neither starts nor ends with
   * whitespace.
   */
  lemma StripSpec(s: string) returns (i: nat)
    ensures IsTrimmed(Strip(s))
    ensures i + |Strip(s)| <= |s| && Strip(s) == s[i..i + |Strip(s)|]
    ensures AllSpace(s[..i]) && AllSpace(s[i + |Strip(s)|..])
  {
    var t := TrimStart(s);
    var r := TrimEnd(t);
    i := |s| - |t|;
    assert Strip(s) == r;
    assert t == s[i..] && r == t[..|r|];
    assert t[|r|..] == s[i + |r|..];
  }

  lemma StripTrimmed(s: string)
    requires IsTrimmed(s)
    ensures Strip(s) == s
  {
  }

  lemma StripInfix(s: string, c: char)
    requires c in Strip(s)
    ensures c in s
  {
    var t := TrimStart(s);
    var r := TrimEnd(t);
    var k :| 0 <= k < |r| && r[k] == c;
    var off := |s| - |t|;
    assert r[k] == t[..|r|][k] == t[k];
    assert t[k] == s[off..][k] == s[off + k];
  }

  lemma StripLeadingSpace(t: string)
    requires t != [] && IsTrimmed(t)
    ensures Strip([' '] + t) == t
  {
    var s := [' '] + t;
    assert s[1..] == t;
    TrimStartNoLead(t);
    assert TrimStart(s) == t;
    assert TrimEnd(t) == t;
  }

  lemma StripNoSep(s: string)
    requires NoSep(s)
    ensures NoSep(Strip(s))
  {
    forall c | c in Strip(s) ensures !IsSep(c) {
      StripInfix(s, c);
    }
  }

  // ---------------------------------------------------------------- collapsing whitespace runs

  /** Every whitespace character is a plain space and no two of them are adjacent. */
  predicate SingleSpaced(s: string)
  {
    && (forall i :: 0 <= i < |s| ==> IsSpace(s[i]) ==> s[i] == ' ')
    && (forall i, j :: 0 <= i < |s| && j == i + 1 < |s| ==> !(IsSpace(s[i]) && IsSpace(s[j])))
  }

  /** `re.sub(r"\s+", " ", s)`: each maximal run of whitespace becomes one space. */
  function Collapse(s: string): (r: string)
    ensures r == [] <==> s == []
    ensures r != [] ==> (IsSpace(r[0]) <==> IsSpace(s[0]))
    ensures r != [] ==> (IsSpace(r[|r| - 1]) <==> IsSpace(s[|s| - 1]))
    ensures SingleSpaced(r)
    decreases |s|
  {
    if s == [] then []
    else if IsSpace(s[0]) then
      var t := TrimStart(s);
      assert t != s;
      assert t != [] ==> t[|t| - 1] == s[|s| - 1];
      [' '] + Collapse(t)
    else
      [s[0]] + Collapse(s[1..])
  }

  lemma {:induction false} CollapseSingleSpaced(s: string)
    requires SingleSpaced(s)
    ensures Collapse(s) == s
    decreases |s|
  {
    if s != [] {
      var tail := s[1..];
      assert Collapse(tail) == tail by {
        SingleSpacedTail(s);
        CollapseSingleSpaced(tail);
      }
      assert Collapse(s) == [s[0]] + Collapse(tail) by {
        CollapseStep(s);
      }
      assert s == [s[0]] + tail;
    }
  }

  /** One step of collapsing a single-spaced string consumes exactly one character. */
  lemma CollapseStep(s: string)
    requires SingleSpaced(s) && s != []
    ensures Collapse(s) == [s[0]] + Collapse(s[1..])
  {
    if IsSpace(s[0]) {
      assert s[0] == ' ';
      assert TrimStart(s) == s[1..] by {
        assert |s| > 1 ==> !IsSpace(s[1]);
        TrimStartNoLead(s[1..]);
      }
    }
  }

  lemma SingleSpacedTail(s: string)
    requires SingleSpaced(s) && s != []
    ensures SingleSpaced(s[1..])
  {
    var t := s[1..];
    assert forall i :: 0 <= i < |t| ==> t[i] == s[i + 1];
  }

  lemma TrimStartNoLead(s: string)
    requires s == [] || !IsSpace(s[0])
    ensures TrimStart(s) == s
  {
  }

  /**
   * The same substitution as a scan over the characters: a non-space
   * character is kept, the first whitespace character of a run becomes one
   * space, and the others are dropped. `afterSpace` says whether the
   * previous character was whitespace.
   */
  function Squeeze(s: string, afterSpace: bool): (r: string)
    ensures |r| <= |s|
  {
    if s == [] then []
    else if IsSpace(s[0]) then (if afterSpace then [] else [' ']) + Squeeze(s[1..], true)
    else [s[0]] + Squeeze(s[1..], false)
  }

  /** Collapsing is the character scan started outside a run. */
  lemma {:induction false} CollapseScan(s: string)
    ensures Collapse(s) == Squeeze(s, false)
    decreases |s|
  {
    if s != [] {
      if IsSpace(s[0]) {
        var t := TrimStart(s);
        CollapseScan(t);
        SqueezeRun(s[1..]);
        assert TrimStart(s) == TrimStart(s[1..]);
        SqueezeAfterWord(t);
      } else {
        CollapseScan(s[1..]);
      }
    }
  }

  /** Inside a run, the rest of the run adds nothing. */
  lemma {:induction false} SqueezeRun(s: string)
    ensures Squeeze(s, true) == Squeeze(TrimStart(s), true)
    decreases |s|
  {
    if s != [] && IsSpace(s[0]) {
      SqueezeRun(s[1..]);
    }
  }

  /** Where no whitespace follows, it does not matter whether a run just ended. */
  lemma SqueezeAfterWord(s: string)
    requires s == [] || !IsSpace(s[0])
    ensures Squeeze(s, true) == Squeeze(s, false)
  {
  }

  /** The characters of `s` that are not whitespace, in order. */
  function Unspaced(s: string): (r: string)
    ensures |r| <= |s|
  {
    if s == [] then [] else (if IsSpace(s[0]) then [] else [s[0]]) + Unspaced(s[1..])
  }

  /** Collapsing keeps every non-space character, in order, and adds none. */
  lemma {:induction false} CollapseKeepsText(s: string)
    ensures Unspaced(Collapse(s)) == Unspaced(s)
  {
    CollapseScan(s);
    SqueezeKeepsText(s, false);
  }

  lemma {:induction false} SqueezeKeepsText(s: string, afterSpace: bool)
    ensures Unspaced(Squeeze(s, afterSpace)) == Unspaced(s)
    decreases |s|
  {
    if s != [] {
      SqueezeKeepsText(s[1..], IsSpace(s[0]));
      var head := if IsSpace(s[0]) then (if afterSpace then [] else [' ']) else [s[0]];
      UnspacedConcat(head, Squeeze(s[1..], IsSpace(s[0])));
    }
  }

  lemma {:induction false} UnspacedConcat(a: string, b: string)
    ensures Unspaced(a + b) == Unspaced(a) + Unspaced(b)
    decreases |a|
  {
    if a == [] {
      assert a + b == b;
    } else {
      assert (a + b)[0] == a[0] && (a + b)[1..] == a[1..] + b;
      UnspacedConcat(a[1..], b);
    }
  }

  lemma {:induction false} CollapseKeepsCase(s: string)
    requires forall i :: 0 <= i < |s| ==> !IsUpper(s[i])
    ensures forall i :: 0 <= i < |Collapse(s)| ==> !IsUpper(Collapse(s)[i])
    decreases |s|
  {
    if s == [] {
    } else if IsSpace(s[0]) {
      var t := TrimStart(s);
      CollapseKeepsCase(t);
    } else {
      CollapseKeepsCase(s[1..]);
    }
  }

  // ---------------------------------------------------------------- normalize

  /** The shape of a normalized string: lower case, trimmed, single-spaced. */
  predicate IsNormal(s: string)
  {
    && (forall i :: 0 <= i < |s| ==> !IsUpper(s[i]))
    && IsTrimmed(s)
    && SingleSpaced(s)
  }

  /** `normalize`: strip, lower-case, then collapse whitespace runs to one space. */
  function Normalize(s: string): (r: string)
    ensures IsNormal(r)
    ensures r == [] <==> Strip(s) == []
  {
    var u := Strip(s);
    var t := Lower(u);
    assert IsTrimmed(t) && (t == [] <==> u == []) by {
      LowerTrimmed(u);
    }
    var r := Collapse(t);
    assert IsNormal(r) by {
      CollapseKeepsCase(t);
      CollapseTrimmed(t);
    }
    r
  }

  lemma LowerTrimmed(s: string)
    requires IsTrimmed(s)
    ensures |Lower(s)| == |s| && IsTrimmed(Lower(s))
  {
  }

  lemma CollapseTrimmed(s: string)
    requires IsTrimmed(s)
    ensures IsTrimmed(Collapse(s))
  {
  }

  /** A normalized string is left as it is, so `normalize` is idempotent. */
  lemma NormalizeFixpoint(s: string)
    requires IsNormal(s)
    ensures Normalize(s) == s
  {
    StripTrimmed(s);
    LowerOfLower(s);
    CollapseSingleSpaced(s);
  }

  lemma NormalizeIdempotent(s: string)
    ensures Normalize(Normalize(s)) == Normalize(s)
  {
    NormalizeFixpoint(Normalize(s));
  }

  /** A single word keeps its letters and only loses its capitals. */
  lemma NormalizeWord(w: string)
    requires w != [] && NoSpace(w)
    ensures Normalize(w) == Lower(w)
  {
    assert w[0] in w && w[|w| - 1] in w;
    StripTrimmed(w);
    var l := Lower(w);
    assert forall i :: 0 <= i < |l| ==> !IsSpace(l[i]) by {
      forall i | 0 <= i < |l| ensures !IsSpace(l[i]) {
        assert w[i] in w;
      }
    }
    CollapseSingleSpaced(l);
  }

  lemma LowerNoSpace(w: string)
    requires NoSpace(w)
    ensures forall i :: 0 <= i < |Lower(w)| ==> !IsSpace(Lower(w)[i])
  {
    forall i | 0 <= i < |Lower(w)| ensures !IsSpace(Lower(w)[i]) {
      assert w[i] in w;
    }
  }

  lemma SingleSpacedAround(x: string, y: string)
    requires forall i :: 0 <= i < |x| ==> !IsSpace(x[i])
    requires forall i :: 0 <= i < |y| ==> !IsSpace(y[i])
    ensures SingleSpaced(x + " " + y)
  {
    var s := x + " " + y;
    forall i | 0 <= i < |s| && i != |x| ensures !IsSpace(s[i]) {
      if i < |x| {
        assert s[i] == x[i];
      } else {
        assert s[i] == y[i - |x| - 1];
      }
    }
  }

  lemma StripTwoWords(a: string, b: string)
    requires a != [] && NoSpace(a) && b != [] && NoSpace(b)
    ensures Strip(a + " " + b) == a + " " + b
  {
    var s := a + " " + b;
    assert a[0] in a && b[|b| - 1] in b;
    assert s[0] == a[0] && s[|s| - 1] == b[|b| - 1];
    StripTrimmed(s);
  }

  lemma LowerTwoWords(a: string, b: string)
    ensures Lower(a + " " + b) == Lower(a) + " " + Lower(b)
  {
    LowerConcat(a, " ");
    LowerConcat(a + " ", b);
    assert Lower(" ") == " ";
  }

  /** Two words separated by one space: the only change is lower-casing. */
  lemma NormalizeTwoWords(a: string, b: string)
    requires a != [] && NoSpace(a) && b != [] && NoSpace(b)
    ensures Normalize(a + " " + b) == Lower(a) + " " + Lower(b)
  {
    var s := a + " " + b;
    var l := Lower(a) + " " + Lower(b);
    assert Lower(Strip(s)) == l by {
      StripTwoWords(a, b);
      LowerTwoWords(a, b);
    }
    assert Collapse(l) == l by {
      LowerNoSpace(a);
      LowerNoSpace(b);
      SingleSpacedAround(Lower(a), Lower(b));
      CollapseSingleSpaced(l);
    }
  }

  // ---------------------------------------------------------------- splitting and joining

  predicate IsSep(c: char)
  {
    c == '|' || c == ';' || c == ','
  }

  predicate NoSep(s: string)
  {
    forall c | c in s :: !IsSep(c)
  }

  /** `re.split(r"[|;,]", s)`: the pieces between separators, empty ones included. */
  function Pieces(s: string): (r: seq<string>)
    ensures |r| >= 1
    ensures forall k :: 0 <= k < |r| ==> NoSep(r[k])
  {
    if s == [] then [[]]
    else
      var rest := Pieces(s[1..]);
      if IsSep(s[0]) then [[]] + rest
      else [[s[0]] + rest[0]] + rest[1..]
  }

  /** A piece without separators is not split. */
  lemma {:induction false} PiecesOfWord(a: string)
    requires NoSep(a)
    ensures Pieces(a) == [a]
  {
    if a != [] {
      assert a[0] in a;
      assert NoSep(a[1..]) by {
        forall c | c in a[1..] ensures !IsSep(c) {
          assert c in a;
        }
      }
      PiecesOfWord(a[1..]);
      assert [a[0]] + a[1..] == a;
    }
  }

  /** Splitting at the first separator: the piece before it, then the pieces of the rest. */
  lemma {:induction false} PiecesAtSeparator(a: string, c: char, b: string)
    requires NoSep(a) && IsSep(c)
    ensures Pieces(a + [c] + b) == [a] + Pieces(b)
    decreases |a|
  {
    if a == [] {
      assert (a + [c] + b)[1..] == b;
    } else {
      var s := a + [c] + b;
      assert a[0] in a;
      assert NoSep(a[1..]) by {
        forall x | x in a[1..] ensures !IsSep(x) {
          assert x in a;
        }
      }
      assert s[1..] == a[1..] + [c] + b;
      PiecesAtSeparator(a[1..], c, b);
      assert [a[0]] + a[1..] == a;
    }
  }

  /** A token as `split_multi_value_field` returns it: non-empty, trimmed, no separator. */
  predicate IsToken(t: string)
  {
    t != [] && IsTrimmed(t) && NoSep(t)
  }

  lemma TokensConcat(a: seq<string>, b: seq<string>)
    requires forall k :: 0 <= k < |a| ==> IsToken(a[k])
    requires forall k :: 0 <= k < |b| ==> IsToken(b[k])
    ensures forall k :: 0 <= k < |a + b| ==> IsToken((a + b)[k])
  {
    forall k | 0 <= k < |a + b| ensures IsToken((a + b)[k]) {
      if k >= |a| {
        assert (a + b)[k] == b[k - |a|];
      }
    }
  }

  /** Strip every piece and keep the non-empty ones. */
  function CleanPieces(ps: seq<string>): (r: seq<string>)
    requires forall k :: 0 <= k < |ps| ==> NoSep(ps[k])
    ensures forall k :: 0 <= k < |r| ==> IsToken(r[k])
  {
    if ps == [] then []
    else
      var t := Strip(ps[0]);
      var head := if t == [] then [] else [t];
      assert forall k :: 0 <= k < |head| ==> IsToken(head[k]) by {
        StripNoSep(ps[0]);
      }
      var rest := CleanPieces(ps[1..]);
      TokensConcat(head, rest);
      head + rest
  }

  /** `split_multi_value_field`: the trimmed, non-empty pieces between separators. */
  function SplitMultiValue(value: string): (r: seq<string>)
    ensures forall k :: 0 <= k < |r| ==> IsToken(r[k])
    ensures Strip(value) == [] ==> r == []
  {
    var text := Strip(value);
    if text == [] then [] else CleanPieces(Pieces(text))
  }

  /** `sep.join(parts)`. */
  function Join(sep: string, parts: seq<string>): string
  {
    if parts == [] then []
    else if |parts| == 1 then parts[0]
    else parts[0] + sep + Join(sep, parts[1..])
  }

  function Indent(parts: seq<string>): (r: seq<string>)
    ensures |r| == |parts|
    ensures forall k :: 0 <= k < |parts| ==> r[k] == [' '] + parts[k]
  {
    if parts == [] then [] else [[' '] + parts[0]] + Indent(parts[1..])
  }

  lemma {:induction false} PiecesOfJoin(parts: seq<string>)
    requires parts != []
    requires forall k :: 0 <= k < |parts| ==> IsToken(parts[k])
    ensures Pieces(Join(", ", parts)) == [parts[0]] + Indent(parts[1..])
    ensures Pieces([' '] + Join(", ", parts)) == Indent(parts)
    decreases |parts|
  {
    var p := parts[0];
    assert NoSep([' '] + p) by {
      forall c | c in [' '] + p ensures !IsSep(c) {
        assert c == ' ' || c in p;
      }
    }
    if |parts| == 1 {
      PiecesOfWord(p);
      PiecesOfWord([' '] + p);
    } else {
      var rest := Join(", ", parts[1..]);
      assert Join(", ", parts) == p + [','] + ([' '] + rest);
      PiecesAtSeparator(p, ',', [' '] + rest);
      assert [' '] + Join(", ", parts) == ([' '] + p) + [','] + ([' '] + rest);
      PiecesAtSeparator([' '] + p, ',', [' '] + rest);
      PiecesOfJoin(parts[1..]);
    }
  }

  lemma {:induction false} CleanIndented(parts: seq<string>)
    requires forall k :: 0 <= k < |parts| ==> IsToken(parts[k])
    ensures forall k :: 0 <= k < |Indent(parts)| ==> NoSep(Indent(parts)[k])
    ensures CleanPieces(Indent(parts)) == parts
    decreases |parts|
  {
    IndentNoSep(parts);
    if parts != [] {
      var x := Indent(parts);
      IndentNoSep(parts[1..]);
      assert x[1..] == Indent(parts[1..]);
      StripLeadingSpace(parts[0]);
      CleanIndented(parts[1..]);
      HeadTail(parts);
    }
  }

  lemma IndentNoSep(parts: seq<string>)
    requires forall k :: 0 <= k < |parts| ==> IsToken(parts[k])
    ensures forall k :: 0 <= k < |Indent(parts)| ==> NoSep(Indent(parts)[k])
  {
    forall k | 0 <= k < |parts| ensures NoSep(Indent(parts)[k]) {
      forall c | c in Indent(parts)[k] ensures !IsSep(c) {
        assert c == ' ' || c in parts[k];
      }
    }
  }

  lemma {:induction false} JoinTrimmed(parts: seq<string>)
    requires parts != []
    requires forall k :: 0 <= k < |parts| ==> IsToken(parts[k])
    ensures IsTrimmed(Join(", ", parts))
    ensures Join(", ", parts) != []
    decreases |parts|
  {
    assert IsToken(parts[0]);
    if |parts| > 1 {
      JoinTrimmed(parts[1..]);
      var rest := Join(", ", parts[1..]);
      var j := Join(", ", parts);
      assert j == parts[0] + ", " + rest;
      assert j[0] == parts[0][0];
      assert j[|j| - 1] == rest[|rest| - 1];
    }
  }

  /** Splitting a ", "-joined list of tokens gives the tokens back. */
  lemma SplitJoin(parts: seq<string>)
    requires forall k :: 0 <= k < |parts| ==> IsToken(parts[k])
    ensures SplitMultiValue(Join(", ", parts)) == parts
  {
    if parts != [] {
      var j := Join(", ", parts);
      var ps := [parts[0]] + Indent(parts[1..]);
      assert SplitMultiValue(j) == CleanPieces(Pieces(j)) by {
        JoinTrimmed(parts);
        SplitTrimmed(j);
      }
      assert Pieces(j) == ps by {
        PiecesOfJoin(parts);
      }
      assert CleanPieces(ps) == parts by {
        CleanJoinPieces(parts);
      }
    }
  }

  lemma SplitTrimmed(s: string)
    requires IsTrimmed(s) && s != []
    ensures forall k :: 0 <= k < |Pieces(s)| ==> NoSep(Pieces(s)[k])
    ensures SplitMultiValue(s) == CleanPieces(Pieces(s))
  {
    StripTrimmed(s);
  }

  lemma CleanJoinPieces(parts: seq<string>)
    requires parts != []
    requires forall k :: 0 <= k < |parts| ==> IsToken(parts[k])
    ensures forall k :: 0 <= k < |[parts[0]] + Indent(parts[1..])| ==> NoSep(([parts[0]] + Indent(parts[1..]))[k])
    ensures CleanPieces([parts[0]] + Indent(parts[1..])) == parts
  {
    var ps := [parts[0]] + Indent(parts[1..]);
    var tail := Indent(parts[1..]);
    assert forall k :: 0 <= k < |tail| ==> NoSep(tail[k]) by {
      CleanIndented(parts[1..]);
    }
    assert forall k :: 0 <= k < |ps| ==> NoSep(ps[k]) by {
      assert IsToken(parts[0]);
      forall k | 1 <= k < |ps| ensures NoSep(ps[k]) {
        assert ps[k] == tail[k - 1];
      }
    }
    assert CleanPieces(ps) == [parts[0]] + parts[1..] by {
      CleanIndented(parts[1..]);
      CleanHead(parts[0], tail);
    }
    HeadTail(parts);
  }

  lemma HeadTail(xs: seq<string>)
    requires xs != []
    ensures [xs[0]] + xs[1..] == xs
  {
  }

  lemma CleanHead(t: string, rest: seq<string>)
    requires IsToken(t)
    requires forall k :: 0 <= k < |rest| ==> NoSep(rest[k])
    ensures CleanPieces([t] + rest) == [t] + CleanPieces(rest)
  {
    var ps := [t] + rest;
    StripTrimmed(t);
    assert ps[0] == t && ps[1..] == rest;
  }

  /** `", ".join(split_multi_value_field(x))` is a fixpoint of splitting again. */
  lemma SplitJoinSplit(value: string)
    ensures SplitMultiValue(Join(", ", SplitMultiValue(value))) == SplitMultiValue(value)
  {
    SplitJoin(SplitMultiValue(value));
  }

  // ---------------------------------------------------------------- string order

  /** Python's `a < b` on strings: lexicographic by code point, a proper prefix first. */
  predicate StrLess(a: string, b: string)
  {
    if a == [] then b != []
    else if b == [] then false
    else if a[0] != b[0] then a[0] < b[0]
    else StrLess(a[1..], b[1..])
  }

  lemma {:induction false} StrLessIrreflexive(a: string)
    ensures !StrLess(a, a)
  {
    if a != [] {
      StrLessIrreflexive(a[1..]);
    }
  }

  lemma {:induction false} StrLessTransitive(a: string, b: string, c: string)
    requires StrLess(a, b) && StrLess(b, c)
    ensures StrLess(a, c)
  {
    if a != [] && b != [] && c != [] && a[0] == b[0] && b[0] == c[0] {
      StrLessTransitive(a[1..], b[1..], c[1..]);
    }
  }

  lemma {:induction false} StrLessTotal(a: string, b: string)
    ensures a == b || StrLess(a, b) || StrLess(b, a)
  {
    if a != [] && b != [] && a[0] == b[0] {
      StrLessTotal(a[1..], b[1..]);
      if a[1..] == b[1..] {
        assert a == [a[0]] + a[1..] && b == [b[0]] + b[1..];
      }
    }
  }

  lemma {:induction false} StrLessAsymmetric(a: string, b: string)
    requires StrLess(a, b)
    ensures !StrLess(b, a)
  {
    if a != [] && b != [] && a[0] == b[0] {
      StrLessAsymmetric(a[1..], b[1..]);
    }
  }

  /** `a <= b` on strings, chained. */
  lemma {:induction false} StrLeqTransitive(a: string, b: string, c: string)
    requires !StrLess(b, a) && !StrLess(c, b)
    ensures !StrLess(c, a)
  {
    if a != [] && b != [] && c != [] && a[0] == b[0] && b[0] == c[0] {
      StrLeqTransitive(a[1..], b[1..], c[1..]);
    }
  }
}
