/**
 * The fixed vocabulary of the timetable grid: the five weekdays, the year
 * groups, the seven time rows of a day (one of them the lunch break), the six
 * teaching slots derived from them and the three-letter day abbreviations.
 */
module Vocabulary {

  const WEEK_DAYS: seq<string> := ["Monday", "Tuesday", "Wednesday", "Thursday", "Friday"]

  /** The legacy ordinal year labels and the labels they were renamed to. */
  const LEGACY_YEAR_GROUP_MAP: seq<(string, string)> :=
    [("First", "Grade 1"), ("Second", "Grade 2"), ("Third", "Grade 3"), ("Fourth", "Grade 4"), ("Fifth", "Grade 5")]

  /** The values of the legacy map, in its insertion order. */
  const YEAR_GROUPS: seq<string> := MapValues(LEGACY_YEAR_GROUP_MAP)

  datatype TimeRow = TimeRow(slot: string, isLunch: bool)

  const TIME_ROWS: seq<TimeRow> := [
    TimeRow("08:00-09:00", false),
    TimeRow("09:00-10:00", false),
    TimeRow("10:00-11:00", false),
    TimeRow("11:00-12:00", false),
    TimeRow("12:00-13:00", true),
    TimeRow("13:00-14:00", false),
    TimeRow("14:00-15:00", false)
  ]

  /** The slots of the rows that are not the lunch break, in row order. */
  const TEACHING_SLOTS: seq<string> := TeachingSlotsOf(TIME_ROWS)

  const DAY_SHORT: map<string, string> :=
    map["Monday" := "Mon", "Tuesday" := "Tue", "Wednesday" := "Wed", "Thursday" := "Thu", "Friday" := "Fri"]

  function MapValues(pairs: seq<(string, string)>): (r: seq<string>)
    ensures |r| == |pairs|
    ensures forall k :: 0 <= k < |pairs| ==> r[k] == pairs[k].1
  {
    if pairs == [] then [] else [pairs[0].1] + MapValues(pairs[1..])
  }

  function TeachingSlotsOf(rows: seq<TimeRow>): seq<string>
  {
    if rows == [] then []
    else (if rows[0].isLunch then [] else [rows[0].slot]) + TeachingSlotsOf(rows[1..])
  }

  /** The derived vocabulary, spelled out. */
  lemma VocabularyValues()
    ensures YEAR_GROUPS == ["Grade 1", "Grade 2", "Grade 3", "Grade 4", "Grade 5"]
    ensures TEACHING_SLOTS == ["08:00-09:00", "09:00-10:00", "10:00-11:00", "11:00-12:00", "13:00-14:00", "14:00-15:00"]
    ensures |TIME_ROWS| == 7 && |TEACHING_SLOTS| == 6
    ensures forall k :: 0 <= k < |TIME_ROWS| ==> (TIME_ROWS[k].isLunch <==> k == 4)
    ensures DAY_SHORT.Keys == set d | d in WEEK_DAYS
  {
  }

  function Digit(d: nat): char
    requires d < 10
  {
    ('0' as int + d) as char
  }

  /** The hour `h` on the clock, `hh:00`. */
  function Clock(h: nat): string
    requires h < 24
  {
    [Digit(h / 10), Digit(h % 10), ':', '0', '0']
  }

  /** The hour starting at `h`, `hh:00-hh:00`. */
  function Span(h: nat): string
    requires h < 23
  {
    Clock(h) + "-" + Clock(h + 1)
  }

  /** Row `k` of the day is the hour starting at 8 + k. */
  lemma TimeRowSpans()
    ensures forall k :: 0 <= k < |TIME_ROWS| ==> TIME_ROWS[k].slot == Span(8 + k)
  {
    assert Span(8) == "08:00-09:00";
    assert Span(9) == "09:00-10:00";
    assert Span(10) == "10:00-11:00";
    assert Span(11) == "11:00-12:00";
    assert Span(12) == "12:00-13:00";
    assert Span(13) == "13:00-14:00";
    assert Span(14) == "14:00-15:00";
  }

  /** Every teaching slot is the hour of some start between 8 and 14. */
  lemma TeachingSlotSpans()
    ensures forall s | s in TEACHING_SLOTS :: exists h :: 8 <= h <= 14 && s == Span(h)
  {
    VocabularyValues();
    TimeRowSpans();
    assert TEACHING_SLOTS == [TIME_ROWS[0].slot, TIME_ROWS[1].slot, TIME_ROWS[2].slot, TIME_ROWS[3].slot,
                              TIME_ROWS[5].slot, TIME_ROWS[6].slot];
  }

  /** Every weekday has an abbreviation. */
  lemma WeekDaysShort()
    ensures forall d | d in WEEK_DAYS :: d in DAY_SHORT
  {
  }

  /** How many days, teaching slots and year groups the grid has. */
  lemma VocabularySizes()
    ensures |WEEK_DAYS| == 5 && |TEACHING_SLOTS| == 6 && |YEAR_GROUPS| == 5 && |TIME_ROWS| == 7
  {
    VocabularyValues();
  }

  /**
   * Membership in a vocabulary list, unfolded one element at a time; it is
   * `x in xs` (see MemberIn) written so that proofs about rows need not
   * expand the whole list.
   */
  predicate Member(xs: seq<string>, x: string)
  {
    xs != [] && (xs[0] == x || Member(xs[1..], x))
  }

  lemma {:induction false} MemberIn(xs: seq<string>, x: string)
    ensures Member(xs, x) <==> x in xs
  {
    if xs != [] {
      MemberIn(xs[1..], x);
      assert xs == [xs[0]] + xs[1..];
    }
  }

  /** Position of `x` in `xs`: the first one, as Python's enumerate-built dictionaries give it. */
  function IndexOf(xs: seq<string>, x: string): (r: nat)
    requires x in xs
    ensures r < |xs| && xs[r] == x
    ensures forall k :: 0 <= k < r ==> xs[k] != x
  {
    if xs[0] == x then 0 else 1 + IndexOf(xs[1..], x)
  }
}
