/**
 * The availability matcher: a teacher's free-slot text is split into entries,
 * each entry is normalized, and the teacher is free for a (day, slot) when one
 * normalized entry is exactly one of the accepted spellings of that cell.
 */
module Availability {
  import opened Vocabulary
  import opened Text
  import opened Records

  /** `slot.split("-")[0]`: the text before the first `-`, or all of it. */
  function SlotStart(slot: string): (r: string)
    ensures |r| <= |slot| && r == slot[..|r|]
    ensures '-' !in r
    ensures |r| < |slot| ==> slot[|r|] == '-'
  {
    if slot == [] || slot[0] == '-' then [] else [slot[0]] + SlotStart(slot[1..])
  }

  /** The start time with exactly one leading `0` removed, when there is one. */
  function ShortStart(start: string): (r: string)
    ensures start != [] && start[0] == '0' ==> [start[0]] + r == start
    ensures (start == [] || start[0] != '0') ==> r == start
  {
    if start != [] && start[0] == '0' then start[1..] else start
  }

  /**
   * `slot_aliases`: {full day, short day} x {full slot, start time, start
   * time less one leading zero}, each normalized.
   */
  function SlotAliases(day: string, slot: string): (r: set<string>)
    requires day in DAY_SHORT
    ensures |r| <= 6
  {
    var start := SlotStart(slot);
    var shortStart := ShortStart(start);
    var dayNorm := Normalize(day);
    var dayShortNorm := Normalize(DAY_SHORT[day]);
    var a1, a2 := Normalize(dayNorm + " " + slot), Normalize(dayShortNorm + " " + slot);
    var a3, a4 := Normalize(dayNorm + " " + start), Normalize(dayShortNorm + " " + start);
    var a5, a6 := Normalize(dayNorm + " " + shortStart), Normalize(dayShortNorm + " " + shortStart);
    AtMostSix(a1, a2, a3, a4, a5, a6);
    {a1, a2, a3, a4, a5, a6}
  }

  lemma AtMostSix(a: string, b: string, c: string, d: string, e: string, f: string)
    ensures |{a, b, c, d, e, f}| <= 6
  {
    assert |{a}| == 1;
    assert |{a, b}| <= 2 by { assert {a, b} == {a} + {b}; }
    assert |{a, b, c}| <= 3 by { assert {a, b, c} == {a, b} + {c}; }
    assert |{a, b, c, d}| <= 4 by { assert {a, b, c, d} == {a, b, c} + {d}; }
    assert |{a, b, c, d, e}| <= 5 by { assert {a, b, c, d, e} == {a, b, c, d} + {e}; }
    assert {a, b, c, d, e, f} == {a, b, c, d, e} + {f};
  }

  /** `teacher_slot_tokens`: the normalized entries of the free-slot text. */
  function TeacherSlotTokens(t: Teacher): (r: set<string>)
    ensures forall x | x in r :: x != [] && IsNormal(x)
  {
    NormalizedTokens(SplitMultiValue(t.freeSlots))
  }

  /** The entries of a free-slot list, each normalized. */
  function NormalizedTokens(parts: seq<string>): (r: set<string>)
    requires forall k :: 0 <= k < |parts| ==> IsToken(parts[k])
    ensures forall x | x in r :: x != [] && IsNormal(x)
  {
    forall p | p in parts ensures Normalize(p) != [] {
      var k :| 0 <= k < |parts| && parts[k] == p;
      assert IsToken(parts[k]);
      StripTrimmed(p);
    }
    set p | p in parts :: Normalize(p)
  }

  predicate TeacherIsAvailableForSlot(tokens: set<string>, day: string, slot: string)
    requires day in DAY_SHORT
  {
    exists x :: x in tokens && x in SlotAliases(day, slot)
  }

  // ---------------------------------------------------------------- the words of the vocabulary

  /** A word: not empty, no whitespace, no list separator. */
  predicate IsWord(w: string)
  {
    w != [] && NoSpace(w) && NoSep(w)
  }

  predicate NoUpper(w: string)
  {
    forall c | c in w :: !IsUpper(c)
  }

  lemma DayWords()
    ensures forall d | d in WEEK_DAYS :: IsWord(d)
  {
    assert IsWord("Monday");
    assert IsWord("Tuesday");
    assert IsWord("Wednesday");
    assert IsWord("Thursday");
    assert IsWord("Friday");
  }

  lemma ShortDayWords()
    ensures forall d | d in WEEK_DAYS :: d in DAY_SHORT && IsWord(DAY_SHORT[d])
  {
    assert IsWord("Mon");
    assert IsWord("Tue");
    assert IsWord("Wed");
    assert IsWord("Thu");
    assert IsWord("Fri");
  }

  /** The characters a clock time is written with. */
  predicate IsClockChar(c: char)
  {
    ('0' <= c <= ':') || c == '-'
  }

  lemma ClockWord(w: string)
    requires w != [] && forall c | c in w :: IsClockChar(c)
    ensures IsWord(w) && NoUpper(w)
  {
  }

  lemma ClockChars(h: nat)
    requires h < 23
    ensures forall c | c in Span(h) :: IsClockChar(c)
    ensures forall c | c in Clock(h) :: IsClockChar(c)
  {
    var x, y := Clock(h), Clock(h + 1);
    assert Span(h) == x + ['-'] + y;
    forall c | c in Span(h) ensures IsClockChar(c) {
      assert c in x || c == '-' || c in y;
    }
  }

  lemma {:induction false} SlotStartDash(x: string, y: string)
    requires '-' !in x
    ensures SlotStart(x + ['-'] + y) == x
  {
    if x != [] {
      assert (x + ['-'] + y)[1..] == x[1..] + ['-'] + y;
      SlotStartDash(x[1..], y);
      assert [x[0]] + x[1..] == x;
    }
  }

  /** What the aliases use of a grid hour: its start time, and that time less a leading zero. */
  lemma SpanFacts(h: nat)
    requires h < 23
    ensures |Span(h)| == 11 && Span(h)[..5] == Clock(h)
    ensures IsWord(Span(h)) && NoUpper(Span(h))
    ensures SlotStart(Span(h)) == Clock(h)
    ensures Clock(h)[0] == '0' <==> h < 10
    ensures var z := ShortStart(Clock(h)); IsWord(z) && NoUpper(z)
    ensures ShortStart(Clock(h)) == (if h < 10 then Clock(h)[1..] else Clock(h))
  {
    var x := Clock(h);
    ClockChars(h);
    ClockWord(Span(h));
    assert Span(h) == x + ['-'] + Clock(h + 1);
    assert '-' !in x;
    SlotStartDash(x, Clock(h + 1));
    var z := ShortStart(x);
    assert z == x[1..] || z == x;
    assert forall c | c in z :: c in x;
    ClockWord(z);
  }

  // ---------------------------------------------------------------- the aliases of a grid cell

  lemma LowerOfNoUpper(w: string)
    requires NoUpper(w)
    ensures Lower(w) == w
  {
    forall i | 0 <= i < |w| ensures !IsUpper(w[i]) {
      assert w[i] in w;
    }
    LowerOfLower(w);
  }

  lemma LowerWord(w: string)
    requires IsWord(w)
    ensures IsWord(Lower(w))
  {
    forall c | c in Lower(w) ensures !IsSpace(c) && !IsSep(c) {
      var i :| 0 <= i < |Lower(w)| && Lower(w)[i] == c;
      assert w[i] in w;
    }
  }

  lemma NoSpaceOfWord(w: string)
    requires NoSpace(w)
    ensures forall i :: 0 <= i < |w| ==> !IsSpace(w[i])
  {
    forall i | 0 <= i < |w| ensures !IsSpace(w[i]) {
      assert w[i] in w;
    }
  }

  /** A word, one space, a word without capitals: normalizing only lowers the first word. */
  lemma NormalizePhrase(a: string, b: string)
    requires IsWord(a) && IsWord(b) && NoUpper(b)
    ensures Normalize(a + " " + b) == Lower(a) + " " + b
  {
    NormalizeTwoWords(a, b);
    LowerOfNoUpper(b);
  }

  /** The same after the first word was normalized on its own, as `slot_aliases` does. */
  lemma NormalizeLoweredPhrase(a: string, b: string)
    requires IsWord(a) && IsWord(b) && NoUpper(b)
    ensures Normalize(Normalize(a) + " " + b) == Lower(a) + " " + b
  {
    assert Normalize(a) == Lower(a) by {
      NormalizeWord(a);
    }
    LowerWord(a);
    NormalizePhrase(Lower(a), b);
    LowerOfLower(Lower(a));
  }

  /**
   * For a cell of the grid the accepted spellings are the lower-cased full or
   * short day, one space, then the full slot, its start time, or its start time
   * less one leading zero.
   */
  lemma GridSlotAliases(day: string, h: nat)
    requires day in WEEK_DAYS && 8 <= h <= 14
    ensures day in DAY_SHORT
    ensures var full, short := Lower(day), Lower(DAY_SHORT[day]);
      var start := Clock(h);
      var zeroless := if h < 10 then Clock(h)[1..] else Clock(h);
      SlotAliases(day, Span(h)) ==
        {full + " " + Span(h), short + " " + Span(h), full + " " + start, short + " " + start,
         full + " " + zeroless, short + " " + zeroless}
  {
    assert day in DAY_SHORT && IsWord(day) && IsWord(DAY_SHORT[day]) by {
      DayWords();
      ShortDayWords();
    }
    WordSlotAliases(day, h);
  }

  /** The same for any day whose two spellings are single words. */
  lemma WordSlotAliases(day: string, h: nat)
    requires day in DAY_SHORT && IsWord(day) && IsWord(DAY_SHORT[day]) && h < 23
    ensures var full, short := Lower(day), Lower(DAY_SHORT[day]);
      var start := Clock(h);
      var zeroless := if h < 10 then Clock(h)[1..] else Clock(h);
      SlotAliases(day, Span(h)) ==
        {full + " " + Span(h), short + " " + Span(h), full + " " + start, short + " " + start,
         full + " " + zeroless, short + " " + zeroless}
  {
    var slot, start := Span(h), Clock(h);
    var zeroless := ShortStart(start);
    assert IsWord(slot) && NoUpper(slot) && SlotStart(slot) == start
      && IsWord(zeroless) && NoUpper(zeroless)
      && zeroless == (if h < 10 then Clock(h)[1..] else Clock(h)) by {
      SpanFacts(h);
    }
    assert IsWord(start) && NoUpper(start) by {
      ClockChars(h);
      ClockWord(start);
    }
    AliasesOfWords(day, slot, start, zeroless);
  }

  /** The aliases of a cell whose day spellings, slot, start and short start are single words in lower case. */
  lemma AliasesOfWords(day: string, slot: string, start: string, zeroless: string)
    requires day in DAY_SHORT && IsWord(day) && IsWord(DAY_SHORT[day])
    requires SlotStart(slot) == start && ShortStart(start) == zeroless
    requires IsWord(slot) && NoUpper(slot) && IsWord(start) && NoUpper(start) && IsWord(zeroless) && NoUpper(zeroless)
    ensures var full, short := Lower(day), Lower(DAY_SHORT[day]);
      SlotAliases(day, slot) ==
        {full + " " + slot, short + " " + slot, full + " " + start, short + " " + start,
         full + " " + zeroless, short + " " + zeroless}
  {
    DayAliasPair(day, slot);
    DayAliasPair(day, start);
    DayAliasPair(day, zeroless);
  }

  /** Both day spellings followed by the word `w`, normalized as `slot_aliases` does. */
  lemma DayAliasPair(day: string, w: string)
    requires day in DAY_SHORT && IsWord(day) && IsWord(DAY_SHORT[day])
    requires IsWord(w) && NoUpper(w)
    ensures Normalize(Normalize(day) + " " + w) == Lower(day) + " " + w
    ensures Normalize(Normalize(DAY_SHORT[day]) + " " + w) == Lower(DAY_SHORT[day]) + " " + w
  {
    NormalizeLoweredPhrase(day, w);
    NormalizeLoweredPhrase(DAY_SHORT[day], w);
  }

  // ---------------------------------------------------------------- worked examples

  lemma MondayNineSpellings()
    ensures "monday" + " " + "09:00-10:00" == "monday 09:00-10:00"
    ensures "mon" + " " + "09:00-10:00" == "mon 09:00-10:00"
    ensures "monday" + " " + "09:00" == "monday 09:00"
    ensures "mon" + " " + "09:00" == "mon 09:00"
    ensures "monday" + " " + "9:00" == "monday 9:00"
    ensures "mon" + " " + "9:00" == "mon 9:00"
  {
  }

  /** The six spellings accepted for Monday 09:00-10:00. */
  lemma MondayNineAliases(day: string, slot: string)
    requires day == "Monday" && slot == "09:00-10:00"
    ensures day in DAY_SHORT
    ensures SlotAliases(day, slot) ==
      {"monday 09:00-10:00", "mon 09:00-10:00", "monday 09:00", "mon 09:00", "monday 9:00", "mon 9:00"}
  {
    assert Lower(day) == "monday" && Lower(DAY_SHORT[day]) == "mon";
    assert slot == Span(9);
    assert Clock(9) == "09:00" && Clock(9)[1..] == "9:00";
    MondayNineSpellings();
    GridSlotAliases(day, 9);
  }

  /** Which of the three design-note spellings are among the six of Monday 09:00-10:00. */
  lemma MondayNineMembers(aliases: set<string>, short: string, full: string, bad: string)
    requires aliases ==
      {"monday 09:00-10:00", "mon 09:00-10:00", "monday 09:00", "mon 09:00", "monday 9:00", "mon 9:00"}
    requires short == "monday 9:00" && full == "mon 09:00-10:00" && bad == "mon 9:00-10:00"
    ensures short in aliases && full in aliases && bad !in aliases
  {
    assert |bad| == 14;
  }

  /** A single free-slot token makes the teacher available exactly when it is one of the aliases. */
  lemma AvailableSingleton(token: string, day: string, slot: string)
    requires day in DAY_SHORT
    ensures TeacherIsAvailableForSlot({token}, day, slot) <==> token in SlotAliases(day, slot)
  {
    if token in SlotAliases(day, slot) {
      assert token in {token};
    }
  }

  /** The start time less its leading zero, after the full day: accepted for Monday 09:00-10:00. */
  lemma ZerolessStartAccepted(day: string, slot: string, token: string)
    requires day == "Monday" && slot == "09:00-10:00" && token == "monday 9:00"
    ensures day in DAY_SHORT
    ensures TeacherIsAvailableForSlot({token}, day, slot)
  {
    MondayNineAliases(day, slot);
    var aliases := SlotAliases(day, slot);
    MondayNineMembers(aliases, token, "mon 09:00-10:00", "mon 9:00-10:00");
    AvailableSingleton(token, day, slot);
  }

  /** The short day with the full slot: accepted for Monday 09:00-10:00. */
  lemma ShortDayFullSlotAccepted(day: string, slot: string, token: string)
    requires day == "Monday" && slot == "09:00-10:00" && token == "mon 09:00-10:00"
    ensures day in DAY_SHORT
    ensures TeacherIsAvailableForSlot({token}, day, slot)
  {
    MondayNineAliases(day, slot);
    var aliases := SlotAliases(day, slot);
    MondayNineMembers(aliases, "monday 9:00", token, "mon 9:00-10:00");
    AvailableSingleton(token, day, slot);
  }

  /** The full slot with its start's zero dropped is not a spelling of Monday 09:00-10:00. */
  lemma ZerolessFullSlotRejected(day: string, slot: string, token: string)
    requires day == "Monday" && slot == "09:00-10:00" && token == "mon 9:00-10:00"
    ensures day in DAY_SHORT
    ensures !TeacherIsAvailableForSlot({token}, day, slot)
  {
    MondayNineAliases(day, slot);
    var aliases := SlotAliases(day, slot);
    MondayNineMembers(aliases, "monday 9:00", "mon 09:00-10:00", token);
    AvailableSingleton(token, day, slot);
  }

  /** A free-slot text that is one entry yields that entry, normalized, as its only token. */
  lemma SingleEntryTokens(t: Teacher)
    requires IsToken(t.freeSlots)
    ensures TeacherSlotTokens(t) == {Normalize(t.freeSlots)}
  {
    var x := t.freeSlots;
    assert SplitMultiValue(x) == [x] by {
      SplitJoin([x]);
    }
    SingleNormalizedToken(x);
  }

  lemma SingleNormalizedToken(x: string)
    requires IsToken(x)
    ensures NormalizedTokens([x]) == {Normalize(x)}
  {
    assert x in [x];
  }

  /** A free-slot text made of one day word and one slot word yields one token: the day lowered. */
  lemma PhraseEntryTokens(t: Teacher, a: string, b: string)
    requires IsWord(a) && IsWord(b) && NoUpper(b)
    requires t.freeSlots == a + " " + b
    ensures TeacherSlotTokens(t) == {Lower(a) + " " + b}
  {
    assert IsToken(t.freeSlots) by {
      PhraseToken(a, b);
    }
    assert Normalize(t.freeSlots) == Lower(a) + " " + b by {
      NormalizePhrase(a, b);
    }
    SingleEntryTokens(t);
  }

  /** The words of the two free-slot texts below. */
  lemma TeacherExampleWords(mon: string, nine: string, bareNine: string)
    requires mon == "Mon" && nine == "09:00-10:00" && bareNine == "9:00-10:00"
    ensures IsWord(mon) && IsWord(nine) && IsWord(bareNine) && NoUpper(nine) && NoUpper(bareNine)
  {
  }

  /** How the words of the two free-slot texts below read when joined, as written and lower-cased. */
  lemma TeacherExamplePhrases(mon: string, nine: string, bareNine: string)
    requires mon == "Mon" && nine == "09:00-10:00" && bareNine == "9:00-10:00"
    ensures mon + " " + nine == "Mon 09:00-10:00" && mon + " " + bareNine == "Mon 9:00-10:00"
    ensures Lower(mon) + " " + nine == "mon 09:00-10:00" && Lower(mon) + " " + bareNine == "mon 9:00-10:00"
  {
    assert Lower(mon) == "mon";
  }

  /** The zero-padded start is accepted without its zero only on its own, not inside a full slot. */
  lemma TeacherExamples(day: string, slot: string, good: Teacher, bad: Teacher)
    requires day == "Monday" && slot == "09:00-10:00"
    requires good.freeSlots == "Mon 09:00-10:00" && bad.freeSlots == "Mon 9:00-10:00"
    ensures day in DAY_SHORT
    ensures TeacherIsAvailableForSlot(TeacherSlotTokens(good), day, slot)
    ensures !TeacherIsAvailableForSlot(TeacherSlotTokens(bad), day, slot)
  {
    var mon, nine, bareNine := "Mon", "09:00-10:00", "9:00-10:00";
    TeacherExampleWords(mon, nine, bareNine);
    TeacherExamplePhrases(mon, nine, bareNine);
    var full, wrong := Lower(mon) + " " + nine, Lower(mon) + " " + bareNine;
    PhraseEntryTokens(good, mon, nine);
    PhraseEntryTokens(bad, mon, bareNine);
    ShortDayFullSlotAccepted(day, slot, full);
    ZerolessFullSlotRejected(day, slot, wrong);
  }

  // ---------------------------------------------------------------- the active day

  /** `parse_active_day`: the requested day when it is a weekday, the first weekday otherwise. */
  function ParseActiveDay(raw: Option<string>): (r: string)
    ensures r in WEEK_DAYS
    ensures raw.Some? && raw.value in WEEK_DAYS <==> raw == Some(r)
    ensures r != WEEK_DAYS[0] ==> raw == Some(r)
  {
    if raw.Some? && raw.value in WEEK_DAYS then raw.value else WEEK_DAYS[0]
  }

  /** Feeding the parsed day back in gives the same day. */
  lemma ParseActiveDayIdempotent(raw: Option<string>)
    ensures ParseActiveDay(Some(ParseActiveDay(raw))) == ParseActiveDay(raw)
  {
  }

  // ---------------------------------------------------------------- free all week

  /** A word, a space and a word make one entry of a free-slot list. */
  lemma PhraseToken(a: string, b: string)
    requires IsWord(a) && IsWord(b)
    ensures IsToken(a + " " + b)
  {
    var p := a + " " + b;
    assert p[0] == a[0] && a[0] in a;
    assert p[|p| - 1] == b[|b| - 1] && b[|b| - 1] in b;
    forall c | c in p ensures !IsSep(c) {
      assert c in a || c == ' ' || c in b;
    }
  }

  /** The entries for one day: its short name with every teaching slot, in slot order. */
  function DayEntries(day: string): (r: seq<string>)
    requires day in DAY_SHORT
    ensures |r| == |TEACHING_SLOTS|
    ensures forall j :: 0 <= j < |TEACHING_SLOTS| ==> r[j] == DAY_SHORT[day] + " " + TEACHING_SLOTS[j]
  {
    seq(|TEACHING_SLOTS|, j requires 0 <= j < |TEACHING_SLOTS| => DAY_SHORT[day] + " " + TEACHING_SLOTS[j])
  }

  /** The entries for the first `n` weekdays, day after day. */
  function WeekEntries(n: nat): seq<string>
    requires n <= |WEEK_DAYS|
  {
    if n == 0 then []
    else
      WeekDaysShort();
      WeekEntries(n - 1) + DayEntries(WEEK_DAYS[n - 1])
  }

  lemma PrefixSnoc(xs: seq<string>, j: nat)
    requires j < |xs|
    ensures xs[..j + 1] == xs[..j] + [xs[j]]
  {
  }

  /** `default_free_slots`: every weekday with every teaching slot, joined with `", "`. */
  method DefaultFreeSlots() returns (r: string)
    ensures r == Join(", ", WeekEntries(|WEEK_DAYS|))
  {
    WeekDaysShort();
    VocabularySizes();
    var slots: seq<string> := [];
    for i := 0 to |WEEK_DAYS|
      invariant slots == WeekEntries(i)
    {
      var day := WEEK_DAYS[i];
      var done := slots;
      for j := 0 to |TEACHING_SLOTS|
        invariant slots == done + DayEntries(day)[..j]
      {
        PrefixSnoc(DayEntries(day), j);
        slots := slots + [DAY_SHORT[day] + " " + TEACHING_SLOTS[j]];
      }
      assert DayEntries(day)[..|TEACHING_SLOTS|] == DayEntries(day);
    }
    r := Join(", ", slots);
  }

  /** Each day's entries appear in the week's list. */
  lemma {:induction false} WeekEntriesHas(n: nat, i: nat, j: nat)
    requires i < n <= |WEEK_DAYS| && j < |TEACHING_SLOTS|
    ensures WEEK_DAYS[i] in DAY_SHORT
    ensures DAY_SHORT[WEEK_DAYS[i]] + " " + TEACHING_SLOTS[j] in WeekEntries(n)
  {
    WeekDaysShort();
    var d := WEEK_DAYS[i];
    if i == n - 1 {
      assert DayEntries(d)[j] == DAY_SHORT[d] + " " + TEACHING_SLOTS[j];
    } else {
      WeekEntriesHas(n - 1, i, j);
    }
  }

  /** Every entry of the week's list is a word, a space and a word. */
  lemma {:induction false} WeekEntriesTokens(n: nat)
    requires n <= |WEEK_DAYS|
    ensures forall k :: 0 <= k < |WeekEntries(n)| ==> IsToken(WeekEntries(n)[k])
  {
    if n > 0 {
      WeekEntriesTokens(n - 1);
      WeekDaysShort();
      var d := WEEK_DAYS[n - 1];
      assert IsWord(DAY_SHORT[d]) by {
        ShortDayWords();
      }
      forall j | 0 <= j < |TEACHING_SLOTS| ensures IsToken(DayEntries(d)[j]) {
        SlotWord(TEACHING_SLOTS[j]);
        PhraseToken(DAY_SHORT[d], TEACHING_SLOTS[j]);
      }
      TokensConcat(WeekEntries(n - 1), DayEntries(d));
    }
  }

  lemma SlotWord(s: string)
    requires s in TEACHING_SLOTS
    ensures IsWord(s) && NoUpper(s)
  {
    TeachingSlotSpans();
    var h :| 8 <= h <= 14 && s == Span(h);
    SpanFacts(h);
  }

  /** Splitting the free-all-week text gives back its thirty entries. */
  lemma DefaultFreeSlotsSplit()
    ensures SplitMultiValue(Join(", ", WeekEntries(|WEEK_DAYS|))) == WeekEntries(|WEEK_DAYS|)
  {
    WeekEntriesTokens(|WEEK_DAYS|);
    SplitJoin(WeekEntries(|WEEK_DAYS|));
  }

  /** A teacher given the free-all-week text is available in every cell of the grid. */
  lemma DefaultFreeSlotsAvailable(t: Teacher)
    requires t.freeSlots == Join(", ", WeekEntries(|WEEK_DAYS|))
    ensures forall d, s | d in WEEK_DAYS && s in TEACHING_SLOTS :: d in DAY_SHORT
    ensures forall d, s | d in WEEK_DAYS && s in TEACHING_SLOTS :: TeacherIsAvailableForSlot(TeacherSlotTokens(t), d, s)
  {
    WeekDaysShort();
    forall d, s | d in WEEK_DAYS && s in TEACHING_SLOTS
      ensures TeacherIsAvailableForSlot(TeacherSlotTokens(t), d, s)
    {
      DefaultFreeSlotAvailable(t, d, s);
    }
  }

  /** The free-all-week text lists the cell's hour, so the teacher is available there. */
  lemma DefaultFreeSlotAvailable(t: Teacher, d: string, s: string)
    requires t.freeSlots == Join(", ", WeekEntries(|WEEK_DAYS|))
    requires d in WEEK_DAYS && s in TEACHING_SLOTS
    ensures d in DAY_SHORT && TeacherIsAvailableForSlot(TeacherSlotTokens(t), d, s)
  {
    WeekDaysShort();
    var e := DAY_SHORT[d] + " " + s;
    assert e in WeekEntries(|WEEK_DAYS|) by {
      WeekEntriesHas(|WEEK_DAYS|, IndexOf(WEEK_DAYS, d), IndexOf(TEACHING_SLOTS, s));
    }
    var h :| 8 <= h <= 14 && s == Span(h) by {
      TeachingSlotSpans();
    }
    assert Normalize(e) == Lower(DAY_SHORT[d]) + " " + s by {
      assert IsWord(DAY_SHORT[d]) by {
        ShortDayWords();
      }
      SpanFacts(h);
      NormalizePhrase(DAY_SHORT[d], s);
    }
    assert Normalize(e) in TeacherSlotTokens(t) by {
      DefaultFreeSlotsSplit();
      var k :| 0 <= k < |WeekEntries(|WEEK_DAYS|)| && WeekEntries(|WEEK_DAYS|)[k] == e;
      assert e in SplitMultiValue(t.freeSlots);
    }
    assert Normalize(e) in SlotAliases(d, s) by {
      GridSlotAliases(d, h);
    }
  }
}
