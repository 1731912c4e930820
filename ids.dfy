/** Identifier strings of the form {prefix}_{YYYYMMDD_HHMMSS}_{3 random characters}.
    The clock reading and the three random draws are parameters: a draw is the
    index of the character chosen from the suffix alphabet. */
module Ids {
  import opened Models
  import opened Text

  const Lowercase: string := "abcdefghijklmnopqrstuvwxyz"
  const Digits: string := "0123456789"

  /** Lowercase ASCII letters followed by the decimal digits. */
  const SuffixAlphabet: string := Lowercase + Digits

  /** Number of random characters at the end of an identifier. */
  const SuffixLength: nat := 3

  /** The fields of the local clock the timestamp is printed from. */
  datatype ClockReading = ClockReading(year: nat, month: nat, day: nat, hour: nat, minute: nat, second: nat)

  predicate ValidClock(c: ClockReading)
  {
    1 <= c.year <= 9999 && 1 <= c.month <= 12 && 1 <= c.day <= 31 &&
    c.hour < 24 && c.minute < 60 && c.second < 60
  }

  predicate ValidDraws(draws: seq<nat>)
  {
    |draws| == SuffixLength && forall i :: 0 <= i < |draws| ==> draws[i] < |SuffixAlphabet|
  }

  predicate IsSuffixChar(c: char) { 'a' <= c <= 'z' || '0' <= c <= '9' }

  /** Position of a suffix character in the alphabet; inverse of indexing it. */
  function SuffixIndex(c: char): nat
    requires IsSuffixChar(c)
  {
    if 'a' <= c <= 'z' then (c as int - 'a' as int) as nat else (26 + c as int - '0' as int) as nat
  }

  lemma AlphabetEntry(i: nat)
    requires i < |SuffixAlphabet|
    ensures IsSuffixChar(SuffixAlphabet[i]) && SuffixIndex(SuffixAlphabet[i]) == i
  {
    if i < 26 {
      assert SuffixAlphabet[i] == Lowercase[i];
      if i < 13 {
        assert Lowercase[..13] == "abcdefghijklm";
      } else {
        assert Lowercase[13..] == "nopqrstuvwxyz";
      }
    } else {
      assert SuffixAlphabet[i] == Digits[i - 26];
    }
  }

  /** The clock printed as YYYYMMDD_HHMMSS, every field zero-padded. */
  function Timestamp(c: ClockReading): (s: string)
    requires ValidClock(c)
  {
    ZeroPad(c.year, 4) + ZeroPad(c.month, 2) + ZeroPad(c.day, 2) + "_" +
    ZeroPad(c.hour, 2) + ZeroPad(c.minute, 2) + ZeroPad(c.second, 2)
  }

  /** The drawn characters, in draw order. */
  function Suffix(draws: seq<nat>): (s: string)
    requires ValidDraws(draws)
  {
    [SuffixAlphabet[draws[0]], SuffixAlphabet[draws[1]], SuffixAlphabet[draws[2]]]
  }

  /** The identifier for `prefix` at clock reading `clock` with random draws `draws`. */
  function GenerateId(prefix: string, clock: ClockReading, draws: seq<nat>): (id: string)
    requires ValidClock(clock) && ValidDraws(draws)
    ensures |id| == |prefix| + 20
    ensures id[..|prefix| + 1] == prefix + "_"
    ensures id[|prefix| + 9] == '_' && id[|prefix| + 16] == '_'
    ensures forall i :: |prefix| + 1 <= i < |prefix| + 16 && i != |prefix| + 9 ==> IsDigit(id[i])
    ensures forall i :: |prefix| + 17 <= i < |id| ==> IsSuffixChar(id[i])
  {
    AlphabetEntry(draws[0]);
    AlphabetEntry(draws[1]);
    AlphabetEntry(draws[2]);
    prefix + "_" + Timestamp(clock) + "_" + Suffix(draws)
  }

  /** The parts an identifier is made of. */
  datatype IdParts = IdParts(prefix: string, clock: ClockReading, draws: seq<nat>)

  /** Index of the first occurrence of `c` in `s`. */
  function IndexOf(s: string, c: char): (r: Option<nat>)
    ensures r.None? ==> c !in s
    ensures r.Some? ==> r.value < |s| && s[r.value] == c && c !in s[..r.value]
  {
    if s == [] then None
    else if s[0] == c then Some(0)
    else
      match IndexOf(s[1..], c)
      case None => None
      case Some(k) =>
        assert s[..k + 1] == [s[0]] + s[1..][..k];
        Some(k + 1)
  }

  /** Reads a YYYYMMDD_HHMMSS timestamp back into its fields. */
  function ParseTimestamp(ts: string): Option<ClockReading>
  {
    if |ts| == 15 && ts[8] == '_' && (forall i :: 0 <= i < 15 && i != 8 ==> IsDigit(ts[i])) then
      Some(ClockReading(
        DigitsValue(ts[0..4]), DigitsValue(ts[4..6]), DigitsValue(ts[6..8]),
        DigitsValue(ts[9..11]), DigitsValue(ts[11..13]), DigitsValue(ts[13..15])))
    else None
  }

  /** Reads the random suffix back into the draws that chose its characters. */
  function ParseSuffix(s: string): Option<seq<nat>>
  {
    if |s| == SuffixLength && forall i :: 0 <= i < |s| ==> IsSuffixChar(s[i]) then
      Some([SuffixIndex(s[0]), SuffixIndex(s[1]), SuffixIndex(s[2])])
    else None
  }

  /** Splits an identifier at its first underscore into prefix, timestamp and suffix;
      None when `id` does not have that shape. */
  function ParseId(id: string): Option<IdParts>
  {
    match IndexOf(id, '_')
    case None => None
    case Some(k) =>
      if |id| == k + 20 && id[k + 16] == '_' then
        match (ParseTimestamp(id[k + 1..k + 16]), ParseSuffix(id[k + 17..]))
        case (Some(clock), Some(draws)) => Some(IdParts(id[..k], clock, draws))
        case _ => None
      else None
  }

  lemma ParseTimestampRoundTrip(c: ClockReading)
    requires ValidClock(c)
    ensures ParseTimestamp(Timestamp(c)) == Some(c)
  {
    var ts := Timestamp(c);
    assert ts[0..4] == ZeroPad(c.year, 4);
    assert ts[4..6] == ZeroPad(c.month, 2);
    assert ts[6..8] == ZeroPad(c.day, 2);
    assert ts[9..11] == ZeroPad(c.hour, 2);
    assert ts[11..13] == ZeroPad(c.minute, 2);
    assert ts[13..15] == ZeroPad(c.second, 2);
    ZeroPadValue(c.year, 4);
    ZeroPadValue(c.month, 2);
    ZeroPadValue(c.day, 2);
    ZeroPadValue(c.hour, 2);
    ZeroPadValue(c.minute, 2);
    ZeroPadValue(c.second, 2);
  }

  lemma ParseSuffixRoundTrip(draws: seq<nat>)
    requires ValidDraws(draws)
    ensures ParseSuffix(Suffix(draws)) == Some(draws)
  {
    AlphabetEntry(draws[0]);
    AlphabetEntry(draws[1]);
    AlphabetEntry(draws[2]);
    assert [draws[0], draws[1], draws[2]] == draws;
  }

  /** The first underscore of an identifier is the one after its prefix. */
  lemma FirstUnderscore(prefix: string, rest: string)
    requires '_' !in prefix
    ensures IndexOf(prefix + "_" + rest, '_') == Some(|prefix|)
  {
    var id := prefix + "_" + rest;
    assert id[|prefix|] == '_';
    assert id[..|prefix|] == prefix;
  }

  /** An identifier whose prefix has no underscore can be split back into exactly
      the prefix, clock reading and draws it was made from. */
  lemma ParseGenerated(prefix: string, clock: ClockReading, draws: seq<nat>)
    requires ValidClock(clock) && ValidDraws(draws) && '_' !in prefix
    ensures ParseId(GenerateId(prefix, clock, draws)) == Some(IdParts(prefix, clock, draws))
  {
    var id := GenerateId(prefix, clock, draws);
    var k := |prefix|;
    var ts, sf := Timestamp(clock), Suffix(draws);
    assert id == prefix + "_" + (ts + "_" + sf);
    FirstUnderscore(prefix, ts + "_" + sf);
    assert id[..k] == prefix;
    assert id[k + 1..k + 16] == ts;
    assert id[k + 17..] == sf;
    ParseTimestampRoundTrip(clock);
    ParseSuffixRoundTrip(draws);
  }

  /** Distinct inputs give distinct identifiers, as long as prefixes have no underscore. */
  lemma GenerateIdInjective(p1: string, c1: ClockReading, d1: seq<nat>, p2: string, c2: ClockReading, d2: seq<nat>)
    requires ValidClock(c1) && ValidDraws(d1) && '_' !in p1
    requires ValidClock(c2) && ValidDraws(d2) && '_' !in p2
    ensures GenerateId(p1, c1, d1) == GenerateId(p2, c2, d2) ==> p1 == p2 && c1 == c2 && d1 == d2
  {
    ParseGenerated(p1, c1, d1);
    ParseGenerated(p2, c2, d2);
  }

  lemma PadTwo(n: nat)
    requires n < 100
    ensures ZeroPad(n, 2) == [DigitChar(n / 10), DigitChar(n % 10)]
  {
    assert ZeroPad(n / 10, 1) == [DigitChar(n / 10)];
  }

  lemma PadYear2025()
    ensures ZeroPad(2025, 4) == "2025"
  {
    PadTwo(20);
    assert ZeroPad(202, 3) == ZeroPad(20, 2) + [DigitChar(2)];
    assert ZeroPad(2025, 4) == ZeroPad(202, 3) + [DigitChar(5)];
  }

  /** The printed clock is its six padded fields, with "_" between date and time. */
  lemma TimestampLayout(c: ClockReading, year: string, month: string, day: string,
                        hour: string, minute: string, second: string)
    requires ValidClock(c)
    requires ZeroPad(c.year, 4) == year && ZeroPad(c.month, 2) == month && ZeroPad(c.day, 2) == day
    requires ZeroPad(c.hour, 2) == hour && ZeroPad(c.minute, 2) == minute && ZeroPad(c.second, 2) == second
    ensures Timestamp(c) == year + month + day + "_" + hour + minute + second
  {
  }

  /** The example timestamps, joined from their fields. */
  lemma TimestampTexts()
    ensures "2025" + "11" + "23" + "_" + "10" + "30" + "45" == "20251123_103045"
    ensures "2025" + "01" + "05" + "_" + "09" + "03" + "07" == "20250105_090307"
  {
  }

  lemma TimestampExample1()
    ensures Timestamp(ClockReading(2025, 11, 23, 10, 30, 45)) == "20251123_103045"
  {
    PadYear2025();
    PadTwo(11); PadTwo(23); PadTwo(10); PadTwo(30); PadTwo(45);
    TimestampLayout(ClockReading(2025, 11, 23, 10, 30, 45), "2025", "11", "23", "10", "30", "45");
    TimestampTexts();
  }

  lemma TimestampExample2()
    ensures Timestamp(ClockReading(2025, 1, 5, 9, 3, 7)) == "20250105_090307"
  {
    PadYear2025();
    PadTwo(1); PadTwo(5); PadTwo(9); PadTwo(3); PadTwo(7);
    TimestampLayout(ClockReading(2025, 1, 5, 9, 3, 7), "2025", "01", "05", "09", "03", "07");
    TimestampTexts();
  }

  lemma SuffixExamples()
    ensures Suffix([0, 33, 2]) == "a7c"
    ensures Suffix([35, 25, 26]) == "9z0"
  {
  }

  /** An identifier is its prefix, the printed clock and the suffix, joined by underscores. */
  lemma GenerateIdLayout(prefix: string, clock: ClockReading, draws: seq<nat>, ts: string, sf: string)
    requires ValidClock(clock) && ValidDraws(draws)
    requires Timestamp(clock) == ts && Suffix(draws) == sf
    ensures GenerateId(prefix, clock, draws) == prefix + "_" + ts + "_" + sf
  {
  }

  /** The example identifiers, joined from their parts. */
  lemma ExampleTexts()
    ensures "n" + "_" + "20251123_103045" + "_" + "a7c" == "n_20251123_103045_a7c"
    ensures "t" + "_" + "20250105_090307" + "_" + "9z0" == "t_20250105_090307_9z0"
  {
  }

  /** The example identifier from the generator's documentation. */
  lemma GenerateIdDocumentedExample()
    ensures GenerateId("n", ClockReading(2025, 11, 23, 10, 30, 45), [0, 33, 2]) == "n_20251123_103045_a7c"
  {
    TimestampExample1();
    SuffixExamples();
    GenerateIdLayout("n", ClockReading(2025, 11, 23, 10, 30, 45), [0, 33, 2], "20251123_103045", "a7c");
    ExampleTexts();
  }

  /** Month, day, hour, minute and second below ten are printed with a leading zero. */
  lemma GenerateIdPaddedExample()
    ensures GenerateId("t", ClockReading(2025, 1, 5, 9, 3, 7), [35, 25, 26]) == "t_20250105_090307_9z0"
  {
    TimestampExample2();
    SuffixExamples();
    GenerateIdLayout("t", ClockReading(2025, 1, 5, 9, 3, 7), [35, 25, 26], "20250105_090307", "9z0");
    ExampleTexts();
  }
}
