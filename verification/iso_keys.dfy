/** The `YYYY-MM-DD` day keys: the calendar writes one into every cell's `data-date`,
    and a card's `due_date` is matched against them after cutting it at the first `T`. */
module IsoKeys {
  import opened Wrappers
  import opened Dates

  /** Dates whose ISO form has a plain four-digit year, the range `toISOString` writes
      without a sign. */
  predicate KeyDate(d: Date) {
    Valid(d) && 0 <= d.year <= 9999
  }

  predicate IsDigit(c: char) {
    '0' <= c <= '9'
  }

  function DigitChar(n: int): (c: char)
    requires 0 <= n <= 9
    ensures IsDigit(c)
  {
    ('0' as int + n) as char
  }

  function DigitValue(c: char): int
    requires IsDigit(c)
  {
    c as int - '0' as int
  }

  /** `n` as two decimal digits, zero-padded. */
  function Pad2(n: int): (s: string)
    requires 0 <= n <= 99
    ensures |s| == 2 && IsDigit(s[0]) && IsDigit(s[1])
  {
    [DigitChar(n / 10), DigitChar(n % 10)]
  }

  /** `n` as four decimal digits, zero-padded. */
  function Pad4(n: int): (s: string)
    requires 0 <= n <= 9999
    ensures |s| == 4 && forall i :: 0 <= i < 4 ==> IsDigit(s[i])
  {
    Pad2(n / 100) + Pad2(n % 100)
  }

  /** The value of a string of decimal digits. */
  function Number(s: string): (n: int)
    requires forall i :: 0 <= i < |s| ==> IsDigit(s[i])
    ensures 0 <= n
    decreases |s|
  {
    if |s| == 0 then 0 else 10 * Number(s[..|s| - 1]) + DigitValue(s[|s| - 1])
  }

  lemma NumberOfTwo(s: string)
    requires |s| == 2 && IsDigit(s[0]) && IsDigit(s[1])
    ensures Number(s) == 10 * DigitValue(s[0]) + DigitValue(s[1])
  {
    var init := s[..1];
    assert init[..0] == [];
    assert Number(init) == DigitValue(s[0]);
  }

  /** A four-digit string is read as its two halves. */
  lemma NumberOfFour(s: string)
    requires |s| == 4 && forall i :: 0 <= i < 4 ==> IsDigit(s[i])
    ensures Number(s) == 100 * Number(s[..2]) + Number(s[2..])
  {
    assert s[..3][..2] == s[..2];
    NumberOfTwo(s[..2]);
    NumberOfTwo(s[2..]);
    assert s[..3][..2][..1][..0] == [];
  }

  lemma NumberPad2(n: int)
    requires 0 <= n <= 99
    ensures Number(Pad2(n)) == n
  {
    NumberOfTwo(Pad2(n));
  }

  lemma NumberPad4(n: int)
    requires 0 <= n <= 9999
    ensures Number(Pad4(n)) == n
  {
    var s := Pad4(n);
    NumberOfFour(s);
    assert s[..2] == Pad2(n / 100) && s[2..] == Pad2(n % 100);
    NumberPad2(n / 100);
    NumberPad2(n % 100);
  }

  lemma Pad2Number(s: string)
    requires |s| == 2 && IsDigit(s[0]) && IsDigit(s[1])
    ensures Number(s) <= 99 && Pad2(Number(s)) == s
  {
    NumberOfTwo(s);
  }

  lemma Pad4Number(s: string)
    requires |s| == 4 && forall i :: 0 <= i < 4 ==> IsDigit(s[i])
    ensures Number(s) <= 9999 && Pad4(Number(s)) == s
  {
    NumberOfFour(s);
    Pad2Number(s[..2]);
    Pad2Number(s[2..]);
    var n := Number(s);
    assert n / 100 == Number(s[..2]) && n % 100 == Number(s[2..]);
    assert s == s[..2] + s[2..];
  }

  /** The ISO date key of a local date, `YYYY-MM-DD`. */
  function FormatKey(d: Date): (s: string)
    requires KeyDate(d)
    ensures |s| == 10 && s[4] == '-' && s[7] == '-'
    ensures 'T' !in s
  {
    Pad4(d.year) + "-" + Pad2(d.month) + "-" + Pad2(d.day)
  }

  predicate DigitsAt(s: string, lo: int, hi: int)
    requires 0 <= lo <= hi <= |s|
  {
    forall i :: lo <= i < hi ==> IsDigit(s[i])
  }

  /** Reads a `YYYY-MM-DD` key back into a date; anything else, including a
      well-formed string naming a day that does not exist, gives `None`. */
  function ParseKey(s: string): Option<Date> {
    if |s| == 10 && s[4] == '-' && s[7] == '-'
       && DigitsAt(s, 0, 4) && DigitsAt(s, 5, 7) && DigitsAt(s, 8, 10)
    then
      var d := Date(Number(s[0..4]), Number(s[5..7]), Number(s[8..10]));
      if Valid(d) then Some(d) else None
    else None
  }

  /** Every key date's key reads back as that date. */
  lemma ParseFormatKey(d: Date)
    requires KeyDate(d)
    ensures ParseKey(FormatKey(d)) == Some(d)
  {
    var s := FormatKey(d);
    assert s[0..4] == Pad4(d.year);
    assert s[5..7] == Pad2(d.month);
    assert s[8..10] == Pad2(d.day);
    NumberPad4(d.year);
    NumberPad2(d.month);
    NumberPad2(d.day);
  }

  /** Every string that parses is the key of the date it parses to: keys are canonical. */
  lemma FormatParseKey(s: string)
    requires ParseKey(s).Some?
    ensures KeyDate(ParseKey(s).value)
    ensures FormatKey(ParseKey(s).value) == s
  {
    var d := ParseKey(s).value;
    Pad4Number(s[0..4]);
    Pad2Number(s[5..7]);
    Pad2Number(s[8..10]);
    assert s == s[0..4] + "-" + s[5..7] + "-" + s[8..10];
  }

  /** Different dates have different keys, so a key names one calendar cell. */
  lemma FormatKeyInjective(a: Date, b: Date)
    requires KeyDate(a) && KeyDate(b)
    requires FormatKey(a) == FormatKey(b)
    ensures a == b
  {
    ParseFormatKey(a);
    ParseFormatKey(b);
  }

  /** The part of `s` before its first `T` (`s.split('T')[0]`), all of `s` when it has none. */
  function BeforeT(s: string): (r: string)
    ensures r <= s
    ensures 'T' !in r
    ensures |r| < |s| ==> s[|r|] == 'T'
    decreases |s|
  {
    if |s| == 0 || s[0] == 'T' then "" else [s[0]] + BeforeT(s[1..])
  }

  /** A date key followed by a time part is cut back to the key; a bare key is kept whole. */
  lemma BeforeTOfTimestamp(d: Date, rest: string)
    requires KeyDate(d)
    ensures BeforeT(FormatKey(d)) == FormatKey(d)
    ensures BeforeT(FormatKey(d) + "T" + rest) == FormatKey(d)
  {
    var k := FormatKey(d);
    BeforeTPrefix(k, "");
    BeforeTPrefix(k, "T" + rest);
    assert k + "" == k;
    assert k + "T" + rest == k + ("T" + rest);
  }

  lemma {:induction false} BeforeTPrefix(k: string, rest: string)
    requires 'T' !in k
    requires rest == [] || rest[0] == 'T'
    ensures BeforeT(k + rest) == k
    decreases |k|
  {
    if |k| > 0 {
      assert (k + rest)[1..] == k[1..] + rest;
      BeforeTPrefix(k[1..], rest);
    }
  }
}
