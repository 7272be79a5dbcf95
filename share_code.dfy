/**
 * The share code of a birth date, `YYYYMMDD-HH`: the year padded to four
 * digits, month, day and hour padded to two, with a dash before the hour.
 * Decoding accepts exactly that shape of ASCII digits and the documented
 * ranges of the fields.
 */
module ShareCode {

  import opened Wrappers
  import opened Pillars
  import Calendar

  predicate IsDigit(c: char)
  {
    '0' <= c <= '9'
  }

  predicate AllDigits(s: string)
  {
    forall i :: 0 <= i < |s| ==> IsDigit(s[i])
  }

  function DigitChar(d: int): (c: char)
    requires 0 <= d < 10
    ensures IsDigit(c) && DigitValue(c) == d
  {
    ('0' as int + d) as char
  }

  function DigitValue(c: char): int
  {
    c as int - '0' as int
  }

  function Pow10(w: nat): (p: nat)
    ensures p >= 1
  {
    if w == 0 then 1 else 10 * Pow10(w - 1)
  }

  /** Decimal digits of `n` without leading zeros, as `Number.prototype.toString` writes them. */
  function Digits(n: nat): (s: string)
    ensures |s| >= 1 && IsDigit(s[0])
  {
    if n < 10 then [DigitChar(n)] else Digits(n / 10) + [DigitChar(n % 10)]
  }

  /** `toString()` of an integer: a minus sign before the digits of a negative number. */
  function IntToString(n: int): (s: string)
    ensures |s| >= 1
    ensures n < 0 <==> s[0] == '-'
  {
    if n < 0 then "-" + Digits(-n) else Digits(n)
  }

  function Zeros(k: nat): (s: string)
    ensures |s| == k && forall i :: 0 <= i < k ==> s[i] == '0'
  {
    if k == 0 then "" else "0" + Zeros(k - 1)
  }

  /** `padStart(w, '0')`: zeros in front up to length `w`; a longer string is kept whole. */
  function PadStart(s: string, w: nat): (r: string)
    ensures |r| == if |s| >= w then |s| else w
    ensures r[|r| - |s|..] == s
    ensures forall i :: 0 <= i < |r| - |s| ==> r[i] == '0'
  {
    if |s| >= w then s else Zeros(w - |s|) + s
  }

  /** A field written with `toString().padStart(w, '0')`. */
  function Padded(n: int, w: nat): (s: string)
    ensures 0 <= n < Pow10(w) && w >= 1 ==> s == FixedDigits(n, w)
  {
    if 0 <= n < Pow10(w) && w >= 1 then
      PaddedDigits(n, w);
      PadStart(IntToString(n), w)
    else PadStart(IntToString(n), w)
  }

  /**
   * The share code of a birth date.  A date in the accepted ranges is
   * written as its fields at fixed width, and the code has the accepted shape.
   */
  function Encode(d: BirthData): (s: string)
    ensures InShareRange(d) ==>
      && s == FixedDigits(d.year, 4) + FixedDigits(d.month, 2) + FixedDigits(d.day, 2) + "-" + FixedDigits(d.hour, 2)
      && MatchesPattern(s)
  {
    var s := Padded(d.year, 4) + Padded(d.month, 2) + Padded(d.day, 2) + "-" + Padded(d.hour, 2);
    if InShareRange(d) then
      FixedFieldsShape(d.year, d.month, d.day, d.hour);
      s
    else s
  }

  /** The fields a decoded code may hold. */
  predicate InShareRange(d: BirthData)
  {
    1900 <= d.year <= 2100 && 1 <= d.month <= 12 && 1 <= d.day <= 31 && 0 <= d.hour <= 23
  }

  /** `^(\d{4})(\d{2})(\d{2})-(\d{2})$` with `\d` the ASCII digits. */
  predicate MatchesPattern(s: string)
  {
    |s| == 11 && AllDigits(s[..8]) && s[8] == '-' && AllDigits(s[9..])
  }

  /** `parseInt(s, 10)` of a string of digits. */
  function ParseDigits(s: string): (n: int)
    ensures AllDigits(s) ==> 0 <= n < Pow10(|s|)
  {
    if s == [] then 0 else 10 * ParseDigits(s[..|s| - 1]) + DigitValue(s[|s| - 1])
  }

  /** The date fields of a code of the right shape. */
  function Fields(s: string): BirthData
    requires MatchesPattern(s)
  {
    BirthData(ParseDigits(s[..4]), ParseDigits(s[4..6]), ParseDigits(s[6..8]), ParseDigits(s[9..]))
  }

  /** The birth date of a share code, or None for a code of the wrong shape or out of range. */
  function Decode(s: string): (r: Option<BirthData>)
    ensures r.Some? <==> MatchesPattern(s) && InShareRange(Fields(s))
    ensures r.Some? ==> r.value == Fields(s)
  {
    if !MatchesPattern(s) then None
    else
      var d := Fields(s);
      if d.year < 1900 || d.year > 2100 then None
      else if d.month < 1 || d.month > 12 then None
      else if d.day < 1 || d.day > 31 then None
      else if d.hour < 0 || d.hour > 23 then None
      else Some(d)
  }

  // ---------------------------------------------------------------- fixed-width digits

  /** The last `w` decimal digits of `n`, leading zeros included. */
  function FixedDigits(n: nat, w: nat): (s: string)
    ensures |s| == w
  {
    if w == 0 then "" else FixedDigits(n / 10, w - 1) + [DigitChar(n % 10)]
  }

  lemma {:induction false} FixedDigitsAreDigits(n: nat, w: nat)
    ensures AllDigits(FixedDigits(n, w))
  {
    if w > 0 {
      FixedDigitsAreDigits(n / 10, w - 1);
    }
  }

  lemma {:induction false} FixedDigitsOfZero(k: nat)
    ensures FixedDigits(0, k) == Zeros(k)
  {
    if k > 0 {
      FixedDigitsOfZero(k - 1);
      ZerosAppend(k - 1);
    }
  }

  lemma {:induction false} ZerosAppend(k: nat)
    ensures Zeros(k) + "0" == Zeros(k + 1)
  {
    if k > 0 {
      ZerosAppend(k - 1);
    }
  }

  lemma PadStartAppend(s: string, c: char, w: nat)
    requires w >= 1
    ensures PadStart(s + [c], w) == PadStart(s, w - 1) + [c]
  {
  }

  /** Padding the digits of a number that fits in `w` digits gives its `w` fixed digits. */
  lemma {:induction false} PaddedDigits(n: nat, w: nat)
    requires n < Pow10(w) && w >= 1
    ensures PadStart(Digits(n), w) == FixedDigits(n, w)
  {
    if n < 10 {
      FixedDigitsOfZero(w - 1);
      assert n / 10 == 0;
    } else {
      assert Pow10(1) == 10;
      PaddedDigits(n / 10, w - 1);
      PadStartAppend(Digits(n / 10), DigitChar(n % 10), w);
    }
  }

  /** Reading back fixed digits recovers the number. */
  lemma {:induction false} ParseFixedDigits(n: nat, w: nat)
    requires n < Pow10(w)
    ensures ParseDigits(FixedDigits(n, w)) == n
  {
    if w > 0 {
      ParseFixedDigits(n / 10, w - 1);
      var s := FixedDigits(n, w);
      assert s[..|s| - 1] == FixedDigits(n / 10, w - 1);
    } else {
      assert n == 0;
    }
  }

  /** Writing out a digit string's value at its own width gives the string back. */
  lemma {:induction false} FixedDigitsOfParse(s: string)
    requires AllDigits(s)
    ensures FixedDigits(ParseDigits(s), |s|) == s
  {
    if s != [] {
      var init, last := s[..|s| - 1], s[|s| - 1];
      FixedDigitsOfParse(init);
      var n := ParseDigits(s);
      assert n / 10 == ParseDigits(init) && n % 10 == DigitValue(last);
      assert s == init + [last];
    }
  }

  /** Where the four fields sit in a code. */
  lemma CodeLayout(y: string, m: string, d: string, h: string)
    requires |y| == 4 && |m| == 2 && |d| == 2 && |h| == 2
    ensures var s := y + m + d + "-" + h;
      && |s| == 11 && s[..4] == y && s[4..6] == m && s[6..8] == d && s[8] == '-' && s[9..] == h
      && s[..8] == y + m + d
  {
  }

  /** Fields at fixed width, joined as a code, have the accepted shape. */
  lemma FixedFieldsShape(year: nat, month: nat, day: nat, hour: nat)
    ensures MatchesPattern(FixedDigits(year, 4) + FixedDigits(month, 2) + FixedDigits(day, 2)
      + "-" + FixedDigits(hour, 2))
  {
    var y, m, dd, h := FixedDigits(year, 4), FixedDigits(month, 2), FixedDigits(day, 2), FixedDigits(hour, 2);
    CodeLayout(y, m, dd, h);
    FixedDigitsAreDigits(year, 4);
    FixedDigitsAreDigits(month, 2);
    FixedDigitsAreDigits(day, 2);
    FixedDigitsAreDigits(hour, 2);
    var s := y + m + dd + "-" + h;
    assert AllDigits(s[..8]) by {
      forall i | 0 <= i < 8
        ensures IsDigit(s[..8][i])
      {
        if i < 4 {
          assert s[..8][i] == y[i];
        } else if i < 6 {
          assert s[..8][i] == m[i - 4];
        } else {
          assert s[..8][i] == dd[i - 6];
        }
      }
    }
  }

  // ---------------------------------------------------------------- round trips

  /** Every birth date in the accepted ranges survives encoding and decoding. */
  lemma DecodeEncode(d: BirthData)
    requires InShareRange(d)
    ensures Decode(Encode(d)) == Some(d)
  {
    var y, m, dd, h := FixedDigits(d.year, 4), FixedDigits(d.month, 2), FixedDigits(d.day, 2), FixedDigits(d.hour, 2);
    CodeLayout(y, m, dd, h);
    ParseFixedDigits(d.year, 4);
    ParseFixedDigits(d.month, 2);
    ParseFixedDigits(d.day, 2);
    ParseFixedDigits(d.hour, 2);
  }

  /** A code that decodes is exactly the code of the date it decodes to. */
  lemma EncodeDecode(s: string)
    requires Decode(s).Some?
    ensures Encode(Decode(s).value) == s
  {
    var d := Decode(s).value;
    assert MatchesPattern(s) && d == Fields(s);
    var y, m, dd, h := s[..4], s[4..6], s[6..8], s[9..];
    assert AllDigits(y) && AllDigits(m) && AllDigits(dd) by {
      assert y == s[..8][..4] && m == s[..8][4..6] && dd == s[..8][6..8];
    }
    assert d == BirthData(ParseDigits(y), ParseDigits(m), ParseDigits(dd), ParseDigits(h));
    FixedDigitsOfParse(y);
    FixedDigitsOfParse(m);
    FixedDigitsOfParse(dd);
    FixedDigitsOfParse(h);
    assert Encode(d) == y + m + dd + "-" + h;
    CodeSplit(s);
  }

  lemma CodeSplit(s: string)
    requires |s| == 11 && s[8] == '-'
    ensures s == s[..4] + s[4..6] + s[6..8] + "-" + s[9..]
  {
  }

  /** Different accepted dates never share a code. */
  lemma EncodeInjective(a: BirthData, b: BirthData)
    requires InShareRange(a) && InShareRange(b)
    ensures Encode(a) == Encode(b) ==> a == b
  {
    DecodeEncode(a);
    DecodeEncode(b);
  }

  /**
   * Only the ranges of the fields are checked: a code for February 31 of
   * any accepted year decodes, although the date does not exist.
   */
  lemma DecodeAcceptsFebruary31(d: BirthData)
    requires InShareRange(d) && d.month == 2 && d.day == 31
    ensures Decode(Encode(d)) == Some(d)
    ensures !Calendar.ValidDate(d.year, d.month, d.day)
  {
    DecodeEncode(d);
    FebruaryIsShort(d.year);
  }

  lemma FebruaryIsShort(y: int)
    ensures Calendar.DaysInMonth(y, 2) < 31
  {
  }
}
