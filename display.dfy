/**
 The two pure read-outs of the Pomodoro widget: the MM:SS text shown in the
 middle of the ring (formatTime) and the stroke offset of the progress ring.
 A parser for MM:SS is given as the independent partner of formatTime.
 */
module PomodoroDisplay {

  datatype Option<T> = None | Some(value: T)

  /** Drawn length of the ring: strokeDasharray="283" (about 2*pi*45). */
  const CIRCUMFERENCE: real := 283.0

  predicate IsDigit(c: char) {
    '0' <= c <= '9'
  }

  predicate AllDigits(s: string) {
    forall i :: 0 <= i < |s| ==> IsDigit(s[i])
  }

  function DigitValue(c: char): (d: int)
    requires IsDigit(c)
    ensures 0 <= d < 10
  {
    c as int - '0' as int
  }

  function DigitChar(d: int): (c: char)
    requires 0 <= d < 10
    ensures IsDigit(c) && DigitValue(c) == d
  {
    ('0' as int + d) as char
  }

  /** `n.toString()` for a non-negative integer: decimal digits, most significant first. */
  function DecimalString(n: nat): (r: string)
    ensures AllDigits(r)
    ensures 1 <= |r|
    ensures (|r| == 1) == (n < 10)
    ensures |r| > 1 ==> r[0] != '0'
    decreases n
  {
    if n < 10 then [DigitChar(n)] else DecimalString(n / 10) + [DigitChar(n % 10)]
  }

  /** The value of a string of decimal digits (leading zeros allowed). */
  function ParseDecimal(s: string): nat
    requires AllDigits(s)
  {
    if s == [] then 0 else ParseDecimal(s[..|s| - 1]) * 10 + DigitValue(s[|s| - 1])
  }

  /** `s.padStart(width, pad)` with a one-character pad string. */
  function PadStart(s: string, width: nat, pad: char): (r: string)
    ensures |r| == if |s| >= width then |s| else width
    ensures r[|r| - |s|..] == s
    ensures forall i :: 0 <= i < |r| - |s| ==> r[i] == pad
  {
    if |s| >= width then s else seq(width - |s|, _ => pad) + s
  }

  /** formatTime: whole minutes and remaining seconds, each padded to two digits. */
  function FormatTime(seconds: nat): string {
    var mins, secs := seconds / 60, seconds % 60;
    JoinFields(mins, secs)
  }

  /** The template literal `${mins padded}:${secs padded}`. */
  function JoinFields(mins: nat, secs: nat): string {
    PadStart(DecimalString(mins), 2, '0') + ":" + PadStart(DecimalString(secs), 2, '0')
  }

  /**
   Reads back "M…M:SS": one or more minute digits, a colon, exactly two
   second digits denoting less than 60.
   */
  function ParseTime(t: string): Option<nat> {
    if |t| < 4 || t[|t| - 3] != ':' then None
    else ParseFields(t[..|t| - 3], t[|t| - 2..])
  }

  /** The value of a minutes field and a seconds field, if both are digits and seconds < 60. */
  function ParseFields(mm: string, ss: string): Option<nat> {
    if AllDigits(mm) && AllDigits(ss) && ParseDecimal(ss) < 60
    then Some(ParseDecimal(mm) * 60 + ParseDecimal(ss))
    else None
  }

  /** strokeDashoffset of the progress ring, over exact reals. */
  function RingOffset(timeLeft: int, duration: int): real
    requires duration > 0
  {
    CIRCUMFERENCE - (CIRCUMFERENCE * timeLeft as real) / duration as real
  }

  // ---------------------------------------------------------------------------
  // Decimal digits

  lemma {:induction false} ParseDecimalString(n: nat)
    ensures ParseDecimal(DecimalString(n)) == n
    decreases n
  {
    var r := DecimalString(n);
    if n >= 10 {
      assert r[..|r| - 1] == DecimalString(n / 10);
      ParseDecimalString(n / 10);
    }
  }

  lemma {:induction false} ParseLeadingZero(s: string)
    requires AllDigits(s)
    ensures AllDigits("0" + s) && ParseDecimal("0" + s) == ParseDecimal(s)
    decreases |s|
  {
    if s != [] {
      var t := "0" + s;
      assert t[..|t| - 1] == "0" + s[..|s| - 1];
      ParseLeadingZero(s[..|s| - 1]);
    }
  }

  lemma TwoDigits(n: nat)
    requires n < 100
    ensures PadStart(DecimalString(n), 2, '0') == [DigitChar(n / 10), DigitChar(n % 10)]
  {
    if n >= 10 {
      assert DecimalString(n) == DecimalString(n / 10) + [DigitChar(n % 10)];
    }
  }

  lemma ParseTwoDigits(a: string)
    requires |a| == 2 && AllDigits(a)
    ensures ParseDecimal(a) == DigitValue(a[0]) * 10 + DigitValue(a[1])
  {
    var h := a[..1];
    assert h[..0] == [] && h[0] == a[0];
    assert ParseDecimal(h) == DigitValue(a[0]);
    assert a[..|a| - 1] == h;
  }

  lemma ParseDigitPair(n: nat)
    requires n < 100
    ensures AllDigits([DigitChar(n / 10), DigitChar(n % 10)])
    ensures ParseDecimal([DigitChar(n / 10), DigitChar(n % 10)]) == n
  {
    ParseTwoDigits([DigitChar(n / 10), DigitChar(n % 10)]);
  }

  lemma SplitAtColon(a: string, b: string)
    ensures |a + ":" + b| == |a| + |b| + 1
    ensures (a + ":" + b)[..|a|] == a && (a + ":" + b)[|a|] == ':' && (a + ":" + b)[|a| + 1..] == b
  {
  }

  lemma DigitCharValue(c: char)
    requires IsDigit(c)
    ensures DigitChar(DigitValue(c)) == c
  {
  }

  // ---------------------------------------------------------------------------
  // formatTime

  /**
   Below 100 minutes the text is exactly MM:SS: five characters, two
   zero-padded digits each side of the colon, a seconds field below 60, and
   minutes * 60 + seconds is the input.
   */
  lemma FormatTimeFields(seconds: nat)
    requires seconds < 6000
    ensures |FormatTime(seconds)| == 5 && FormatTime(seconds)[2] == ':'
    ensures FormatTime(seconds)[..2] == [DigitChar(seconds / 60 / 10), DigitChar(seconds / 60 % 10)]
    ensures FormatTime(seconds)[3..] == [DigitChar(seconds % 60 / 10), DigitChar(seconds % 60 % 10)]
    ensures AllDigits(FormatTime(seconds)[..2]) && AllDigits(FormatTime(seconds)[3..])
    ensures ParseDecimal(FormatTime(seconds)[3..]) < 60
    ensures ParseDecimal(FormatTime(seconds)[..2]) * 60 + ParseDecimal(FormatTime(seconds)[3..]) == seconds
  {
    var m, s := seconds / 60, seconds % 60;
    assert m < 100 && s < 60 && m * 60 + s == seconds;
    TwoDigits(m);
    TwoDigits(s);
    SplitAtColon(PadStart(DecimalString(m), 2, '0'), PadStart(DecimalString(s), 2, '0'));
    ParseDigitPair(m);
    ParseDigitPair(s);
  }

  /** From 100 minutes on the minutes field simply grows: it is never truncated. */
  lemma FormatTimeLong(seconds: nat)
    requires seconds >= 6000
    ensures |FormatTime(seconds)| == |DecimalString(seconds / 60)| + 3 > 5
  {
    TwoDigits(seconds % 60);
  }

  /** Every output of formatTime reads back as the number of seconds it stands for. */
  lemma FormatThenParse(seconds: nat)
    ensures ParseTime(FormatTime(seconds)) == Some(seconds)
  {
    var mins, secs := seconds / 60, seconds % 60;
    JoinThenParse(mins, secs);
    assert mins * 60 + secs == seconds;
  }

  lemma JoinThenParse(mins: nat, secs: nat)
    requires secs < 60
    ensures ParseTime(JoinFields(mins, secs)).Some?
    ensures ParseTime(JoinFields(mins, secs)).value == mins * 60 + secs
  {
    var mm, ss := PadStart(DecimalString(mins), 2, '0'), PadStart(DecimalString(secs), 2, '0');
    MinutesFieldValue(mins);
    TwoDigits(secs);
    ParseDigitPair(secs);
    ParseJoined(mm, ss);
    assert ParseDecimal(mm) * 60 + ParseDecimal(ss) == mins * 60 + secs;
  }

  /** The parser splits "minutes:seconds" back at the colon. */
  lemma ParseJoined(mm: string, ss: string)
    requires |mm| >= 1 && |ss| == 2
    ensures ParseTime(mm + ":" + ss) == ParseFields(mm, ss)
  {
    var t := mm + ":" + ss;
    SplitAtColon(mm, ss);
    assert t[..|t| - 3] == mm && t[|t| - 2..] == ss;
  }

  /** The padded minutes field reads back as the minutes, whatever its width. */
  lemma MinutesFieldValue(m: nat)
    ensures var mm := PadStart(DecimalString(m), 2, '0');
      |mm| >= 2 && AllDigits(mm) && ParseDecimal(mm) == m
  {
    var digits := DecimalString(m);
    var mm := PadStart(digits, 2, '0');
    ParseDecimalString(m);
    if |digits| < 2 {
      assert mm == "0" + digits by {
        assert seq(2 - |digits|, _ => '0') == "0";
      }
      ParseLeadingZero(digits);
    }
  }

  /** Every five-character string the parser accepts is the formatTime of what it denotes. */
  lemma ParseThenFormat(t: string, seconds: nat)
    requires |t| == 5 && ParseTime(t) == Some(seconds)
    ensures seconds < 6000 && FormatTime(seconds) == t
  {
    var a, b, c, d := AcceptedDigits(t);
    FormatFourDigits(seconds, a, b, c, d);
  }

  /** An accepted five-character text is "ab:cd" with c < 6, denoting (10a + b) * 60 + 10c + d. */
  lemma AcceptedDigits(t: string) returns (a: nat, b: nat, c: nat, d: nat)
    requires |t| == 5 && ParseTime(t).Some?
    ensures a < 10 && b < 10 && c < 6 && d < 10
    ensures t == [DigitChar(a), DigitChar(b)] + ":" + [DigitChar(c), DigitChar(d)]
    ensures ParseTime(t).value == (a * 10 + b) * 60 + c * 10 + d
  {
    var mm, ss := t[..2], t[3..];
    ParseTwoDigits(mm);
    ParseTwoDigits(ss);
    a, b, c, d := DigitValue(t[0]), DigitValue(t[1]), DigitValue(t[3]), DigitValue(t[4]);
    DigitCharValue(t[0]);
    DigitCharValue(t[1]);
    DigitCharValue(t[3]);
    DigitCharValue(t[4]);
    assert mm == [DigitChar(a), DigitChar(b)] && ss == [DigitChar(c), DigitChar(d)];
    assert t == mm + ":" + ss;
  }

  /** The text of (10a + b) minutes and (10c + d) seconds is "ab:cd". */
  lemma FormatFourDigits(v: nat, a: nat, b: nat, c: nat, d: nat)
    requires a < 10 && b < 10 && c < 6 && d < 10 && v == (a * 10 + b) * 60 + c * 10 + d
    ensures FormatTime(v) == [DigitChar(a), DigitChar(b)] + ":" + [DigitChar(c), DigitChar(d)]
  {
    var mins, secs := a * 10 + b, c * 10 + d;
    DivMod(v, 60, mins, secs);
    DivMod(mins, 10, a, b);
    DivMod(secs, 10, c, d);
    JoinTwoDigitFields(mins, secs);
    assert FormatTime(v) == JoinFields(mins, secs);
  }

  lemma DivMod(n: nat, d: nat, q: nat, r: nat)
    requires (d == 10 || d == 60) && r < d && n == q * d + r
    ensures n / d == q && n % d == r
  {
    if d == 10 {
      assert n == q * 10 + r;
    } else {
      assert n == q * 60 + r;
    }
  }

  /** Two-digit fields are written without padding. */
  lemma JoinTwoDigitFields(mins: nat, secs: nat)
    requires mins < 100 && secs < 100
    ensures JoinFields(mins, secs) == [DigitChar(mins / 10), DigitChar(mins % 10)] + ":" + [DigitChar(secs / 10), DigitChar(secs % 10)]
  {
    TwoDigits(mins);
    TwoDigits(secs);
  }

  /** formatTime is a bijection between [0, 6000) and the accepted five-character texts. */
  lemma FormatTimeBijection(seconds: nat, t: string)
    requires |t| == 5
    ensures ParseTime(t) == Some(seconds) <==> seconds < 6000 && FormatTime(seconds) == t
  {
    if ParseTime(t) == Some(seconds) {
      ParseThenFormat(t, seconds);
    }
    if seconds < 6000 && FormatTime(seconds) == t {
      FormatThenParse(seconds);
    }
  }

  // ---------------------------------------------------------------------------
  // Progress ring

  /** With 1 <= timeLeft <= duration the offset lies in [0, 283). */
  lemma RingOffsetBounds(timeLeft: int, duration: int)
    requires 1 <= timeLeft <= duration
    ensures 0.0 <= RingOffset(timeLeft, duration) < CIRCUMFERENCE
  {
    var q := (CIRCUMFERENCE * timeLeft as real) / duration as real;
    assert q * duration as real == CIRCUMFERENCE * timeLeft as real;
    assert 0.0 < q <= CIRCUMFERENCE;
  }

  /** A full phase draws no progress; less time left draws strictly more. */
  lemma RingOffsetProgress(timeLeft: int, later: int, duration: int)
    requires duration > 0 && later < timeLeft
    ensures RingOffset(duration, duration) == 0.0
    ensures RingOffset(later, duration) > RingOffset(timeLeft, duration)
  {
    var d := duration as real;
    var a := (CIRCUMFERENCE * later as real) / d;
    var b := (CIRCUMFERENCE * timeLeft as real) / d;
    assert a * d == CIRCUMFERENCE * later as real;
    assert b * d == CIRCUMFERENCE * timeLeft as real;
    assert (b - a) * d > 0.0;
  }
}
