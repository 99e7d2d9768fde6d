/** The `MM:SS` rendering of an elapsed time in milliseconds (`formatTime`). */
module Clock {

  /** Whole seconds shown for `ms`: max(0, floor(ms / 1000)).
      Dafny's `/` by a positive divisor rounds toward negative infinity, as `Math.floor` does. */
  function Seconds(ms: int): (s: nat)
    ensures ms < 0 ==> s == 0
    ensures ms >= 0 ==> s * 1000 <= ms < s * 1000 + 1000
  {
    var f := ms / 1000;
    if f < 0 then 0 else f
  }

  predicate IsDigit(c: char) { '0' <= c <= '9' }

  predicate IsDigits(s: string) { forall i :: 0 <= i < |s| ==> IsDigit(s[i]) }

  function DigitChar(d: nat): (c: char)
    requires d < 10
    ensures IsDigit(c)
  {
    ('0' as int + d) as char
  }

  function DigitValue(c: char): (d: nat)
    requires IsDigit(c)
    ensures d < 10 && DigitChar(d) == c
  {
    c as int - '0' as int
  }

  /** The number a string of decimal digits denotes. */
  function Value(s: string): nat
    requires IsDigits(s)
  {
    if s == [] then 0 else Value(s[..|s| - 1]) * 10 + DigitValue(s[|s| - 1])
  }

  /** `String(n)` for a non-negative integer: its canonical decimal digits. */
  function DecimalString(n: nat): (r: string)
    ensures IsDigits(r) && 1 <= |r|
    ensures Value(r) == n
    ensures |r| > 1 ==> r[0] != '0'
    ensures n < 100 ==> |r| <= 2
  {
    if n < 10 then [DigitChar(n)]
    else
      var r := DecimalString(n / 10) + [DigitChar(n % 10)];
      assert r[..|r| - 1] == DecimalString(n / 10);
      r
  }

  /** `s.padStart(width, "0")`: zeros are prepended until `s` has `width` characters. */
  function PadStart(s: string, width: nat): (r: string)
    ensures |r| == if |s| < width then width else |s|
    ensures r[|r| - |s|..] == s
    ensures forall i :: 0 <= i < |r| - |s| ==> r[i] == '0'
  {
    if |s| >= width then s
    else
      var z := seq(width - |s|, _ => '0');
      assert (z + s)[|z|..] == s;
      z + s
  }

  /** `formatTime(ms)`: minutes and seconds, each padded to at least two digits. The text is
      `MM:SS` with the seconds below 60 and `MM * 60 + SS` the whole seconds elapsed. */
  function FormatTime(ms: int): (r: string)
    ensures IsClock(r, Seconds(ms))
    ensures Seconds(ms) < 6000 ==> |r| == 5
    ensures |r| > 5 ==> r[0] != '0'
  {
    RenderParts(Seconds(ms));
    RenderWidth(Seconds(ms));
    Render(Seconds(ms))
  }

  function Render(s: nat): string
  {
    PadStart(DecimalString(s / 60), 2) + ":" + PadStart(DecimalString(s % 60), 2)
  }

  lemma {:induction false} ValueOfZeros(z: string)
    requires forall i :: 0 <= i < |z| ==> z[i] == '0'
    ensures IsDigits(z) && Value(z) == 0
  {
    if z != [] {
      ValueOfZeros(z[..|z| - 1]);
    }
  }

  /** Leading zeros do not change the value of a digit string. */
  lemma {:induction false} ValueLeadingZeros(z: string, s: string)
    requires forall i :: 0 <= i < |z| ==> z[i] == '0'
    requires IsDigits(s)
    ensures IsDigits(z + s) && Value(z + s) == Value(s)
  {
    if s == [] {
      assert z + s == z;
      ValueOfZeros(z);
    } else {
      ValueLeadingZeros(z, s[..|s| - 1]);
      assert (z + s)[..|z + s| - 1] == z + s[..|s| - 1];
    }
  }

  /** A padded decimal field still denotes the number it was built from. */
  lemma PaddedValue(n: nat, width: nat)
    ensures IsDigits(PadStart(DecimalString(n), width))
    ensures Value(PadStart(DecimalString(n), width)) == n
    ensures n < 100 && width == 2 ==> |PadStart(DecimalString(n), width)| == 2
  {
    var d := DecimalString(n);
    var r := PadStart(d, width);
    var z := r[..|r| - |d|];
    assert r == z + d;
    ValueLeadingZeros(z, d);
  }

  /** `r` reads `MM:SS`: two or more minute digits, a colon, exactly two second digits
      below 60, and together they spell `secs` seconds. */
  predicate IsClock(r: string, secs: nat)
  {
    && |r| >= 5 && r[|r| - 3] == ':'
    && IsDigits(r[..|r| - 3]) && IsDigits(r[|r| - 2..])
    && Value(r[|r| - 2..]) < 60
    && Value(r[..|r| - 3]) * 60 + Value(r[|r| - 2..]) == secs
  }

  lemma RenderParts(s: nat)
    ensures IsClock(Render(s), s)
  {
    var m, sec := s / 60, s % 60;
    PaddedValue(m, 2);
    PaddedValue(sec, 2);
    Joined(PadStart(DecimalString(m), 2), PadStart(DecimalString(sec), 2), s);
  }

  /** The minutes take exactly two digits below 100 minutes, and a longer minute field is
      `String(n)` unpadded, so it has no leading zero. */
  lemma RenderWidth(s: nat)
    ensures s < 6000 ==> |Render(s)| == 5
    ensures |Render(s)| > 5 ==> Render(s)[0] != '0'
  {
    var m, sec := s / 60, s % 60;
    var d := DecimalString(m);
    var mm, ss := PadStart(d, 2), PadStart(DecimalString(sec), 2);
    PaddedValue(sec, 2);
    assert Render(s) == mm + ":" + ss;
    if s < 6000 {
      PaddedValue(m, 2);
    }
    if |mm| > 2 {
      assert mm == mm[|mm| - |d|..] == d;
    }
  }

  lemma Joined(mm: string, ss: string, s: nat)
    requires IsDigits(mm) && IsDigits(ss) && |mm| >= 2 && |ss| == 2
    requires Value(ss) < 60 && Value(mm) * 60 + Value(ss) == s
    ensures IsClock(mm + ":" + ss, s)
  {
    var r := mm + ":" + ss;
    assert r[..|r| - 3] == mm;
    assert r[|r| - 2..] == ss;
  }

  /** Two times render alike exactly when they have the same whole seconds. */
  lemma FormatTimeInjective(a: int, b: int)
    ensures FormatTime(a) == FormatTime(b) <==> Seconds(a) == Seconds(b)
  {
    var ra, rb := FormatTime(a), FormatTime(b);
    if ra == rb {
      ClockUnique(ra, Seconds(a), Seconds(b));
    }
  }

  lemma ClockUnique(r: string, x: nat, y: nat)
    requires IsClock(r, x) && IsClock(r, y)
    ensures x == y
  {
  }

  lemma FormatTimeZero()
    ensures FormatTime(0) == "00:00"
  {
    assert DecimalString(0) == "0";
    assert PadStart("0", 2) == "00";
    assert Render(0) == "00:00";
  }
}
