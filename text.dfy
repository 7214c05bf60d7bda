/**
 * The few Python string and integer conversions the application relies on:
 * `str.strip()`, `str.split(',')`, `str.endswith` and `int()` applied to text,
 * together with the decimal rendering that they invert.
 */
module Text {
  import opened Wrappers

  /**
   * The ASCII characters `str.strip()` and `int()` treat as whitespace:
   * space, tab through carriage return, and the four separators 0x1C to 0x1F.
   */
  predicate IsSpace(c: char) {
    c == ' ' || '\t' <= c <= '\r' || '\U{1C}' <= c <= '\U{1F}'
  }

  predicate IsDigit(c: char) {
    '0' <= c <= '9'
  }

  predicate AllDigits(s: string) {
    forall i :: 0 <= i < |s| ==> IsDigit(s[i])
  }

  /** `s.strip()`: drops whitespace from both ends, one character at a time. */
  function Strip(s: string): string
    decreases |s|
  {
    if s != [] && IsSpace(s[0]) then Strip(s[1..])
    else if s != [] && IsSpace(s[|s| - 1]) then Strip(s[..|s| - 1])
    else s
  }

  /** What is left after stripping is the slice `s[i..j]` between a whitespace prefix and a whitespace suffix. */
  lemma {:induction false} StripSlice(s: string) returns (i: nat, j: nat)
    ensures i <= j <= |s| && Strip(s) == s[i..j]
    ensures forall k :: 0 <= k < i ==> IsSpace(s[k])
    ensures forall k :: j <= k < |s| ==> IsSpace(s[k])
    decreases |s|
  {
    if s != [] && IsSpace(s[0]) {
      var rest := s[1..];
      var i', j' := StripSlice(rest);
      i, j := i' + 1, j' + 1;
      assert rest[i'..j'] == s[i..j];
      forall k | 0 <= k < i ensures IsSpace(s[k]) {
        if k > 0 {
          assert s[k] == rest[k - 1];
        }
      }
      forall k | j <= k < |s| ensures IsSpace(s[k]) {
        assert s[k] == rest[k - 1];
      }
    } else if s != [] && IsSpace(s[|s| - 1]) {
      var rest := s[..|s| - 1];
      i, j := StripSlice(rest);
      assert rest[i..j] == s[i..j];
      forall k | j <= k < |s| ensures IsSpace(s[k]) {
        if k < |rest| {
          assert s[k] == rest[k];
        }
      }
    } else {
      i, j := 0, |s|;
    }
  }

  /**
   * The stripped text is an empty slice exactly when the text is all
   * whitespace, and otherwise begins and ends with a character that is not
   * whitespace.
   */
  lemma {:induction false} StripMeaning(s: string)
    ensures |Strip(s)| <= |s|
    ensures exists i, j :: && 0 <= i <= j <= |s| && Strip(s) == s[i..j]
                           && (forall k :: 0 <= k < i ==> IsSpace(s[k]))
                           && (forall k :: j <= k < |s| ==> IsSpace(s[k]))
    ensures Strip(s) == [] <==> forall i :: 0 <= i < |s| ==> IsSpace(s[i])
    ensures Strip(s) != [] ==> !IsSpace(Strip(s)[0]) && !IsSpace(Strip(s)[|Strip(s)| - 1])
    decreases |s|
  {
    var i, j := StripSlice(s);
    if s != [] && IsSpace(s[0]) {
      var rest := s[1..];
      StripMeaning(rest);
      assert forall i :: 0 <= i < |rest| ==> rest[i] == s[i + 1];
    } else if s != [] && IsSpace(s[|s| - 1]) {
      var rest := s[..|s| - 1];
      StripMeaning(rest);
      assert forall i :: 0 <= i < |rest| ==> rest[i] == s[i];
    }
  }

  lemma StripUnpadded(s: string)
    requires s != [] && !IsSpace(s[0]) && !IsSpace(s[|s| - 1])
    ensures Strip(s) == s
  {
  }

  /** `s.endswith(suffix)`. */
  predicate EndsWith(s: string, suffix: string) {
    |suffix| <= |s| && s[|s| - |suffix|..] == suffix
  }

  // ---------------------------------------------------------------- digits

  function DigitValue(c: char): nat
    requires IsDigit(c)
  {
    c as int - '0' as int
  }

  function DigitChar(d: nat): (c: char)
    requires d < 10
    ensures IsDigit(c) && DigitValue(c) == d
  {
    ('0' as int + d) as char
  }

  function Pow10(n: nat): (r: nat)
    ensures r >= 1
  {
    if n == 0 then 1 else 10 * Pow10(n - 1)
  }

  /** The number a string of decimal digits denotes (leading zeros allowed). */
  function Value(s: string): nat
    requires AllDigits(s)
  {
    if s == [] then 0 else Value(s[..|s| - 1]) * 10 + DigitValue(s[|s| - 1])
  }

  lemma {:induction false} ValueBound(s: string)
    requires AllDigits(s)
    ensures Value(s) < Pow10(|s|)
  {
    if s != [] {
      ValueBound(s[..|s| - 1]);
    }
  }

  /** `n` written with exactly `width` digits, zero-padded on the left. */
  function Pad(n: nat, width: nat): (r: string)
    requires n < Pow10(width)
    ensures |r| == width && AllDigits(r) && Value(r) == n
  {
    if width == 0 then []
    else
      var r := Pad(n / 10, width - 1) + [DigitChar(n % 10)];
      assert r[..|r| - 1] == Pad(n / 10, width - 1);
      r
  }

  /** Every fixed-width digit string is the padded rendering of its own value. */
  lemma {:induction false} PadValue(s: string)
    requires AllDigits(s)
    ensures Value(s) < Pow10(|s|) && Pad(Value(s), |s|) == s
  {
    ValueBound(s);
    if s != [] {
      var p := s[..|s| - 1];
      PadValue(p);
      assert Value(s) / 10 == Value(p);
      assert Value(s) % 10 == DigitValue(s[|s| - 1]);
      assert s == p + [s[|s| - 1]];
    }
  }

  /** `str(n)` for a natural number: no leading zero. */
  function FormatNat(n: nat): (r: string)
    ensures r != [] && AllDigits(r) && Value(r) == n
    ensures |r| > 1 ==> r[0] != '0'
  {
    if n < 10 then [DigitChar(n)]
    else
      var r := FormatNat(n / 10) + [DigitChar(n % 10)];
      assert r[..|r| - 1] == FormatNat(n / 10);
      r
  }

  /** `str(i)` for an integer. */
  function FormatInt(i: int): (r: string)
    ensures r != [] && !IsSpace(r[0]) && IsDigit(r[|r| - 1])
    ensures forall k :: 0 <= k < |r| ==> IsDigit(r[k]) || r[k] == '-'
  {
    if i < 0 then "-" + FormatNat(-i) else FormatNat(i)
  }

  /**
   * `int(s)` on text: surrounding whitespace is ignored, then an optional sign
   * and at least one decimal digit must make up the rest. `None` stands for
   * the ValueError Python raises otherwise.
   */
  function ParseInt(s: string): Option<int> {
    var t := Strip(s);
    if t != [] && (t[0] == '+' || t[0] == '-') then
      var digits := t[1..];
      if digits != [] && AllDigits(digits) then
        var magnitude: int := Value(digits);
        Some(if t[0] == '-' then -magnitude else magnitude)
      else None
    else if t != [] && AllDigits(t) then Some(Value(t))
    else None
  }

  /** `int(str(i)) == i`. */
  lemma ParseFormatInt(i: int)
    ensures ParseInt(FormatInt(i)) == Some(i)
  {
    var s := FormatInt(i);
    StripUnpadded(s);
    if i < 0 {
      assert s[1..] == FormatNat(-i);
    }
  }

  // ---------------------------------------------------------------- split and join

  /** `s.split(sep)`: always at least one piece, no piece contains `sep`. */
  function Split(s: string, sep: char): (r: seq<string>)
    ensures |r| >= 1
    ensures forall k :: 0 <= k < |r| ==> sep !in r[k]
  {
    if s == [] then [[]]
    else
      var rest := Split(s[1..], sep);
      if s[0] == sep then [[]] + rest
      else [[s[0]] + rest[0]] + rest[1..]
  }

  /** `sep.join(pieces)`. */
  function Join(pieces: seq<string>, sep: char): string
    requires |pieces| >= 1
  {
    if |pieces| == 1 then pieces[0] else pieces[0] + [sep] + Join(pieces[1..], sep)
  }

  lemma {:induction false} SplitPrefix(a: string, b: string, sep: char)
    requires sep !in a
    ensures Split(a + b, sep) == [a + Split(b, sep)[0]] + Split(b, sep)[1..]
  {
    var pieces := Split(b, sep);
    if a == [] {
      assert a + b == b && a + pieces[0] == pieces[0];
      assert pieces == [pieces[0]] + pieces[1..];
    } else {
      SplitPrefix(a[1..], b, sep);
      assert (a + b)[1..] == a[1..] + b;
      assert [a[0]] + (a[1..] + Split(b, sep)[0]) == a + Split(b, sep)[0];
    }
  }

  /** Splitting undoes joining when no piece contains the separator. */
  lemma {:induction false} SplitJoin(pieces: seq<string>, sep: char)
    requires |pieces| >= 1
    requires forall k :: 0 <= k < |pieces| ==> sep !in pieces[k]
    ensures Split(Join(pieces, sep), sep) == pieces
  {
    var p := pieces[0];
    if |pieces| == 1 {
      SplitPrefix(p, [], sep);
      assert p + [] == p;
    } else {
      var tail := Join(pieces[1..], sep);
      SplitJoin(pieces[1..], sep);
      SplitPrefix(p, [sep] + tail, sep);
      assert p + [sep] + tail == p + ([sep] + tail);
      assert ([sep] + tail)[1..] == tail;
      assert Split([sep] + tail, sep) == [[]] + pieces[1..];
      assert p + [] == p;
      assert pieces == [p] + pieces[1..];
    }
  }
}
