/** Python 2 byte strings and the few `str` built-ins the modelled code relies on:
    `str(n)`, `int(s)`, `s.strip()`, `s.zfill(w)`, right-aligned `"{0:Nd}"` formatting,
    `"0" * k` and ASCII decoding.  Python 2 `str` is a byte string, so every
    classification here (`isdigit`, `isspace`, `isupper`, `islower`) is ASCII-only. */
module Text {
  import opened Results

  /** One octet on the wire. */
  newtype byte = x: int | 0 <= x < 256

  /** `str.decode()` with Python 2's default codec succeeds exactly on ASCII bytes. */
  predicate Ascii(bs: seq<byte>) {
    forall i :: 0 <= i < |bs| ==> bs[i] < 128
  }

  predicate AsciiText(s: string) {
    forall i :: 0 <= i < |s| ==> s[i] as int < 128
  }

  /** The characters an ASCII byte string decodes to. */
  function Decode(bs: seq<byte>): (s: string)
    requires Ascii(bs)
    ensures |s| == |bs|
    ensures forall i :: 0 <= i < |bs| ==> s[i] as int == bs[i] as int
  {
    seq(|bs|, i requires 0 <= i < |bs| => bs[i] as int as char)
  }

  /** `s.encode()` of an ASCII string. */
  function Encode(s: string): (bs: seq<byte>)
    requires AsciiText(s)
    ensures |bs| == |s| && Ascii(bs)
    ensures forall i :: 0 <= i < |s| ==> bs[i] as int == s[i] as int
  {
    seq(|s|, i requires 0 <= i < |s| => s[i] as int as byte)
  }

  lemma DecodeEncode(s: string)
    requires AsciiText(s)
    ensures Decode(Encode(s)) == s
  {
  }

  lemma AsciiConcat(a: seq<byte>, b: seq<byte>)
    ensures Ascii(a + b) <==> Ascii(a) && Ascii(b)
  {
    if Ascii(a) && Ascii(b) {
      forall i | 0 <= i < |a + b|
        ensures (a + b)[i] < 128
      {
        if i >= |a| {
          assert (a + b)[i] == b[i - |a|];
        }
      }
    }
    if Ascii(a + b) {
      forall i | 0 <= i < |a|
        ensures a[i] < 128
      {
        assert (a + b)[i] == a[i];
      }
      forall i | 0 <= i < |b|
        ensures b[i] < 128
      {
        assert (a + b)[|a| + i] == b[i];
      }
    }
  }

  // ---------------------------------------------------------------- digits

  /** `c.isdigit()` for a Python 2 byte string. */
  predicate IsDigit(c: char) {
    '0' <= c <= '9'
  }

  predicate AllDigits(s: string) {
    forall i :: 0 <= i < |s| ==> IsDigit(s[i])
  }

  function DigitChar(d: nat): (c: char)
    requires d < 10
    ensures IsDigit(c)
  {
    (48 + d) as char
  }

  function DigitValue(c: char): (d: nat)
    requires IsDigit(c)
    ensures d < 10 && DigitChar(d) == c
  {
    c as int - 48
  }

  function Pow10(k: nat): (p: nat)
    ensures p >= 1
  {
    if k == 0 then 1 else 10 * Pow10(k - 1)
  }

  /** `str(n)` for a non-negative integer: its decimal digits, no leading zero. */
  function NatToString(n: nat): (s: string)
    ensures |s| >= 1 && AllDigits(s)
    ensures |s| > 1 ==> s[0] != '0'
  {
    if n < 10 then [DigitChar(n)] else NatToString(n / 10) + [DigitChar(n % 10)]
  }

  /** `str(i)` for any integer. */
  function IntToString(i: int): (s: string)
    ensures |s| >= 1
    ensures i >= 0 <==> AllDigits(s)
  {
    if i < 0 then
      var s := "-" + NatToString(-i);
      assert !IsDigit(s[0]);
      s
    else
      NatToString(i)
  }

  /** The value of a string of decimal digits, read left to right. */
  function DigitsValue(s: string): nat
    requires AllDigits(s)
  {
    if s == [] then 0 else 10 * DigitsValue(s[..|s| - 1]) + DigitValue(s[|s| - 1])
  }

  lemma {:induction false} DigitsValueOfNatToString(n: nat)
    ensures DigitsValue(NatToString(n)) == n
  {
    if n >= 10 {
      var s := NatToString(n);
      assert s[..|s| - 1] == NatToString(n / 10);
      DigitsValueOfNatToString(n / 10);
    }
  }

  /** A string of k digits denotes a number below 10^k. */
  lemma {:induction false} DigitsValueBound(s: string)
    requires AllDigits(s)
    ensures DigitsValue(s) < Pow10(|s|)
  {
    if s != [] {
      DigitsValueBound(s[..|s| - 1]);
    }
  }

  /** `str(n)` has at most k characters exactly when n < 10^k. */
  lemma {:induction false} NatToStringLength(n: nat, k: nat)
    requires k >= 1
    ensures |NatToString(n)| <= k <==> n < Pow10(k)
  {
    if n >= 10 {
      if k == 1 {
        assert |NatToString(n)| >= 2;
      } else {
        NatToStringLength(n / 10, k - 1);
      }
    } else {
      assert Pow10(k) >= 10 by { assert Pow10(k) == 10 * Pow10(k - 1); }
    }
  }

  /** `c * k`: k copies of c, nothing when k is not positive. */
  function Repeat(c: char, k: int): (s: string)
    ensures |s| == if k > 0 then k else 0
    ensures forall i :: 0 <= i < |s| ==> s[i] == c
  {
    if k <= 0 then [] else [c] + Repeat(c, k - 1)
  }

  lemma {:induction false} LeadingZeros(k: int, s: string)
    requires AllDigits(s)
    ensures AllDigits(Repeat('0', k) + s)
    ensures DigitsValue(Repeat('0', k) + s) == DigitsValue(s)
  {
    var z := Repeat('0', k);
    if s == [] {
      assert z + s == z;
      ZerosValue(z);
    } else {
      assert (z + s)[..|z + s| - 1] == z + s[..|s| - 1];
      LeadingZeros(k, s[..|s| - 1]);
    }
  }

  lemma {:induction false} ZerosValue(z: string)
    requires forall i :: 0 <= i < |z| ==> z[i] == '0'
    ensures AllDigits(z) && DigitsValue(z) == 0
  {
    if z != [] {
      ZerosValue(z[..|z| - 1]);
    }
  }

  // ---------------------------------------------------------- whitespace

  /** `c.isspace()` for a Python 2 byte string. */
  predicate IsSpace(c: char) {
    c == ' ' || c == '\t' || c == '\n' || c == '\r' || c == '\U{0B}' || c == '\U{0C}'
  }

  /** The index of the first character of `s` at or after `i` that is not whitespace. */
  function SkipSpaces(s: string, i: nat): (j: nat)
    requires i <= |s|
    ensures i <= j <= |s|
    decreases |s| - i
  {
    if i < |s| && IsSpace(s[i]) then SkipSpaces(s, i + 1) else i
  }

  /** The end of `s[..j]` once its trailing whitespace is dropped. */
  function DropSpaces(s: string, j: nat): (e: nat)
    requires j <= |s|
    ensures e <= j
  {
    if j > 0 && IsSpace(s[j - 1]) then DropSpaces(s, j - 1) else j
  }

  predicate IsSign(c: char) {
    c == '-' || c == '+'
  }

  /** `s.strip()`: what lies between the leading and the trailing whitespace. */
  function Strip(s: string): (t: string)
    ensures |t| <= |s|
  {
    var b := SkipSpaces(s, 0);
    var e := DropSpaces(s, |s|);
    if b < e then s[b..e] else []
  }

  /** `int(s)` in base 10 for a Python 2 `str`: surrounding whitespace, an optional sign,
      more whitespace (the digit reader after the sign skips it again), then at least one
      digit and nothing else; `None` stands for the `ValueError` it raises otherwise. */
  function PyInt(s: string): Option<int> {
    var t := Strip(s);
    if t == [] then None
    else if IsSign(t[0]) then Signed(t[0], t[SkipSpaces(t, 1)..])
    else DigitRun(t)
  }

  /** The value of a non-empty run of digits. */
  function DigitRun(t: string): Option<nat> {
    if t != [] && AllDigits(t) then Some(DigitsValue(t)) else None
  }

  /** A digit run after a sign. */
  function Signed(sign: char, u: string): Option<int> {
    match DigitRun(u)
    case None => None
    case Some(v) =>
      var i: int := if sign == '-' then -(v as int) else v;
      Some(i)
  }

  /** Whitespace from `i` up to a non-space at `j` is skipped up to `j`. */
  lemma {:induction false} SkipSpacesTo(s: string, i: nat, j: nat)
    requires i <= j < |s| && !IsSpace(s[j])
    requires forall m :: i <= m < j ==> IsSpace(s[m])
    ensures SkipSpaces(s, i) == j
    decreases j - i
  {
    if i < j {
      SkipSpacesTo(s, i + 1, j);
    }
  }

  /** Trailing whitespace is dropped back to a non-space at `j - 1`. */
  lemma {:induction false} DropSpacesTo(s: string, i: nat, j: nat)
    requires 0 < j <= i <= |s| && !IsSpace(s[j - 1])
    requires forall m :: j <= m < i ==> IsSpace(s[m])
    ensures DropSpaces(s, i) == j
    decreases i - j
  {
    if j < i {
      DropSpacesTo(s, i - 1, j);
    }
  }

  /** A string that starts with a non-space and ends in a non-space is its own strip. */
  lemma StripNoop(x: string)
    requires x != [] && !IsSpace(x[0]) && !IsSpace(x[|x| - 1])
    ensures Strip(x) == x
  {
    assert SkipSpaces(x, 0) == 0;
    assert DropSpaces(x, |x|) == |x|;
  }

  /** Trailing whitespace is never dropped past a leading non-space. */
  lemma {:induction false} DropSpacesFloor(s: string, j: nat)
    requires 1 <= j <= |s| && !IsSpace(s[0])
    ensures DropSpaces(s, j) >= 1
  {
    if j > 1 && IsSpace(s[j - 1]) {
      DropSpacesFloor(s, j - 1);
    }
  }

  /** A non-empty run of digits needs no stripping. */
  lemma PyIntDigits(s: string)
    requires AllDigits(s) && s != []
    ensures PyInt(s) == Some(DigitsValue(s))
  {
    assert !IsSpace(s[0]) && !IsSpace(s[|s| - 1]);
    StripNoop(s);
  }

  /** A string that starts with something other than a space, a sign or a digit is not
      an integer. */
  lemma PyIntRejects(s: string)
    requires s != [] && !IsSpace(s[0]) && !IsDigit(s[0]) && !IsSign(s[0])
    ensures PyInt(s) == None
  {
    assert SkipSpaces(s, 0) == 0;
    DropSpacesFloor(s, |s|);
    var t := Strip(s);
    assert t[0] == s[0];
  }

  /** Leading spaces before a run of digits are skipped. */
  lemma PyIntSpacedRun(k: int, d: string)
    requires d != [] && AllDigits(d)
    ensures PyInt(Repeat(' ', k) + d) == Some(DigitsValue(d))
  {
    var pad := Repeat(' ', k);
    var x := pad + d;
    assert x[|pad|] == d[0] && !IsSpace(d[0]);
    assert forall m :: 0 <= m < |pad| ==> x[m] == pad[m];
    SkipSpacesTo(x, 0, |pad|);
    assert x[|x| - 1] == d[|d| - 1];
    assert DropSpaces(x, |x|) == |x|;
    assert x[|pad|..|x|] == d;
    assert Strip(x) == d;
  }

  /** `int()` reads a space-padded decimal back to the number. */
  lemma PyIntSpacePadded(n: nat, k: int)
    ensures PyInt(Repeat(' ', k) + NatToString(n)) == Some(n)
  {
    PyIntSpacedRun(k, NatToString(n));
    DigitsValueOfNatToString(n);
  }

  /** A signed string that ends in a digit needs no stripping: `int()` reads the digit
      run after the sign and any spaces. */
  lemma PyIntSignedForm(x: string)
    requires x != [] && IsSign(x[0]) && IsDigit(x[|x| - 1])
    ensures PyInt(x) == Signed(x[0], x[SkipSpaces(x, 1)..])
  {
    assert !IsSpace(x[0]) && !IsSpace(x[|x| - 1]);
    StripNoop(x);
  }

  /** A sign, a run of spaces and a run of digits read as the signed digit run. */
  lemma PyIntSignedRun(sign: char, k: int, d: string)
    requires IsSign(sign) && d != [] && AllDigits(d)
    ensures PyInt([sign] + Repeat(' ', k) + d) == Signed(sign, d)
  {
    var pad := Repeat(' ', k);
    var x := [sign] + pad + d;
    assert x[|x| - 1] == d[|d| - 1];
    assert x[1 + |pad|] == d[0];
    assert forall m :: 1 <= m < 1 + |pad| ==> x[m] == pad[m - 1];
    SkipSpacesTo(x, 1, 1 + |pad|);
    assert x[1 + |pad|..] == d;
    PyIntSignedForm(x);
  }

  /** `int()` reads a sign, any run of spaces and a decimal as the signed number:
      `int("-    5") == -5`. */
  lemma PyIntSignedSpaces(sign: char, k: int, n: nat)
    requires IsSign(sign)
    ensures PyInt([sign] + Repeat(' ', k) + NatToString(n)) == Some(if sign == '-' then -(n as int) else n)
  {
    var d := NatToString(n);
    PyIntSignedRun(sign, k, d);
    SignedDigits(sign, d);
    DigitsValueOfNatToString(n);
  }

  lemma SignedDigits(sign: char, d: string)
    requires d != [] && AllDigits(d)
    ensures Signed(sign, d) == Some(if sign == '-' then -(DigitsValue(d) as int) else DigitsValue(d))
  {
  }

  /** `int()` reads a zero-padded decimal back to the number. */
  lemma PyIntZeroPadded(n: nat, k: int)
    ensures PyInt(Repeat('0', k) + NatToString(n)) == Some(n)
  {
    LeadingZeros(k, NatToString(n));
    DigitsValueOfNatToString(n);
    PyIntDigits(Repeat('0', k) + NatToString(n));
  }

  // ------------------------------------------------------- unicode int()

  /** `c.isspace()` for a Python 2 `unicode` character below U+0080: the byte-string
      whitespace plus the four information separators U+001C to U+001F. */
  predicate IsUnicodeSpace(c: char) {
    IsSpace(c) || '\U{1C}' <= c <= '\U{1F}'
  }

  /** The byte string `PyUnicode_EncodeDecimal` builds from ASCII text before the
      digits are read: each unicode whitespace character becomes `' '`, every other
      character is kept. */
  function EncodeDecimal(s: string): (e: string)
    ensures |e| == |s|
    ensures forall i :: 0 <= i < |s| ==> e[i] == if IsUnicodeSpace(s[i]) then ' ' else s[i]
  {
    if s == [] then []
    else [if IsUnicodeSpace(s[0]) then ' ' else s[0]] + EncodeDecimal(s[1..])
  }

  /** `int(u)` in base 10 for a Python 2 `unicode` of ASCII characters, such as the text
      `.decode()` gives. A NUL cannot be encoded and raises `UnicodeEncodeError`, a
      `ValueError`; `PyInt` rejects a NUL as well, so `None` covers it. */
  function PyIntUnicode(s: string): Option<int> {
    PyInt(EncodeDecimal(s))
  }

  /** Text without unicode whitespace other than `' '` passes through unchanged. */
  lemma EncodeDecimalKeeps(s: string)
    requires forall i :: 0 <= i < |s| ==> s[i] == ' ' || !IsUnicodeSpace(s[i])
    ensures EncodeDecimal(s) == s
  {
  }

  /** Unicode whitespace before digits is encoded as that many spaces. */
  lemma EncodeDecimalPadded(w: string, d: string)
    requires forall i :: 0 <= i < |w| ==> IsUnicodeSpace(w[i])
    requires AllDigits(d)
    ensures EncodeDecimal(w + d) == Repeat(' ', |w|) + d
  {
    var e := EncodeDecimal(w + d);
    var r := Repeat(' ', |w|) + d;
    forall i | 0 <= i < |e| ensures e[i] == r[i] {
      if i >= |w| {
        assert (w + d)[i] == d[i - |w|] && IsDigit(d[i - |w|]);
      }
    }
  }

  /** Any run of unicode whitespace, separators included, before `str(n)` reads back as
      `n`: the byte-string reader sees only spaces there. */
  lemma PyIntUnicodePadded(w: string, n: nat)
    requires forall i :: 0 <= i < |w| ==> IsUnicodeSpace(w[i])
    ensures PyIntUnicode(w + NatToString(n)) == Some(n)
  {
    EncodeDecimalPadded(w, NatToString(n));
    PyIntSpacePadded(n, |w|);
  }

  /** Unicode whitespace before `str(n)` is ASCII text. */
  lemma UnicodePaddedAscii(w: string, n: nat)
    requires forall i :: 0 <= i < |w| ==> IsUnicodeSpace(w[i])
    ensures AsciiText(w + NatToString(n))
  {
    var d := NatToString(n);
    forall i | 0 <= i < |w + d| ensures (w + d)[i] as int < 128 {
      if i < |w| {
        assert IsUnicodeSpace(w[i]);
      } else {
        assert IsDigit(d[i - |w|]);
      }
    }
  }

  /** A unicode string that starts with something other than whitespace, a sign or a
      digit is not an integer. */
  lemma PyIntUnicodeRejects(s: string)
    requires s != [] && !IsUnicodeSpace(s[0]) && !IsDigit(s[0]) && !IsSign(s[0])
    ensures PyIntUnicode(s) == None
  {
    var e := EncodeDecimal(s);
    assert e[0] == s[0];
    PyIntRejects(e);
  }

  /** The information separators part the two readers: `int("\x1c5")` raises on a byte
      string and gives 5 on a unicode string. */
  lemma SeparatorReaders()
    ensures PyInt("\U{1C}5") == None
    ensures PyIntUnicode("\U{1C}5") == Some(5)
  {
    PyIntRejects("\U{1C}5");
    PyIntUnicodePadded("\U{1C}", 5);
    assert "\U{1C}" + NatToString(5) == "\U{1C}5";
  }

  // ----------------------------------------------------------- formatting

  /** `s.zfill(width)`: pad with zeros on the left, after a leading sign, up to `width`. */
  function ZFill(s: string, width: int): (r: string)
    ensures |r| == if |s| >= width then |s| else width
    ensures |s| >= width ==> r == s
    ensures s != [] && IsSign(s[0]) ==>
      && r[0] == s[0]
      && (forall i :: 1 <= i <= |r| - |s| ==> r[i] == '0')
      && r[|r| - |s| + 1..] == s[1..]
    ensures (s == [] || !IsSign(s[0])) ==>
      && (forall i :: 0 <= i < |r| - |s| ==> r[i] == '0')
      && r[|r| - |s|..] == s
  {
    if |s| >= width then s
    else if |s| > 0 && IsSign(s[0]) then [s[0]] + Repeat('0', width - |s|) + s[1..]
    else Repeat('0', width - |s|) + s
  }

  /** A non-negative number is right-aligned with spaces in front of `str(n)`. */
  lemma FormatWidthNat(n: nat, width: int)
    ensures FormatWidth(n, width) == Repeat(' ', width - |NatToString(n)|) + NatToString(n)
  {
  }

  /** A digit string no wider than the field is padded with zeros in front. */
  lemma ZFillDigits(s: string, width: int)
    requires AllDigits(s) && |s| <= width
    ensures ZFill(s, width) == Repeat('0', width - |s|) + s
  {
    if s != [] {
      assert IsDigit(s[0]);
    }
  }

  /** `"{0:Nd}".format(n)`: numbers are right-aligned and padded with spaces. */
  function FormatWidth(n: int, width: int): (r: string)
    ensures |r| == if |IntToString(n)| >= width then |IntToString(n)| else width
    ensures r[|r| - |IntToString(n)|..] == IntToString(n)
    ensures forall i :: 0 <= i < |r| - |IntToString(n)| ==> r[i] == ' '
  {
    Repeat(' ', width - |IntToString(n)|) + IntToString(n)
  }
}
