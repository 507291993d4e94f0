// Shared vocabulary for the wire codecs: bytes, C integer conversions,
// decimal formatting in the style of printf's %d and %0Nd, and the strtol
// parser that reads such fields back.

module Bytes {

  datatype Option<T> = None | Some(value: T)

  /** An `unsigned char`. */
  type Byte = x: int | 0 <= x < 256

  /** An `unsigned short`. */
  type UShort = x: int | 0 <= x < 0x1_0000

  /** The conversion of an integer to `unsigned short` (gushort). */
  function ToUShort(v: int): (r: UShort)
    ensures 0 <= v < 0x1_0000 ==> r == v
  {
    v % 0x1_0000
  }

  /** Conversion of an int to a 16-bit two's-complement `short`. */
  function ToInt16(v: int): (r: int)
    ensures -0x8000 <= r < 0x8000
    ensures (r - v) % 0x1_0000 == 0
  {
    var m := v % 0x1_0000;
    if m >= 0x8000 then m - 0x1_0000 else m
  }

  /** Conversion of an int to a 32-bit two's-complement `int`/`long`. */
  function ToInt32(v: int): (r: int)
    ensures -0x8000_0000 <= r < 0x8000_0000
    ensures (r - v) % 0x1_0000_0000 == 0
    ensures -0x8000_0000 <= v < 0x8000_0000 ==> r == v
  {
    var m := v % 0x1_0000_0000;
    if m >= 0x8000_0000 then m - 0x1_0000_0000 else m
  }

  /** Sum of a sequence of integers. */
  function Sum(s: seq<int>): (n: int)
  {
    if s == [] then 0 else Sum(s[..|s| - 1]) + s[|s| - 1]
  }

  lemma {:induction false} SumAppend(s: seq<int>, x: int)
    ensures Sum(s + [x]) == Sum(s) + x
  {
    assert (s + [x])[..|s|] == s;
  }

  // ---------------------------------------------------------------------
  // Products and quotients of naturals

  lemma {:induction false} MulAtLeast(k: int, w: nat)
    requires k >= 1
    ensures k * w >= w
    decreases k
  {
    if k > 1 {
      MulAtLeast(k - 1, w);
      assert k * w == (k - 1) * w + w;
    }
  }

  /** One row further down is one row width further on. */
  lemma NextRow(r: int, w: nat)
    ensures (r + 1) * w == r * w + w
  {
  }

  /** Within the block of width b that starts at q * b, every position has quotient q. */
  lemma BlockDiv(q: int, b: nat, c: int)
    requires q * b <= c < q * b + b
    ensures c / b == q && c % b == c - q * b
  {
    var d := c / b;
    assert c == d * b + c % b;
    if d > q {
      RowsApart(q, d, b, b - 1);
    } else if d < q {
      RowsApart(d, q, b, b - 1);
    }
  }

  /** Multiplying by the same width keeps the order. */
  lemma MulMono(a: int, b: int, w: nat)
    requires a <= b
    ensures a * w <= b * w
  {
    if a < b {
      MulAtLeast(b - a, w);
      assert b * w == a * w + (b - a) * w;
    }
  }

  /** Dividing by the same positive number keeps the order. */
  lemma DivMono(a: int, b: int, d: nat)
    requires a <= b && d > 0
    ensures a / d <= b / d
  {
    if a / d > b / d {
      RowsApart(b / d, a / d, d, d - 1);
    }
  }

  /** Rows of width w that start at different multiples of w do not meet. */
  lemma RowsApart(a: int, b: int, w: nat, h: nat)
    requires a < b && h < w
    ensures a * w + h < b * w
  {
    MulAtLeast(b - a, w);
    assert b * w == a * w + (b - a) * w;
  }

  lemma DivAtMost(a: nat, b: nat)
    requires b > 0
    ensures a / b <= a
  {
    var q := a / b;
    assert a == b * q + a % b;
    MulAtLeast(b, q);
  }

  // ---------------------------------------------------------------------
  // Decimal digits

  predicate IsDigit(c: char) { '0' <= c <= '9' }

  predicate AllDigits(s: string) { forall i :: 0 <= i < |s| ==> IsDigit(s[i]) }

  function DigitValue(c: char): (d: nat)
    requires IsDigit(c)
    ensures d < 10
  {
    (c as int) - ('0' as int)
  }

  function DigitChar(d: nat): (c: char)
    requires d < 10
    ensures IsDigit(c) && DigitValue(c) == d
  {
    (('0' as int) + d) as char
  }

  /** printf's %d of a non-negative value: no leading zeros, "0" for 0. */
  function NatToDec(n: nat): (s: string)
    ensures 1 <= |s| && AllDigits(s)
    ensures |s| > 1 ==> s[0] != '0'
    decreases n
  {
    if n < 10 then [DigitChar(n)] else NatToDec(n / 10) + [DigitChar(n % 10)]
  }

  function Pow10(k: nat): (p: nat)
    ensures p >= 1
  {
    if k == 0 then 1 else 10 * Pow10(k - 1)
  }

  /** A value below 10^k takes at most k digits. */
  lemma {:induction false} NatToDecLength(n: nat, k: nat)
    requires 1 <= k && n < Pow10(k)
    ensures |NatToDec(n)| <= k
    decreases n
  {
    if n >= 10 && k > 1 {
      NatToDecLength(n / 10, k - 1);
    }
  }

  /** %d of a value of magnitude below 10^k takes at most k + 1 characters. */
  lemma FormatIntLength(v: int, k: nat)
    requires 1 <= k && -(Pow10(k) as int) < v < Pow10(k)
    ensures |FormatInt(v)| <= k + 1
  {
    NatToDecLength(if v < 0 then -v else v, k);
    assert FormatInt(v) == (if v < 0 then "-" else "") + Zeros(0) + NatToDec(if v < 0 then -v else v);
  }

  /** The value of a string of decimal digits. */
  function DecValue(s: string): (n: nat)
    requires AllDigits(s)
  {
    if s == [] then 0 else DecValue(s[..|s| - 1]) * 10 + DigitValue(s[|s| - 1])
  }

  lemma {:induction false} DecValueOfNatToDec(n: nat)
    ensures DecValue(NatToDec(n)) == n
    decreases n
  {
    if n >= 10 {
      DecValueOfNatToDec(n / 10);
      var s := NatToDec(n);
      assert s[..|s| - 1] == NatToDec(n / 10);
    }
  }

  function Zeros(k: nat): (s: string)
    ensures |s| == k && AllDigits(s)
    ensures forall i :: 0 <= i < k ==> s[i] == '0'
  {
    if k == 0 then [] else Zeros(k - 1) + ['0']
  }

  lemma {:induction false} DecValueZerosPrefix(k: nat, s: string)
    requires AllDigits(s)
    ensures AllDigits(Zeros(k) + s) && DecValue(Zeros(k) + s) == DecValue(s)
    decreases |s|
  {
    var t := Zeros(k) + s;
    if s == [] {
      assert t == Zeros(k);
      DecValueZeros(k);
    } else {
      assert t[..|t| - 1] == Zeros(k) + s[..|s| - 1];
      DecValueZerosPrefix(k, s[..|s| - 1]);
    }
  }

  lemma {:induction false} DecValueZeros(k: nat)
    ensures DecValue(Zeros(k)) == 0
  {
    if k > 0 {
      assert Zeros(k)[..k - 1] == Zeros(k - 1);
      DecValueZeros(k - 1);
    }
  }

  /** printf's %0<width>d: the digits of |v|, zero-padded so that the sign and
      the digits fill at least `width` characters. */
  function FormatIntZeroPad(v: int, width: nat): (s: string)
  {
    var digits := NatToDec(if v < 0 then -v else v);
    var sign := if v < 0 then "-" else "";
    var pad := if |sign| + |digits| < width then width - |sign| - |digits| else 0;
    sign + Zeros(pad) + digits
  }

  /** printf's %d. */
  function FormatInt(v: int): (s: string)
    ensures s != [] && (s[0] == '-' <==> v < 0)
  {
    FormatIntZeroPadSplit(v, 0);
    FormatIntZeroPad(v, 0)
  }

  lemma FormatIntZeroPadShape(v: nat, width: nat)
    ensures var s := FormatIntZeroPad(v, width);
      AllDigits(s) && |s| == (if |NatToDec(v)| < width then width else |NatToDec(v)|)
      && DecValue(s) == v
  {
    var digits := NatToDec(v);
    var pad := if |digits| < width then width - |digits| else 0;
    assert FormatIntZeroPad(v, width) == Zeros(pad) + digits;
    DecValueZerosPrefix(pad, digits);
    DecValueOfNatToDec(v);
  }

  /** The %d text of a natural number is its decimal digits. */
  lemma FormatNat(v: nat)
    ensures AllDigits(FormatInt(v)) && DecValue(FormatInt(v)) == v
  {
    FormatIntZeroPadShape(v, 0);
  }

  /** Two texts joined by a dot split back at the dot. */
  lemma Dotted(a: string, b: string)
    ensures var s := a + "." + b;
      |s| > |a| && s[|a|] == '.' && s[..|a|] == a && s[|a| + 1..] == b
  {
    var s := a + "." + b;
    assert s[..|a|] == a;
    assert s[|a| + 1..] == b;
  }

  // ---------------------------------------------------------------------
  // strtol(s, NULL, 10)

  predicate IsCSpace(c: char)
  {
    c == ' ' || c == '\t' || c == '\n' || c == '\r' || c as int == 11 || c as int == 12
  }

  /** The longest prefix of `s` made of decimal digits. */
  function LeadingDigits(s: string): (d: string)
    ensures AllDigits(d) && d <= s
    ensures |d| < |s| ==> !IsDigit(s[|d|])
  {
    if s != [] && IsDigit(s[0]) then [s[0]] + LeadingDigits(s[1..]) else []
  }

  function SkipSpace(s: string): (t: string)
    ensures |t| <= |s| && t == s[|s| - |t|..]
    ensures t != [] ==> !IsCSpace(t[0])
  {
    if s != [] && IsCSpace(s[0]) then SkipSpace(s[1..]) else s
  }

  /** strtol in base 10, ignoring overflow: skips white space, takes an
      optional sign and then as many digits as follow; 0 when there are none. */
  function StrToL(s: string): (n: int)
    ensures n < 0 ==> SkipSpace(s) != [] && SkipSpace(s)[0] == '-'
    ensures SkipSpace(s) == [] ==> n == 0
  {
    var t := SkipSpace(s);
    if t != [] && (t[0] == '-' || t[0] == '+') then
      var m: int := DecValue(LeadingDigits(t[1..]));
      if t[0] == '-' then -m else m
    else
      DecValue(LeadingDigits(t))
  }

  lemma {:induction false} LeadingDigitsOfDigits(d: string, rest: string)
    requires AllDigits(d)
    requires rest == [] || !IsDigit(rest[0])
    ensures LeadingDigits(d + rest) == d
    decreases |d|
  {
    if d != [] {
      assert (d + rest)[1..] == d[1..] + rest;
      LeadingDigitsOfDigits(d[1..], rest);
    }
  }

  /** The unsigned part of %0<width>d: zeros, then the digits. */
  lemma FormatIntZeroPadSplit(v: int, width: nat)
    ensures var a := if v < 0 then -v else v;
      var body := FormatIntZeroPad(v, width)[(if v < 0 then 1 else 0)..];
      AllDigits(body) && DecValue(body) == a
      && (v < 0 ==> FormatIntZeroPad(v, width) == "-" + body)
      && (v >= 0 ==> FormatIntZeroPad(v, width) == body)
  {
    var a := if v < 0 then -v else v;
    var digits := NatToDec(a);
    var sign := if v < 0 then "-" else "";
    var pad := if |sign| + |digits| < width then width - |sign| - |digits| else 0;
    var body := Zeros(pad) + digits;
    assert FormatIntZeroPad(v, width) == sign + body;
    assert FormatIntZeroPad(v, width)[|sign|..] == body;
    DecValueZerosPrefix(pad, digits);
    DecValueOfNatToDec(a);
  }

  lemma StrToLDigits(body: string, rest: string)
    requires AllDigits(body) && body != []
    requires rest == [] || !IsDigit(rest[0])
    ensures StrToL(body + rest) == DecValue(body)
  {
    var s := body + rest;
    assert s[0] == body[0] && IsDigit(s[0]);
    assert !IsCSpace(s[0]);
    assert SkipSpace(s) == s;
    assert s[0] != '-' && s[0] != '+';
    LeadingDigitsOfDigits(body, rest);
  }

  lemma StrToLMinusDigits(body: string, rest: string)
    requires AllDigits(body)
    requires rest == [] || !IsDigit(rest[0])
    ensures StrToL("-" + body + rest) == -(DecValue(body) as int)
  {
    var s := "-" + body + rest;
    assert s[0] == '-';
    assert SkipSpace(s) == s;
    assert s[1..] == body + rest;
    LeadingDigitsOfDigits(body, rest);
  }

  /** Reading back what %0<width>d wrote, followed by a non-digit. */
  lemma StrToLOfFormat(v: int, width: nat, rest: string)
    requires rest == [] || !IsDigit(rest[0])
    ensures StrToL(FormatIntZeroPad(v, width) + rest) == v
  {
    FormatIntZeroPadSplit(v, width);
    var f := FormatIntZeroPad(v, width);
    if v < 0 {
      StrToLMinusDigits(f[1..], rest);
    } else {
      StrToLDigits(f, rest);
    }
  }

  // ---------------------------------------------------------------------
  // C strings

  /** What C's string functions see of a buffer: everything before the first
      terminator (NUL). Generic so that it serves for text and for bytes. */
  function CStr<T(==)>(s: seq<T>, nul: T): (t: seq<T>)
    ensures t <= s && nul !in t
    ensures |t| < |s| ==> s[|t|] == nul
  {
    if s == [] || s[0] == nul then [] else [s[0]] + CStr(s[1..], nul)
  }

  lemma {:induction false} CStrNoNul<T>(s: seq<T>, nul: T)
    requires nul !in s
    ensures CStr(s, nul) == s
  {
    if s != [] { CStrNoNul(s[1..], nul); }
  }

  /** A buffer whose first NUL is at i holds the C string of its first i
      elements. */
  lemma {:induction false} CStrAtNul<T>(s: seq<T>, nul: T, i: nat)
    requires i < |s| && s[i] == nul && nul !in s[..i]
    ensures CStr(s, nul) == s[..i]
  {
    if i > 0 {
      assert s[0] == s[..i][0];
      assert s[1..][..i - 1] == s[1..i];
      assert nul !in s[1..i] by {
        forall j | 0 <= j < i - 1
          ensures s[1..i][j] != nul
        {
          assert s[1..i][j] == s[..i][j + 1];
        }
      }
      CStrAtNul(s[1..], nul, i - 1);
    }
  }

  /** Cutting a buffer at a NUL after s leaves the C string of s. */
  lemma {:induction false} CStrOfPrefix<T>(s: seq<T>, nul: T, t: seq<T>)
    ensures CStr(s + [nul] + t, nul) == CStr(s, nul)
    decreases |s|
  {
    if s != [] {
      assert (s + [nul] + t)[1..] == s[1..] + [nul] + t;
      CStrOfPrefix(s[1..], nul, t);
    }
  }
}
