/**
 * Values shared by every part of the model: bytes, the Option and Result
 * wrappers used for the source's exceptions, sequence helpers, and Python's
 * integer formatting and parsing as far as the core relies on them.
 */
module Common {

  /** One octet, as in a Python `bytes` object. */
  type Byte = b: int | 0 <= b < 256

  type Bytes = seq<Byte>

  datatype Option<T> = None | Some(value: T)

  datatype Result<T, E> = Ok(value: T) | Err(error: E)

  // ---------------------------------------------------------------------
  // Sequences

  predicate StartsWith<T(==)>(s: seq<T>, prefix: seq<T>)
  {
    |prefix| <= |s| && s[..|prefix|] == prefix
  }

  predicate EndsWith<T(==)>(s: seq<T>, suffix: seq<T>)
  {
    |suffix| <= |s| && s[|s| - |suffix|..] == suffix
  }

  /** The concatenation of a sequence of sequences, in order. */
  function Flatten<T>(parts: seq<seq<T>>): seq<T>
  {
    if parts == [] then [] else Flatten(parts[..|parts| - 1]) + parts[|parts| - 1]
  }

  lemma FlattenAppend<T>(parts: seq<seq<T>>, more: seq<seq<T>>)
    ensures Flatten(parts + more) == Flatten(parts) + Flatten(more)
    decreases |more|
  {
    if more == [] {
      assert parts + more == parts;
    } else {
      var last := more[|more| - 1];
      assert parts + more == (parts + more[..|more| - 1]) + [last];
      FlattenAppend(parts, more[..|more| - 1]);
    }
  }

  lemma FlattenCons<T>(first: seq<T>, rest: seq<seq<T>>)
    ensures Flatten([first] + rest) == first + Flatten(rest)
  {
    FlattenAppend([first], rest);
    assert Flatten([first]) == Flatten([]) + first;
  }

  /** Concatenation is associative. */
  lemma AppendAssoc<T>(a: seq<T>, b: seq<T>, c: seq<T>)
    ensures (a + b) + c == a + (b + c)
  {
  }

  /** Number of occurrences of `x` in `s`. */
  function CountOf<T(==)>(s: seq<T>, x: T): nat
  {
    if s == [] then 0 else CountOf(s[..|s| - 1], x) + (if s[|s| - 1] == x then 1 else 0)
  }

  lemma CountOfAppend<T>(s: seq<T>, t: seq<T>, x: T)
    ensures CountOf(s + t, x) == CountOf(s, x) + CountOf(t, x)
    decreases |t|
  {
    if t == [] {
      assert s + t == s;
    } else {
      assert s + t == (s + t[..|t| - 1]) + [t[|t| - 1]];
      assert (s + t)[..|s + t| - 1] == s + t[..|t| - 1];
      CountOfAppend(s, t[..|t| - 1], x);
    }
  }

  /** An element that occurs is counted at least once. */
  lemma {:induction false} CountOfMember<T>(s: seq<T>, x: T)
    requires x in s
    ensures CountOf(s, x) >= 1
  {
    if s[|s| - 1] != x {
      assert x in s[..|s| - 1] by {
        var i :| 0 <= i < |s| && s[i] == x;
        assert s[..|s| - 1][i] == x;
      }
      CountOfMember(s[..|s| - 1], x);
    }
  }

  function Min(a: int, b: int): int { if a <= b then a else b }

  // ---------------------------------------------------------------------
  // Characters and ASCII

  predicate IsAscii(s: string) { forall i :: 0 <= i < |s| ==> s[i] as int < 128 }

  predicate AllAscii(b: Bytes) { forall i :: 0 <= i < |b| ==> b[i] < 128 }

  /** Python's `bytes.decode("ascii")`: fails on any byte of 0x80 or above. */
  function DecodeAscii(b: Bytes): (r: Option<string>)
    ensures r.Some? <==> AllAscii(b)
    ensures r.Some? ==> |r.value| == |b| && forall i :: 0 <= i < |b| ==> r.value[i] as int == b[i]
  {
    if b == [] then Some([])
    else if b[0] >= 128 then None
    else
      var rest := DecodeAscii(b[1..]);
      if rest.None? then None else Some([b[0] as char] + rest.value)
  }

  /** Python's `str.encode("ascii")`: fails on any character above 0x7f. */
  function EncodeAscii(s: string): (r: Option<Bytes>)
    ensures r.Some? <==> IsAscii(s)
    ensures r.Some? ==> |r.value| == |s| && forall i :: 0 <= i < |s| ==> r.value[i] == s[i] as int
  {
    if s == [] then Some([])
    else if s[0] as int >= 128 then None
    else
      var rest := EncodeAscii(s[1..]);
      if rest.None? then None else Some([s[0] as int as Byte] + rest.value)
  }

  lemma {:induction false} AsciiRoundTrip(s: string)
    requires IsAscii(s)
    ensures EncodeAscii(s).Some? && DecodeAscii(EncodeAscii(s).value) == Some(s)
  {
    var b := EncodeAscii(s).value;
    var d := DecodeAscii(b);
    assert d.Some?;
    assert |d.value| == |s|;
    forall i | 0 <= i < |s| ensures d.value[i] == s[i] {
      assert d.value[i] as int == b[i] == s[i] as int;
    }
    assert d.value == s;
  }

  /** The bytes of an ASCII string literal (every character below 0x80). */
  function AsciiBytes(s: string): (r: Bytes)
    requires IsAscii(s)
    ensures |r| == |s| && forall i :: 0 <= i < |s| ==> r[i] == s[i] as int
  {
    EncodeAscii(s).value
  }

  // ---------------------------------------------------------------------
  // Decimal and hexadecimal text

  function DigitChar(d: nat): char
    requires d < 10
  {
    ('0' as int + d) as char
  }

  predicate IsDigit(c: char) { '0' <= c <= '9' }

  function DigitValue(c: char): nat
    requires IsDigit(c)
  {
    c as int - '0' as int
  }

  /** `str(n)` for a natural number: its decimal digits, no leading zeros. */
  function Decimal(n: nat): (r: string)
    ensures 1 <= |r|
    ensures forall i :: 0 <= i < |r| ==> IsDigit(r[i])
    decreases n
  {
    if n < 10 then [DigitChar(n)] else Decimal(n / 10) + [DigitChar(n % 10)]
  }

  /** The value of a string of decimal digits (the empty string is 0). */
  function DigitsValue(s: string): nat
    requires forall i :: 0 <= i < |s| ==> IsDigit(s[i])
  {
    if s == [] then 0 else DigitsValue(s[..|s| - 1]) * 10 + DigitValue(s[|s| - 1])
  }

  lemma {:induction false} DecimalValue(n: nat)
    ensures DigitsValue(Decimal(n)) == n
    decreases n
  {
    var d := Decimal(n);
    if n >= 10 {
      DecimalValue(n / 10);
      assert d[..|d| - 1] == Decimal(n / 10);
    }
  }

  lemma {:induction false} LeadingZeroValue(s: string)
    requires forall i :: 0 <= i < |s| ==> IsDigit(s[i])
    ensures DigitsValue(['0'] + s) == DigitsValue(s)
    decreases |s|
  {
    if s != [] {
      var t := ['0'] + s;
      assert t[..|t| - 1] == ['0'] + s[..|s| - 1];
      LeadingZeroValue(s[..|s| - 1]);
    } else {
      assert (['0'] + s)[..0] == [];
    }
  }

  function Repeat<T>(x: T, n: nat): (r: seq<T>)
    ensures |r| == n && forall i :: 0 <= i < n ==> r[i] == x
  {
    if n == 0 then [] else [x] + Repeat(x, n - 1)
  }

  /** Left-pads `s` with `c` to at least `width` characters (`str.rjust`). */
  function PadLeft(s: string, width: nat, c: char): (r: string)
    ensures |r| == if |s| >= width then |s| else width
    ensures EndsWith(r, s)
  {
    if |s| >= width then s else Repeat(c, width - |s|) + s
  }

  lemma {:induction false} ZeroPaddingValue(s: string, n: nat)
    requires forall i :: 0 <= i < |s| ==> IsDigit(s[i])
    ensures forall i :: 0 <= i < |Repeat('0', n) + s| ==> IsDigit((Repeat('0', n) + s)[i])
    ensures DigitsValue(Repeat('0', n) + s) == DigitsValue(s)
    decreases n
  {
    if n > 0 {
      ZeroPaddingValue(s, n - 1);
      assert Repeat('0', n) + s == ['0'] + (Repeat('0', n - 1) + s);
      LeadingZeroValue(Repeat('0', n - 1) + s);
    } else {
      assert Repeat('0', n) + s == s;
    }
  }

  /** Python's `f"{v:0{width}d}"`: the sign counts towards the width. */
  function FormatZeroPadded(v: int, width: nat): (r: string)
    ensures v >= 0 ==> |r| >= width && forall i :: 0 <= i < |r| ==> IsDigit(r[i])
    ensures v < 0 ==> |r| >= 2 && |r| >= width && r[0] == '-' && forall i :: 1 <= i < |r| ==> IsDigit(r[i])
  {
    if v >= 0 then PadLeft(Decimal(v), width, '0')
    else "-" + PadLeft(Decimal(-v), if width >= 1 then width - 1 else 0, '0')
  }

  function HexDigitLower(d: nat): char
    requires d < 16
  {
    if d < 10 then DigitChar(d) else ('a' as int + d - 10) as char
  }

  function HexDigitUpper(d: nat): char
    requires d < 16
  {
    if d < 10 then DigitChar(d) else ('A' as int + d - 10) as char
  }

  /** `"%x" % n`: lower-case hexadecimal, no leading zeros. */
  function HexLower(n: nat): (r: string)
    ensures 1 <= |r|
    ensures forall i :: 0 <= i < |r| ==> IsDigit(r[i]) || 'a' <= r[i] <= 'f'
    decreases n
  {
    if n < 16 then [HexDigitLower(n)] else HexLower(n / 16) + [HexDigitLower(n % 16)]
  }

  /** `"%X" % n`: upper-case hexadecimal, no leading zeros. */
  function HexUpper(n: nat): (r: string)
    ensures 1 <= |r|
    ensures forall i :: 0 <= i < |r| ==> IsDigit(r[i]) || 'A' <= r[i] <= 'F'
    decreases n
  {
    if n < 16 then [HexDigitUpper(n)] else HexUpper(n / 16) + [HexDigitUpper(n % 16)]
  }

  function Pow16(k: nat): nat
  {
    if k == 0 then 1 else 16 * Pow16(k - 1)
  }

  /** A number below 16^k takes at most k hexadecimal digits. */
  lemma {:induction false} HexUpperLength(n: nat, k: nat)
    requires 1 <= k && n < Pow16(k)
    ensures |HexUpper(n)| <= k
  {
    if n >= 16 {
      assert k > 1;
      assert n / 16 < Pow16(k - 1);
      HexUpperLength(n / 16, k - 1);
    }
  }

  // ---------------------------------------------------------------------
  // Python's int(str)

  /** The characters `int()` ignores around a number (ASCII whitespace). */
  predicate IsPySpace(c: char)
  {
    c == ' ' || ('\t' <= c <= '\r') || (28 <= c as int <= 31)
  }

  function StripLeading(s: string): (r: string)
    ensures |r| <= |s| && EndsWith(s, r)
    ensures r == [] || !IsPySpace(r[0])
  {
    if s != [] && IsPySpace(s[0]) then StripLeading(s[1..]) else s
  }

  function StripTrailing(s: string): (r: string)
    ensures |r| <= |s| && StartsWith(s, r)
    ensures r == [] || !IsPySpace(r[|r| - 1])
  {
    if s != [] && IsPySpace(s[|s| - 1]) then StripTrailing(s[..|s| - 1]) else s
  }

  /**
   * A digit string in Python's integer-literal sense: digits, with single
   * underscores allowed between two digits.
   */
  predicate IsDigitGroup(s: string)
  {
    && s != []
    && IsDigit(s[0]) && IsDigit(s[|s| - 1])
    && (forall i :: 0 <= i < |s| ==> IsDigit(s[i]) || s[i] == '_')
    && (forall i :: 0 <= i < |s| - 1 ==> s[i] == '_' ==> s[i + 1] != '_')
  }

  /** The digits of a digit group with its underscores removed. */
  function DropUnderscores(s: string): (r: string)
    requires forall i :: 0 <= i < |s| ==> IsDigit(s[i]) || s[i] == '_'
    ensures forall i :: 0 <= i < |r| ==> IsDigit(r[i])
  {
    if s == [] then []
    else DropUnderscores(s[..|s| - 1]) + (if s[|s| - 1] == '_' then [] else [s[|s| - 1]])
  }

  lemma {:induction false} DropUnderscoresOfDigits(s: string)
    requires forall i :: 0 <= i < |s| ==> IsDigit(s[i])
    ensures DropUnderscores(s) == s
  {
    if s != [] {
      DropUnderscoresOfDigits(s[..|s| - 1]);
    }
  }

  /**
   * Python's `int(s)` in base 10 on ASCII text: surrounding whitespace, an
   * optional sign, then a digit group. `None` stands for the ValueError.
   */
  function ParseInt(s: string): (r: Option<int>)
  {
    var t := StripTrailing(StripLeading(s));
    if t == [] then None
    else
      var neg := t[0] == '-';
      var body := if t[0] == '-' || t[0] == '+' then t[1..] else t;
      if !IsDigitGroup(body) then None
      else
        var v: int := DigitsValue(DropUnderscores(body));
        Some(if neg then -v else v)
  }

  lemma {:induction false} StripDigitsUnchanged(s: string)
    requires s != [] && forall i :: 0 <= i < |s| ==> IsDigit(s[i]) || s[i] == '-'
    ensures StripTrailing(StripLeading(s)) == s
  {
    assert !IsPySpace(s[0]);
    assert !IsPySpace(s[|s| - 1]);
  }

  /** A zero-padded run of digits reads back as the number it pads. */
  lemma {:induction false} PaddedDigitsValue(n: nat, w: nat)
    ensures IsDigitGroup(PadLeft(Decimal(n), w, '0'))
    ensures forall i :: 0 <= i < |PadLeft(Decimal(n), w, '0')| ==> IsDigit(PadLeft(Decimal(n), w, '0')[i])
    ensures DigitsValue(DropUnderscores(PadLeft(Decimal(n), w, '0'))) == n
  {
    var d := Decimal(n);
    var k: nat := if |d| >= w then 0 else w - |d|;
    var digits := PadLeft(d, w, '0');
    assert digits == Repeat('0', k) + d;
    ZeroPaddingValue(d, k);
    DropUnderscoresOfDigits(digits);
    DecimalValue(n);
  }

  lemma {:induction false} ParseUnsigned(body: string)
    requires IsDigitGroup(body) && forall i :: 0 <= i < |body| ==> IsDigit(body[i])
    ensures ParseInt(body) == Some(DigitsValue(DropUnderscores(body)))
  {
    StripDigitsUnchanged(body);
  }

  lemma {:induction false} ParseNegative(body: string, n: nat)
    requires IsDigitGroup(body) && forall i :: 0 <= i < |body| ==> IsDigit(body[i])
    requires DigitsValue(DropUnderscores(body)) == n
    ensures ParseInt("-" + body) == Some(-(n as int))
  {
    var t := "-" + body;
    StripDigitsUnchanged(t);
    assert t[0] == '-';
    assert t[1..] == body;
  }

  lemma {:induction false} ParseFormattedNegative(v: int, width: nat)
    requires v < 0
    ensures ParseInt(FormatZeroPadded(v, width)) == Some(v)
  {
    var f := FormatZeroPadded(v, width);
    var w: nat := if width >= 1 then width - 1 else 0;
    var n: nat := -v;
    var digits := PadLeft(Decimal(n), w, '0');
    assert f == "-" + digits;
    PaddedDigitsValue(n, w);
    ParseNegative(digits, n);
    assert ParseInt(f) == Some(-(n as int));
  }

  lemma {:induction false} ParseFormattedNonNegative(v: int, width: nat)
    requires v >= 0
    ensures ParseInt(FormatZeroPadded(v, width)) == Some(v)
  {
    var digits := PadLeft(Decimal(v), width, '0');
    assert FormatZeroPadded(v, width) == digits;
    PaddedDigitsValue(v, width);
    ParseUnsigned(digits);
  }

  /** Every value `FormatZeroPadded` writes reads back with `ParseInt`. */
  lemma {:induction false} ParseFormatted(v: int, width: nat)
    ensures ParseInt(FormatZeroPadded(v, width)) == Some(v)
  {
    if v >= 0 {
      ParseFormattedNonNegative(v, width);
    } else {
      ParseFormattedNegative(v, width);
    }
  }

  /** `str(n)` reads back with `ParseInt`. */
  lemma {:induction false} ParseDecimal(n: nat)
    ensures ParseInt(Decimal(n)) == Some(n)
  {
    ParseFormattedNonNegative(n, 0);
    assert FormatZeroPadded(n, 0) == Decimal(n);
  }
}
