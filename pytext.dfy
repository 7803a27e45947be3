/**
 * The pieces of Python's `str` and `bytes` behaviour the core depends on:
 * `repr()` of a bytes object, `binascii.hexlify`/`unhexlify`,
 * `str.splitlines`, `str.partition` and `str.rpartition`.
 */
module PyText {
  import opened Common

  const BACKSLASH: Byte := 92
  const SINGLE_QUOTE: Byte := 39
  const DOUBLE_QUOTE: Byte := 34

  // ---------------------------------------------------------------------
  // repr(bytes)

  /**
   * The quote `repr` puts around a bytes object: a double quote when the
   * data holds a single quote and no double quote, otherwise a single quote.
   */
  function QuoteFor(b: Bytes): Byte
  {
    if SINGLE_QUOTE in b && DOUBLE_QUOTE !in b then DOUBLE_QUOTE else SINGLE_QUOTE
  }

  /** How `repr` spells one byte inside a literal quoted with `q`. */
  function EscapeByte(x: Byte, q: Byte): (r: string)
    ensures 1 <= |r| <= 4
  {
    if x == q || x == BACKSLASH then ['\\', x as char]
    else if x == 9 then "\\t"
    else if x == 10 then "\\n"
    else if x == 13 then "\\r"
    else if x < 32 || x >= 127 then ['\\', 'x', HexDigitLower(x / 16), HexDigitLower(x % 16)]
    else [x as char]
  }

  function EscapeAll(b: Bytes, q: Byte): string
  {
    if b == [] then [] else EscapeByte(b[0], q) + EscapeAll(b[1..], q)
  }

  /** `repr(b)` for a bytes object `b`. */
  function BytesRepr(b: Bytes): string
  {
    var q := QuoteFor(b);
    "b" + [q as char] + EscapeAll(b, q) + [q as char]
  }

  lemma BytesReprLength(b: Bytes)
    ensures |BytesRepr(b)| == 3 + |EscapeAll(b, QuoteFor(b))|
  {
  }

  // ---------------------------------------------------------------------
  // Reading a bytes literal back

  predicate IsHexDigit(c: char)
  {
    ('0' <= c <= '9') || ('a' <= c <= 'f') || ('A' <= c <= 'F')
  }

  function HexValue(c: char): (r: nat)
    requires IsHexDigit(c)
    ensures r < 16
  {
    if '0' <= c <= '9' then c as int - '0' as int
    else if 'a' <= c <= 'f' then c as int - 'a' as int + 10
    else c as int - 'A' as int + 10
  }

  lemma HexDigitLowerValue(d: nat)
    requires d < 16
    ensures IsHexDigit(HexDigitLower(d)) && HexValue(HexDigitLower(d)) == d
  {
  }

  /**
   * The bytes denoted by the body of a Python bytes literal quoted with `q`,
   * for the escapes `repr` produces; `None` where Python would reject the
   * text (or where an escape outside that set appears).
   */
  function Unescape(s: string, q: char): Option<Bytes>
    decreases |s|
  {
    if s == [] then Some([])
    else if s[0] == '\\' then
      if |s| >= 2 && (s[1] == '\\' || s[1] == '\'' || s[1] == '"') then
        Prepend(s[1] as int, Unescape(s[2..], q))
      else if |s| >= 2 && s[1] == 't' then Prepend(9, Unescape(s[2..], q))
      else if |s| >= 2 && s[1] == 'n' then Prepend(10, Unescape(s[2..], q))
      else if |s| >= 2 && s[1] == 'r' then Prepend(13, Unescape(s[2..], q))
      else if |s| >= 4 && s[1] == 'x' && IsHexDigit(s[2]) && IsHexDigit(s[3]) then
        Prepend(HexValue(s[2]) * 16 + HexValue(s[3]), Unescape(s[4..], q))
      else None
    else if s[0] == q || s[0] as int >= 128 then None
    else Prepend(s[0] as int, Unescape(s[1..], q))
  }

  function Prepend(x: Byte, rest: Option<Bytes>): Option<Bytes>
  {
    if rest.None? then None else Some([x] + rest.value)
  }

  /** Evaluates the text of a Python bytes literal `b'...'` or `b"..."`. */
  function ParseBytesLiteral(s: string): Option<Bytes>
  {
    if |s| >= 3 && s[0] == 'b' && (s[1] == '\'' || s[1] == '"') && s[|s| - 1] == s[1] then
      Unescape(s[2..|s| - 1], s[1])
    else None
  }

  lemma {:induction false} UnescapeByte(x: Byte, q: Byte, rest: string)
    requires q == SINGLE_QUOTE || q == DOUBLE_QUOTE
    ensures Unescape(EscapeByte(x, q) + rest, q as char) == Prepend(x, Unescape(rest, q as char))
  {
    var e := EscapeByte(x, q);
    var s := e + rest;
    if x == q || x == BACKSLASH {
      assert s[2..] == rest;
    } else if x == 9 || x == 10 || x == 13 {
      assert s[2..] == rest;
    } else if x < 32 || x >= 127 {
      HexDigitLowerValue(x / 16);
      HexDigitLowerValue(x % 16);
      assert s[4..] == rest;
    } else {
      assert s[1..] == rest;
    }
  }

  lemma {:induction false} UnescapeAll(b: Bytes, q: Byte)
    requires q == SINGLE_QUOTE || q == DOUBLE_QUOTE
    ensures Unescape(EscapeAll(b, q), q as char) == Some(b)
    decreases |b|
  {
    if b != [] {
      UnescapeAll(b[1..], q);
      UnescapeByte(b[0], q, EscapeAll(b[1..], q));
      assert [b[0]] + b[1..] == b;
    }
  }

  /** `eval(repr(b)) == b`: the literal `repr` writes denotes the same bytes. */
  lemma {:induction false} BytesReprRoundTrip(b: Bytes)
    ensures ParseBytesLiteral(BytesRepr(b)) == Some(b)
  {
    var q := QuoteFor(b);
    var r := BytesRepr(b);
    assert r[2..|r| - 1] == EscapeAll(b, q);
    UnescapeAll(b, q);
  }

  // ---------------------------------------------------------------------
  // hexlify / unhexlify

  /** The byte of the lower-case hex digit for `d`. */
  function HexByte(d: nat): (r: Byte)
    requires d < 16
    ensures r as char == HexDigitLower(d)
  {
    HexDigitLower(d) as int
  }

  /** `binascii.hexlify(b)`: two lower-case hex digits per byte. */
  function Hexlify(b: Bytes): (r: Bytes)
    ensures |r| == 2 * |b|
  {
    if b == [] then [] else [HexByte(b[0] / 16), HexByte(b[0] % 16)] + Hexlify(b[1..])
  }

  /** `binascii.unhexlify(h)`; `None` for odd length or a non-hex digit. */
  function Unhexlify(h: Bytes): Option<Bytes>
    decreases |h|
  {
    if h == [] then Some([])
    else if |h| < 2 || !IsHexDigit(h[0] as char) || !IsHexDigit(h[1] as char) then None
    else Prepend(HexValue(h[0] as char) * 16 + HexValue(h[1] as char), Unhexlify(h[2..]))
  }

  lemma {:induction false} UnhexlifyHexlify(b: Bytes)
    ensures Unhexlify(Hexlify(b)) == Some(b)
    decreases |b|
  {
    if b != [] {
      var h := Hexlify(b);
      HexDigitLowerValue(b[0] / 16);
      HexDigitLowerValue(b[0] % 16);
      assert h[2..] == Hexlify(b[1..]);
      UnhexlifyHexlify(b[1..]);
      assert [b[0]] + b[1..] == b;
    }
  }

  /** The ASCII code of a lower-case hex digit. */
  predicate IsHexByte(x: Byte)
  {
    48 <= x <= 57 || 97 <= x <= 102
  }

  /** Hex digits are printable and never a quote or a backslash. */
  lemma {:induction false} HexlifyPlain(b: Bytes)
    ensures forall i :: 0 <= i < |Hexlify(b)| ==> IsHexByte(Hexlify(b)[i])
    ensures SINGLE_QUOTE !in Hexlify(b)
    decreases |b|
  {
    if b != [] {
      HexlifyPlain(b[1..]);
      var h := Hexlify(b);
      assert h == [HexByte(b[0] / 16), HexByte(b[0] % 16)] + Hexlify(b[1..]);
      forall i | 0 <= i < |h| ensures IsHexByte(h[i]) {
        if i >= 2 {
          assert h[i] == Hexlify(b[1..])[i - 2];
        }
      }
    }
  }

  lemma {:induction false} EscapePlainLength(h: Bytes, q: Byte)
    requires q == SINGLE_QUOTE
    requires forall i :: 0 <= i < |h| ==> IsHexByte(h[i])
    ensures |EscapeAll(h, q)| == |h|
    decreases |h|
  {
    if h != [] {
      EscapePlainLength(h[1..], q);
      assert |EscapeByte(h[0], q)| == 1;
    }
  }

  /** `repr(hexlify(b))` is `b'` + the hex digits + `'`: 3 + 2|b| characters. */
  lemma HexReprLength(b: Bytes)
    ensures |BytesRepr(Hexlify(b))| == 3 + 2 * |b|
  {
    var h := Hexlify(b);
    HexlifyPlain(b);
    assert QuoteFor(h) == SINGLE_QUOTE;
    EscapePlainLength(h, SINGLE_QUOTE);
  }

  // ---------------------------------------------------------------------
  // str.splitlines, str.partition, str.rpartition

  /** The characters `str.splitlines` treats as ending a line. */
  predicate IsLineBoundary(c: char)
  {
    c == '\n' || c == '\r' || c as int == 0x0b || c as int == 0x0c
    || c as int == 0x1c || c as int == 0x1d || c as int == 0x1e
    || c as int == 0x85 || c as int == 0x2028 || c as int == 0x2029
  }

  /** A line holds no line boundary. */
  predicate NoBoundary(line: string)
  {
    forall j :: 0 <= j < |line| ==> !IsLineBoundary(line[j])
  }

  /** Index of the first line boundary in `s`, or `|s|` when there is none. */
  function FirstBoundary(s: string): (i: nat)
    ensures i <= |s|
    ensures i < |s| ==> IsLineBoundary(s[i])
    ensures NoBoundary(s[..i])
  {
    if s == [] then 0
    else if IsLineBoundary(s[0]) then 0
    else
      var j := FirstBoundary(s[1..]);
      assert s[..1 + j] == [s[0]] + s[1..][..j];
      1 + j
  }

  /** `s.splitlines()`: the lines of `s`, a `\r\n` pair ending a single line. */
  function SplitLines(s: string): seq<string>
    decreases |s|
  {
    if s == [] then []
    else
      var i := FirstBoundary(s);
      if i == |s| then [s]
      else
        var width := if s[i] == '\r' && i + 1 < |s| && s[i + 1] == '\n' then 2 else 1;
        [s[..i]] + SplitLines(s[i + width..])
  }

  /** `splitlines` yields no line for the empty string, at least one otherwise, and no line holds a boundary. */
  lemma {:induction false} SplitLinesShape(s: string)
    ensures s != [] <==> SplitLines(s) != []
    ensures forall k :: 0 <= k < |SplitLines(s)| ==> NoBoundary(SplitLines(s)[k])
    decreases |s|
  {
    if s != [] {
      var i := FirstBoundary(s);
      if i < |s| {
        var width := if s[i] == '\r' && i + 1 < |s| && s[i + 1] == '\n' then 2 else 1;
        var rest := SplitLines(s[i + width..]);
        SplitLinesShape(s[i + width..]);
        var lines := [s[..i]] + rest;
        assert SplitLines(s) == lines;
        forall k | 0 <= k < |lines|
          ensures NoBoundary(lines[k])
        {
          if k > 0 {
            assert lines[k] == rest[k - 1];
          }
        }
      } else {
        assert s[..i] == s;
        assert SplitLines(s) == [s];
      }
    }
  }

  /** `sep` occurs in `s` starting at index `k`. */
  predicate OccursAt(s: string, sep: string, k: nat)
  {
    k + |sep| <= |s| && s[k..k + |sep|] == sep
  }

  /** The first occurrence of `sep` in `s` at or after index `i`. */
  function FindFrom(s: string, sep: string, i: nat): (r: Option<nat>)
    ensures r.Some? ==> i <= r.value && OccursAt(s, sep, r.value)
    ensures r.Some? ==> forall k :: i <= k < r.value ==> !OccursAt(s, sep, k)
    ensures r.None? ==> forall k :: i <= k ==> !OccursAt(s, sep, k)
    decreases |s| + 1 - i
  {
    if i + |sep| > |s| then None
    else if OccursAt(s, sep, i) then Some(i)
    else FindFrom(s, sep, i + 1)
  }

  /** The last occurrence of `sep` in `s` at or before index `i`. */
  function RFindFrom(s: string, sep: string, i: nat): (r: Option<nat>)
    ensures r.Some? ==> r.value <= i && OccursAt(s, sep, r.value)
    ensures r.Some? ==> forall k :: r.value < k <= i ==> !OccursAt(s, sep, k)
    ensures r.None? ==> forall k :: 0 <= k <= i ==> !OccursAt(s, sep, k)
    decreases i
  {
    if OccursAt(s, sep, i) then Some(i)
    else if i == 0 then None
    else RFindFrom(s, sep, i - 1)
  }

  /** `s.find(sep)`: the first occurrence of `sep`, if any. */
  function Find(s: string, sep: string): (r: Option<nat>)
    ensures r.Some? ==> OccursAt(s, sep, r.value)
    ensures r.Some? ==> forall k :: 0 <= k < r.value ==> !OccursAt(s, sep, k)
    ensures r.None? ==> forall k :: 0 <= k ==> !OccursAt(s, sep, k)
  {
    FindFrom(s, sep, 0)
  }

  /** `s.rfind(sep)`: the last occurrence of `sep`, if any. */
  function RFind(s: string, sep: string): (r: Option<nat>)
    ensures r.Some? ==> OccursAt(s, sep, r.value)
    ensures r.Some? ==> forall k :: r.value < k ==> !OccursAt(s, sep, k)
    ensures r.None? ==> forall k :: 0 <= k ==> !OccursAt(s, sep, k)
  {
    RFindFrom(s, sep, |s|)
  }

  /** `s.partition(sep)`: text before the first `sep`, the separator, the rest. */
  function Partition(s: string, sep: string): (r: (string, string, string))
    ensures r.0 + r.1 + r.2 == s
    ensures r.1 == sep || (r.1 == [] && r.2 == [])
  {
    match Find(s, sep)
    case Some(i) => (s[..i], sep, s[i + |sep|..])
    case None => (s, [], [])
  }

  /** `s.rpartition(sep)`: text before the last `sep`, the separator, the rest. */
  function RPartition(s: string, sep: string): (r: (string, string, string))
    ensures r.0 + r.1 + r.2 == s
    ensures r.1 == sep || (r.1 == [] && r.0 == [])
  {
    match RFind(s, sep)
    case Some(i) => (s[..i], sep, s[i + |sep|..])
    case None => ([], [], s)
  }

  /** `s.rstrip("/")`: the longest prefix of `s` not ending in a slash. */
  function RStripSlashes(s: string): (r: string)
    ensures r <= s
    ensures r == [] || r[|r| - 1] != '/'
    ensures forall i :: |r| <= i < |s| ==> s[i] == '/'
  {
    if s != [] && s[|s| - 1] == '/' then RStripSlashes(s[..|s| - 1]) else s
  }

  // ---------------------------------------------------------------------
  // str.split with an explicit one-character separator

  /** `s.split(sep)`: the pieces between separators, empty ones included. */
  function Split(s: string, sep: char): (r: seq<string>)
    ensures |r| == CountOf(s, sep) + 1
  {
    if s == [] then [[]]
    else
      var init := Split(s[..|s| - 1], sep);
      var c := s[|s| - 1];
      if c == sep then init + [[]] else init[..|init| - 1] + [init[|init| - 1] + [c]]
  }

  /** The pieces joined back with the separator. */
  function Join(parts: seq<string>, sep: char): string
  {
    if parts == [] then []
    else if |parts| == 1 then parts[0]
    else Join(parts[..|parts| - 1], sep) + [sep] + parts[|parts| - 1]
  }

  /** One more character either starts a new piece or extends the last one. */
  lemma SplitSnoc(s: string, c: char, sep: char)
    ensures var init := Split(s, sep);
            Split(s + [c], sep) == if c == sep then init + [[]] else init[..|init| - 1] + [init[|init| - 1] + [c]]
  {
    assert (s + [c])[..|s + [c]| - 1] == s;
  }

  /** Joining one more piece appends the separator and the piece. */
  lemma JoinSnoc(parts: seq<string>, x: string, sep: char)
    requires parts != []
    ensures Join(parts + [x], sep) == Join(parts, sep) + [sep] + x
  {
    assert (parts + [x])[..|parts|] == parts;
  }

  /** Splitting loses nothing: joining the pieces restores the string. */
  lemma {:induction false} JoinSplit(s: string, sep: char)
    ensures Join(Split(s, sep), sep) == s
    ensures forall i :: 0 <= i < |Split(s, sep)| ==> sep !in Split(s, sep)[i]
    decreases |s|
  {
    SplitPieces(s, sep);
    if s != [] {
      var init := s[..|s| - 1];
      var c := s[|s| - 1];
      var parts := Split(init, sep);
      JoinSplit(init, sep);
      assert s == init + [c];
      SplitSnoc(init, c, sep);
      if c == sep {
        JoinSnoc(parts, [], sep);
      } else if |parts| > 1 {
        var front := parts[..|parts| - 1];
        var last := parts[|parts| - 1];
        assert parts == front + [last];
        JoinSnoc(front, last, sep);
        JoinSnoc(front, last + [c], sep);
      }
    }
  }

  /** No piece of a split holds the separator. */
  lemma {:induction false} SplitPieces(s: string, sep: char)
    ensures forall i :: 0 <= i < |Split(s, sep)| ==> sep !in Split(s, sep)[i]
    decreases |s|
  {
    if s != [] {
      var init := s[..|s| - 1];
      var c := s[|s| - 1];
      var parts := Split(init, sep);
      SplitPieces(init, sep);
      assert s == init + [c];
      SplitSnoc(init, c, sep);
      var r := Split(s, sep);
      forall i | 0 <= i < |r|
        ensures sep !in r[i]
      {
        if i < |parts| - 1 || (c == sep && i < |parts|) {
          assert r[i] == parts[i];
        }
      }
    }
  }

  /** A string without the separator is a single piece. */
  lemma {:induction false} SplitWithout(s: string, sep: char)
    requires sep !in s
    ensures Split(s, sep) == [s]
    decreases |s|
  {
    if s != [] {
      SplitWithout(s[..|s| - 1], sep);
      assert s[..|s| - 1] + [s[|s| - 1]] == s;
    }
  }

  /** Text without the separator after the last one extends the last piece. */
  lemma {:induction false} SplitExtend(s: string, t: string, sep: char)
    requires sep !in t
    ensures Split(s + t, sep) == Split(s, sep)[..|Split(s, sep)| - 1] + [Split(s, sep)[|Split(s, sep)| - 1] + t]
    decreases |t|
  {
    var parts := Split(s, sep);
    var front := parts[..|parts| - 1];
    var last := parts[|parts| - 1];
    if t == [] {
      assert s + t == s;
      assert last + t == last;
      assert front + [last] == parts;
    } else {
      var init := t[..|t| - 1];
      var c := t[|t| - 1];
      SplitExtend(s, init, sep);
      assert t == init + [c];
      AppendAssoc(s, init, [c]);
      AppendAssoc(last, init, [c]);
      SplitSnoc(s + init, c, sep);
      var mid := Split(s + init, sep);
      assert mid == front + [last + init];
      assert mid[..|mid| - 1] == front;
    }
  }

  /** Two separator-free pieces around one separator split back into those two. */
  lemma SplitOnce(a: string, b: string, sep: char)
    requires sep !in a && sep !in b
    ensures Split(a + [sep] + b, sep) == [a, b]
  {
    SplitWithout(a, sep);
    assert (a + [sep])[..|a|] == a;
    var parts := Split(a + [sep], sep);
    assert parts == [a, []];
    SplitExtend(a + [sep], b, sep);
    assert parts[..1] == [a] && parts[1] + b == b;
  }

  /** Splitting around one separator splits each side on its own. */
  lemma {:induction false} SplitAround(a: string, b: string, sep: char)
    ensures Split(a + [sep] + b, sep) == Split(a, sep) + Split(b, sep)
    decreases |b|
  {
    if b == [] {
      assert a + [sep] + b == a + [sep];
      SplitSnoc(a, sep, sep);
    } else {
      var init := b[..|b| - 1];
      var c := b[|b| - 1];
      SplitAround(a, init, sep);
      assert a + [sep] + b == (a + [sep] + init) + [c];
      assert b == init + [c];
      SplitSnoc(a + [sep] + init, c, sep);
      SplitSnoc(init, c, sep);
      AppendSplitStep(Split(a, sep), Split(init, sep), c, sep);
    }
  }

  /** The step of `Split` on a last character, applied after some leading pieces. */
  lemma AppendSplitStep(left: seq<string>, right: seq<string>, c: char, sep: char)
    requires right != []
    ensures var both := left + right;
            (if c == sep then both + [[]] else both[..|both| - 1] + [both[|both| - 1] + [c]])
            == left + (if c == sep then right + [[]] else right[..|right| - 1] + [right[|right| - 1] + [c]])
  {
    var both := left + right;
    assert both[|both| - 1] == right[|right| - 1];
    assert both[..|both| - 1] == left + right[..|right| - 1];
  }

  /** Pieces without the separator, joined and split again, come back unchanged. */
  lemma {:induction false} SplitJoin(parts: seq<string>, sep: char)
    requires parts != []
    requires forall i :: 0 <= i < |parts| ==> sep !in parts[i]
    ensures Split(Join(parts, sep), sep) == parts
    decreases |parts|
  {
    var last := parts[|parts| - 1];
    SplitWithout(last, sep);
    if |parts| > 1 {
      var init := parts[..|parts| - 1];
      SplitJoin(init, sep);
      SplitAround(Join(init, sep), last, sep);
      assert init + [last] == parts;
    }
  }
}
