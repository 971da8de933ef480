/**
 * The JavaScript string and number semantics the catalog code relies on:
 * `String(n)` for integers, `padStart(2, '0')`, `parseInt` without a radix,
 * `split` on a single character, `Array.prototype.slice`, and the truthiness
 * of optional strings used by `a || b`.
 */
module JsText {
  import opened Wrappers

  function Min(a: int, b: int): int { if a <= b then a else b }
  function Max(a: int, b: int): int { if a <= b then b else a }

  // ---------------------------------------------------------------------------
  // Truthiness of optional strings

  /** `undefined`, `null` and the empty string are falsy; every other string is truthy. */
  predicate Truthy(s: Option<string>) {
    s.Some? && |s.value| > 0
  }

  /** `a || b` where `b` is a plain string. */
  function OrString(a: Option<string>, b: string): (r: string)
    ensures Truthy(a) ==> r == a.value
    ensures !Truthy(a) ==> r == b
  {
    if Truthy(a) then a.value else b
  }

  /** `a || b` where both sides may be missing. */
  function OrOption(a: Option<string>, b: Option<string>): (r: Option<string>)
    ensures Truthy(a) ==> r == a
    ensures !Truthy(a) ==> r == b
  {
    if Truthy(a) then a else b
  }

  // ---------------------------------------------------------------------------
  // Integer to decimal text: `String(n)`

  function DigitChar(d: nat): (c: char)
    requires d < 10
    ensures IsDigitIn(c, 10) && DigitValue(c) == d
  {
    ('0' as int + d) as char
  }

  /** Decimal text of a natural number, without leading zeros. */
  function NatToString(n: nat): (s: string)
    ensures 1 <= |s|
    ensures (|s| == 1) == (n < 10)
    decreases n
  {
    if n < 10 then [DigitChar(n)] else NatToString(n / 10) + [DigitChar(n % 10)]
  }

  /** `String(n)` for an integer `n`: a minus sign for negative numbers, then the digits. */
  function IntToString(n: int): (s: string)
    ensures 1 <= |s|
    ensures (|s| == 1) == (0 <= n < 10)
  {
    if n < 0 then "-" + NatToString(-n) else NatToString(n)
  }

  /** `NatToString` writes decimal digits, without a leading zero, whose value is the number. */
  lemma {:induction false} NatToStringIsDecimal(n: nat)
    ensures forall i :: 0 <= i < |NatToString(n)| ==> IsDigitIn(NatToString(n)[i], 10)
    ensures NatToString(n)[0] == '0' ==> n == 0
    ensures DigitsValue(NatToString(n), 10) == n
    decreases n
  {
    var s := NatToString(n);
    if n >= 10 {
      NatToStringIsDecimal(n / 10);
      assert s[..|s| - 1] == NatToString(n / 10);
    }
  }

  /** `String(n)` starts with a minus sign exactly for negative numbers; every other character is a digit. */
  lemma IntToStringChars(n: int)
    ensures (IntToString(n)[0] == '-') == (n < 0)
    ensures forall i :: 0 <= i < |IntToString(n)| ==> IntToString(n)[i] == '-' || IsDigitIn(IntToString(n)[i], 10)
  {
    var s := IntToString(n);
    if n < 0 {
      var u := NatToString(-n);
      NatToStringIsDecimal(-n);
      assert s == "-" + u;
      forall i | 1 <= i < |s|
        ensures IsDigitIn(s[i], 10)
      {
        assert s[i] == u[i - 1];
      }
    } else {
      NatToStringIsDecimal(n);
      assert s == NatToString(n);
      assert IsDigitIn(s[0], 10);
    }
  }

  /** `s.padStart(2, '0')`. */
  function PadStart2(s: string): string {
    if |s| >= 2 then s else seq(2 - |s|, _ => '0') + s
  }

  /** `String(n).padStart(2, '0')`: a single leading zero exactly for 0 to 9. */
  function Pad2(n: int): (s: string)
    ensures 2 <= |s|
  {
    PadStart2(IntToString(n))
  }

  /** `Pad2` prepends a single `0` exactly to the numbers 0 to 9 and leaves every other number as it is. */
  lemma Pad2Shape(n: int)
    ensures Pad2(n) == if 0 <= n < 10 then "0" + IntToString(n) else IntToString(n)
  {
  }

  // ---------------------------------------------------------------------------
  // Text to integer: `parseInt(s)` with no radix argument

  /** The code points `parseInt` skips at the start: WhiteSpace and LineTerminator. */
  predicate IsJsSpace(c: char) {
    var k := c as int;
    k == 9 || k == 10 || k == 11 || k == 12 || k == 13 || k == 32 || k == 160 || k == 5760
    || (8192 <= k <= 8202) || k == 8232 || k == 8233 || k == 8239 || k == 8287 || k == 12288
    || k == 65279
  }

  /** The text after the leading whitespace. */
  function TrimStart(s: string): (r: string)
    ensures |r| <= |s| && r == s[|s| - |r|..]
    ensures r != [] ==> !IsJsSpace(r[0])
    ensures forall i :: 0 <= i < |s| - |r| ==> IsJsSpace(s[i])
  {
    if s != [] && IsJsSpace(s[0]) then TrimStart(s[1..]) else s
  }

  /** The value of `c` as a digit of a radix up to 36, or 36 when it is none. */
  function DigitValue(c: char): (d: nat)
    ensures d <= 36
  {
    if '0' <= c <= '9' then c as int - '0' as int
    else if 'a' <= c <= 'z' then c as int - 'a' as int + 10
    else if 'A' <= c <= 'Z' then c as int - 'A' as int + 10
    else 36
  }

  predicate IsDigitIn(c: char, radix: nat) {
    DigitValue(c) < radix
  }

  /** Length of the longest prefix of `s` made of digits of `radix`. */
  function DigitRun(s: string, radix: nat): (k: nat)
    ensures k <= |s|
    ensures forall i :: 0 <= i < k ==> IsDigitIn(s[i], radix)
    ensures k < |s| ==> !IsDigitIn(s[k], radix)
  {
    if s != [] && IsDigitIn(s[0], radix) then 1 + DigitRun(s[1..], radix) else 0
  }

  /** A product of naturals is a natural. */
  lemma ProductIsNatural(a: nat, b: nat)
    ensures a * b >= 0
  {
  }

  /** Positional value of a string of digits, most significant first. */
  function DigitsValue(s: string, radix: nat): nat
    requires forall i :: 0 <= i < |s| ==> IsDigitIn(s[i], radix)
  {
    if s == [] then 0
    else
      var prefix := s[..|s| - 1];
      assert forall i :: 0 <= i < |prefix| ==> prefix[i] == s[i];
      var high := DigitsValue(prefix, radix);
      ProductIsNatural(high, radix);
      high * radix + DigitValue(s[|s| - 1])
  }

  /**
   * `parseInt(s)`: skip leading whitespace, read an optional sign, read a
   * `0x`/`0X` prefix as radix 16 (radix 10 otherwise), then the longest run of
   * digits; `None` stands for `NaN` (no digit at all). Trailing text is ignored.
   */
  function ParseInt(s: string): Option<int> {
    ParseSigned(TrimStart(s))
  }

  /** An optional sign, then the unsigned part. */
  function ParseSigned(t: string): Option<int> {
    if t != [] && t[0] == '-' then
      match ParseUnsigned(t[1..])
      case None => None
      case Some(m) => Some(-(m as int))
    else if t != [] && t[0] == '+' then ParseUnsigned(t[1..])
    else ParseUnsigned(t)
  }

  /** The digits after the sign: radix 16 after a `0x`/`0X` prefix, radix 10 otherwise. */
  function ParseUnsigned(u: string): Option<nat> {
    if |u| >= 2 && u[0] == '0' && (u[1] == 'x' || u[1] == 'X') then ParseDigitRun(u[2..], 16)
    else ParseDigitRun(u, 10)
  }

  /** The value of the longest run of digits at the start of `v`, `None` when there is none. */
  function ParseDigitRun(v: string, radix: nat): Option<nat> {
    var k := DigitRun(v, radix);
    if k == 0 then None else Some(DigitsValue(v[..k], radix))
  }

  /** `parseInt(x) || 0`: `NaN` (and `0`) become 0; a missing `x` parses as `NaN`. */
  function ParseIntOrZero(x: Option<string>): int {
    if x.None? then 0
    else match ParseInt(x.value)
      case None => 0
      case Some(v) => v
  }

  /** The query value `-1` gives a negative `skip`. */
  lemma SkipOfMinusOne()
    ensures ParseIntOrZero(Some("-1")) == -1
  {
    ParseIntOfIntToString(-1);
    assert IntToString(-1) == "-1";
  }

  /** A `skip` query value read as `parseInt(x) || 0`, with a negative value read as 0. */
  function CatalogSkip(skipParam: Option<string>): (skip: nat)
    ensures ParseIntOrZero(skipParam) >= 0 ==> skip == ParseIntOrZero(skipParam)
  {
    Max(0, ParseIntOrZero(skipParam))
  }

  lemma ParseUnsignedOfDigits(u: string)
    requires u != [] && forall i :: 0 <= i < |u| ==> IsDigitIn(u[i], 10)
    ensures ParseUnsigned(u) == Some(DigitsValue(u, 10))
  {
    assert DigitRun(u, 10) == |u|;
    assert u[..|u|] == u;
    assert |u| >= 2 ==> IsDigitIn(u[1], 10);
  }

  lemma TrimStartOfUnspaced(s: string)
    requires s != [] && !IsJsSpace(s[0])
    ensures TrimStart(s) == s
  {
  }

  /** Text that does not start with whitespace is read from its first character. */
  lemma ParseIntOfUnspaced(s: string)
    requires s != [] && !IsJsSpace(s[0])
    ensures ParseInt(s) == ParseSigned(s)
  {
    TrimStartOfUnspaced(s);
  }

  /** Leading whitespace does not change what `parseInt` reads. */
  lemma ParseIntAfterSpace(c: char, t: string)
    requires IsJsSpace(c)
    ensures ParseInt([c] + t) == ParseInt(t)
  {
    assert ([c] + t)[1..] == t;
    assert TrimStart([c] + t) == TrimStart(t);
  }

  lemma ParseSignedOfDigits(u: string)
    requires u != [] && forall i :: 0 <= i < |u| ==> IsDigitIn(u[i], 10)
    ensures ParseSigned(u) == Some(DigitsValue(u, 10))
  {
    ParseUnsignedOfDigits(u);
    assert '0' <= u[0] <= '9';
  }

  /** A non-empty string of decimal digits parses to its value. */
  lemma ParseIntOfDigits(u: string)
    requires u != [] && forall i :: 0 <= i < |u| ==> IsDigitIn(u[i], 10)
    ensures ParseInt(u) == Some(DigitsValue(u, 10))
  {
    assert '0' <= u[0] <= '9';
    ParseIntOfUnspaced(u);
    ParseSignedOfDigits(u);
  }

  /** A minus sign in front negates what the rest parses to. */
  lemma ParseIntOfMinus(u: string, m: nat)
    requires ParseUnsigned(u) == Some(m)
    ensures ParseInt("-" + u) == Some(-(m as int))
  {
    var w := ['-'] + u;
    assert w[0] == '-' && w[1..] == u;
    assert ParseSigned(w) == Some(-(m as int));
    ParseIntOfUnspaced(w);
  }

  /** The unsigned part reads the decimal text of a natural number back. */
  lemma ParseUnsignedOfNatToString(n: nat)
    ensures ParseUnsigned(NatToString(n)) == Some(n)
  {
    NatToStringIsDecimal(n);
    ParseUnsignedOfDigits(NatToString(n));
  }

  /** `parseInt` reads the decimal text of a natural number back. */
  lemma ParseIntOfNatToString(n: nat)
    ensures ParseInt(NatToString(n)) == Some(n)
  {
    NatToStringIsDecimal(n);
    ParseIntOfDigits(NatToString(n));
  }

  /** Round trip: `parseInt(String(n)) === n` for every integer. */
  lemma ParseIntOfIntToString(n: int)
    ensures ParseInt(IntToString(n)) == Some(n)
  {
    if n < 0 {
      ParseUnsignedOfNatToString(-n);
      ParseIntOfMinus(NatToString(-n), -n);
    } else {
      ParseIntOfNatToString(n);
    }
  }

  /** Round trip through the zero padding: `parseInt(String(n).padStart(2, '0')) === n`. */
  lemma ParseIntOfPad2(n: int)
    ensures ParseInt(Pad2(n)) == Some(n)
  {
    Pad2Shape(n);
    if 0 <= n < 10 {
      var u := Pad2(n);
      assert u == ['0', DigitChar(n)];
      assert u[..1] == "0";
      assert DigitsValue("0", 10) == 0;
      assert DigitsValue(u, 10) == n;
      ParseIntOfDigits(u);
    } else {
      ParseIntOfIntToString(n);
    }
  }

  // ---------------------------------------------------------------------------
  // `s.split(sep)` and its inverse `parts.join(sep)`

  /** `parts.join(sep)`. */
  function Join(parts: seq<string>, sep: char): string {
    if parts == [] then ""
    else if |parts| == 1 then parts[0]
    else parts[0] + [sep] + Join(parts[1..], sep)
  }

  /** `s.split(sep)` for a one-character separator: every separator ends a part. */
  function Split(s: string, sep: char): (parts: seq<string>)
    ensures |parts| >= 1
    ensures forall i :: 0 <= i < |parts| ==> sep !in parts[i]
    ensures Join(parts, sep) == s
  {
    if s == [] then [""]
    else
      var rest := Split(s[1..], sep);
      if s[0] == sep then [""] + rest
      else [[s[0]] + rest[0]] + rest[1..]
  }

  lemma {:induction false} SplitWithoutSeparator(a: string, sep: char)
    requires sep !in a
    ensures Split(a, sep) == [a]
  {
    if a != [] {
      SplitWithoutSeparator(a[1..], sep);
    }
  }

  lemma {:induction false} SplitAtFirstSeparator(a: string, sep: char, b: string)
    requires sep !in a
    ensures Split(a + [sep] + b, sep) == [a] + Split(b, sep)
  {
    var s := a + [sep] + b;
    if a == [] {
      assert s[1..] == b;
    } else {
      assert s[1..] == a[1..] + [sep] + b;
      SplitAtFirstSeparator(a[1..], sep, b);
      assert [a[0]] + a[1..] == a;
    }
  }

  /** Round trip: splitting a join of separator-free parts gives the parts back. */
  lemma {:induction false} SplitOfJoin(parts: seq<string>, sep: char)
    requires |parts| >= 1
    requires forall i :: 0 <= i < |parts| ==> sep !in parts[i]
    ensures Split(Join(parts, sep), sep) == parts
  {
    if |parts| == 1 {
      SplitWithoutSeparator(parts[0], sep);
    } else {
      SplitOfJoin(parts[1..], sep);
      SplitAtFirstSeparator(parts[0], sep, Join(parts[1..], sep));
    }
  }

  /** A separator inside `s` splits it into at least two parts. */
  lemma SplitAtSeparatorHasTwoParts(s: string, sep: char)
    requires sep in s
    ensures |Split(s, sep)| >= 2
  {
  }

  /** The last part of a split is what follows the last separator. */
  lemma {:induction false} SplitLastPart(a: string, sep: char, b: string)
    requires sep !in b
    ensures Split(a + [sep] + b, sep)[|Split(a + [sep] + b, sep)| - 1] == b
    decreases |a|
  {
    var s := a + [sep] + b;
    if a == [] {
      assert s[1..] == b;
      SplitWithoutSeparator(b, sep);
    } else {
      var t := a[1..] + [sep] + b;
      assert s[1..] == t;
      assert t[|a| - 1] == sep;
      SplitAtSeparatorHasTwoParts(t, sep);
      SplitLastPart(a[1..], sep, b);
      var rest := Split(t, sep);
      var parts := Split(s, sep);
      assert parts == if s[0] == sep then [""] + rest else [[s[0]] + rest[0]] + rest[1..];
      assert parts[|parts| - 1] == rest[|rest| - 1];
    }
  }

  lemma IntToStringHasNo(n: int, c: char)
    requires c != '-' && !IsDigitIn(c, 10)
    ensures c !in IntToString(n) && c !in Pad2(n)
  {
    IntToStringChars(n);
    Pad2Shape(n);
  }

  // ---------------------------------------------------------------------------
  // `encodeURIComponent(s)`

  /** The characters `encodeURIComponent` keeps as they are. */
  predicate IsUriUnreserved(c: char) {
    ('A' <= c <= 'Z') || ('a' <= c <= 'z') || ('0' <= c <= '9')
    || c == '-' || c == '_' || c == '.' || c == '!' || c == '~' || c == '*' || c == '\'' || c == '(' || c == ')'
  }

  /** An upper-case hexadecimal digit. */
  function HexDigit(d: nat): (c: char)
    requires d < 16
    ensures IsUriUnreserved(c)
  {
    if d < 10 then ('0' as int + d) as char else ('A' as int + d - 10) as char
  }

  /** The UTF-8 bytes of a code point. */
  function Utf8(k: nat): (bytes: seq<nat>)
    requires k < 0x11_0000
    ensures 1 <= |bytes| <= 4
    ensures forall i :: 0 <= i < |bytes| ==> bytes[i] < 256
  {
    if k < 0x80 then [k]
    else if k < 0x800 then [0xC0 + k / 0x40, 0x80 + k % 0x40]
    else if k < 0x1_0000 then [0xE0 + k / 0x1000, 0x80 + (k / 0x40) % 0x40, 0x80 + k % 0x40]
    else [0xF0 + k / 0x4_0000, 0x80 + (k / 0x1000) % 0x40, 0x80 + (k / 0x40) % 0x40, 0x80 + k % 0x40]
  }

  /** `%XY` for every byte. */
  function PercentBytes(bytes: seq<nat>): (r: string)
    requires forall i :: 0 <= i < |bytes| ==> bytes[i] < 256
    ensures |r| == 3 * |bytes|
  {
    if bytes == [] then ""
    else ['%', HexDigit(bytes[0] / 16), HexDigit(bytes[0] % 16)] + PercentBytes(bytes[1..])
  }

  /** `encodeURIComponent`: unreserved characters as they are, every other one as its percent-encoded UTF-8 bytes. */
  function EncodeURIComponent(s: string): string {
    if s == [] then ""
    else
      var c := s[0];
      (if IsUriUnreserved(c) then [c] else PercentBytes(Utf8(c as int)))
      + EncodeURIComponent(s[1..])
  }

  lemma {:induction false} PercentBytesAreUriSafe(bytes: seq<nat>)
    requires forall i :: 0 <= i < |bytes| ==> bytes[i] < 256
    ensures forall c :: c in PercentBytes(bytes) ==> IsUriUnreserved(c) || c == '%'
  {
    if bytes != [] {
      PercentBytesAreUriSafe(bytes[1..]);
    }
  }

  /**
   * The encoded text is made of unreserved characters and `%` only, so no
   * `&`, `#`, `?` or space of the input can end a query value early.
   */
  lemma {:induction false} EncodedIsUriSafe(s: string)
    ensures forall c :: c in EncodeURIComponent(s) ==> IsUriUnreserved(c) || c == '%'
  {
    if s != [] {
      EncodedIsUriSafe(s[1..]);
      if !IsUriUnreserved(s[0]) {
        PercentBytesAreUriSafe(Utf8(s[0] as int));
      }
    }
  }

  /** Text made of unreserved characters passes through unchanged. */
  lemma {:induction false} EncodeUnreserved(s: string)
    requires forall i :: 0 <= i < |s| ==> IsUriUnreserved(s[i])
    ensures EncodeURIComponent(s) == s
  {
    if s != [] {
      EncodeUnreserved(s[1..]);
    }
  }

  // ---------------------------------------------------------------------------
  // `xs.filter(Boolean)` on a list of objects and `null`s

  /** The present values, in order. */
  function FilterPresent<T>(xs: seq<Option<T>>): (r: seq<T>)
    ensures |r| <= |xs|
  {
    if xs == [] then []
    else FilterPresent(xs[..|xs| - 1]) + if xs[|xs| - 1].Some? then [xs[|xs| - 1].value] else []
  }

  /** The positions of the present values, in order. */
  function PresentIndices<T>(xs: seq<Option<T>>): (r: seq<nat>)
    ensures |r| <= |xs|
  {
    if xs == [] then []
    else PresentIndices(xs[..|xs| - 1]) + if xs[|xs| - 1].Some? then [|xs| - 1] else []
  }

  /** The positions lie in the sequence and increase. */
  lemma {:induction false} PresentIndicesIncrease<T>(xs: seq<Option<T>>)
    ensures forall k :: 0 <= k < |PresentIndices(xs)| ==> PresentIndices(xs)[k] < |xs|
    ensures forall k, l :: 0 <= k < l < |PresentIndices(xs)| ==> PresentIndices(xs)[k] < PresentIndices(xs)[l]
    decreases |xs|
  {
    if xs != [] {
      var init := xs[..|xs| - 1];
      PresentIndicesIncrease(init);
      var before := PresentIndices(init);
      if xs[|xs| - 1].Some? {
        assert PresentIndices(xs) == before + [|xs| - 1];
      } else {
        assert PresentIndices(xs) == before;
      }
    }
  }

  /** Every present value has its position listed. */
  lemma {:induction false} PresentIndicesComplete<T>(xs: seq<Option<T>>)
    ensures forall i :: 0 <= i < |xs| && xs[i].Some? ==> i in PresentIndices(xs)
    decreases |xs|
  {
    if xs != [] {
      var init := xs[..|xs| - 1];
      PresentIndicesComplete(init);
      var before := PresentIndices(init);
      var after := PresentIndices(xs);
      assert after == before + (if xs[|xs| - 1].Some? then [|xs| - 1] else []);
      forall i | 0 <= i < |xs| && xs[i].Some?
        ensures i in after
      {
        if i < |init| {
          assert init[i] == xs[i];
          assert i in before;
        }
      }
    }
  }

  /** Value `k` of the result is the value at the `k`-th listed position. */
  lemma {:induction false} FilterPresentValues<T>(xs: seq<Option<T>>)
    ensures |PresentIndices(xs)| == |FilterPresent(xs)|
    ensures forall k :: 0 <= k < |PresentIndices(xs)| ==>
      0 <= PresentIndices(xs)[k] < |xs| && xs[PresentIndices(xs)[k]] == Some(FilterPresent(xs)[k])
    decreases |xs|
  {
    PresentIndicesIncrease(xs);
    if xs != [] {
      var init, last := xs[..|xs| - 1], xs[|xs| - 1];
      FilterPresentValues(init);
      PresentIndicesIncrease(init);
      assert forall j :: 0 <= j < |init| ==> init[j] == xs[j];
      var before, kept := PresentIndices(init), FilterPresent(init);
      if last.Some? {
        assert PresentIndices(xs) == before + [|xs| - 1];
        assert FilterPresent(xs) == kept + [last.value];
      } else {
        assert PresentIndices(xs) == before;
        assert FilterPresent(xs) == kept;
      }
    }
  }

  /**
   * The filter keeps order: value `k` of the result sits at position
   * `PresentIndices(xs)[k]`, those positions increase, and every present
   * value is kept.
   */
  lemma FilterPresentPositions<T>(xs: seq<Option<T>>)
    ensures |PresentIndices(xs)| == |FilterPresent(xs)|
    ensures forall k :: 0 <= k < |PresentIndices(xs)| ==>
      0 <= PresentIndices(xs)[k] < |xs| && xs[PresentIndices(xs)[k]] == Some(FilterPresent(xs)[k])
    ensures forall k, l :: 0 <= k < l < |PresentIndices(xs)| ==> PresentIndices(xs)[k] < PresentIndices(xs)[l]
    ensures forall i :: 0 <= i < |xs| && xs[i].Some? ==> i in PresentIndices(xs)
  {
    PresentIndicesIncrease(xs);
    PresentIndicesComplete(xs);
    FilterPresentValues(xs);
  }

  /** Value `k` of the result is the value at position `PresentIndices(xs)[k]`. */
  lemma FilterPresentAt<T>(xs: seq<Option<T>>, k: nat)
    requires k < |PresentIndices(xs)|
    ensures k < |FilterPresent(xs)| && PresentIndices(xs)[k] < |xs|
    ensures xs[PresentIndices(xs)[k]] == Some(FilterPresent(xs)[k])
  {
    FilterPresentPositions(xs);
  }

  /** Without `null`s nothing is dropped. */
  lemma {:induction false} FilterPresentAllSome<T>(xs: seq<Option<T>>)
    requires forall i :: 0 <= i < |xs| ==> xs[i].Some?
    ensures |FilterPresent(xs)| == |xs|
    ensures forall i :: 0 <= i < |xs| ==> Some(FilterPresent(xs)[i]) == xs[i]
    decreases |xs|
  {
    if xs != [] {
      var init := xs[..|xs| - 1];
      FilterPresentAllSome(init);
      assert forall j :: 0 <= j < |init| ==> init[j] == xs[j];
    }
  }

  // ---------------------------------------------------------------------------
  // `Array.prototype.slice(start, end)`

  /** A relative slice bound: negative counts from the end; the result lies in `[0, n]`. */
  function SliceBound(k: int, n: nat): (b: nat)
    ensures b <= n
  {
    if k < 0 then Max(n + k, 0) else Min(k, n)
  }

  /** `s.slice(start, end)`. */
  function Slice<T>(s: seq<T>, start: int, end: int): (r: seq<T>)
    ensures |r| <= |s|
    ensures 0 <= start <= end ==> r == s[Min(start, |s|)..Min(end, |s|)]
  {
    var a := SliceBound(start, |s|);
    var b := SliceBound(end, |s|);
    if a < b then s[a..b] else []
  }

  /** A window of `size` positions holds at most `size` items, whatever `start` is, a negative one included. */
  lemma SliceLen<T>(s: seq<T>, start: int, size: nat)
    ensures |Slice(s, start, start + size)| <= size
  {
  }

  /** A page `[skip, skip + size)` with a non-negative `skip`: at most `size` items, none past the end. */
  lemma PageBounds<T>(s: seq<T>, skip: int, size: nat)
    requires 0 <= skip
    ensures |Slice(s, skip, skip + size)| == Max(0, Min(size, |s| - skip))
    ensures skip >= |s| ==> Slice(s, skip, skip + size) == []
    ensures skip <= |s| ==> Slice(s, skip, skip + size) == s[skip..Min(skip + size, |s|)]
  {
  }

  /** Item `i` of the page at `skip` is item `skip + i` of the whole sequence. */
  lemma PageItem<T>(s: seq<T>, skip: nat, size: nat, i: nat)
    requires i < Min(size, |s| - skip)
    ensures i < |Slice(s, skip, skip + size)| && Slice(s, skip, skip + size)[i] == s[skip + i]
  {
    PageBounds(s, skip, size);
  }
}
