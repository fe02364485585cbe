/**
 * The JavaScript string operations the application relies on: `trim`, the
 * `\s` character class, `toLowerCase` (restricted to ASCII), `includes`,
 * `parseInt` and the decimal rendering of integers.
 */
module Text {
  import opened Wrappers

  /** ECMAScript WhiteSpace and LineTerminator code points: what `trim` strips and `\s` matches. */
  predicate IsSpace(c: char) {
    || c == '\t' || c == '\n' || c == '\U{B}' || c == '\U{C}' || c == '\r' || c == ' '
    || c == '\U{A0}' || c == '\U{1680}' || ('\U{2000}' <= c <= '\U{200A}')
    || c == '\U{2028}' || c == '\U{2029}' || c == '\U{202F}' || c == '\U{205F}'
    || c == '\U{3000}' || c == '\U{FEFF}'
  }

  /** JavaScript truthiness of a string that may be `undefined`: present and not `""`. */
  predicate Truthy(o: Option<string>) {
    o.Some? && o.value != ""
  }

  predicate NoSpace(s: string) {
    forall i | 0 <= i < |s| :: !IsSpace(s[i])
  }

  predicate IsBlank(s: string) {
    forall i | 0 <= i < |s| :: IsSpace(s[i])
  }

  /** `String.prototype.trimStart`: the longest suffix that does not start with white space. */
  function TrimStart(s: string): (r: string)
    ensures |r| <= |s| && r == s[|s| - |r|..]
    ensures r == [] || !IsSpace(r[0])
    ensures IsBlank(s[..|s| - |r|])
  {
    if s != [] && IsSpace(s[0]) then
      var tail := s[1..];
      var r := TrimStart(tail);
      assert tail[|tail| - |r|..] == s[|s| - |r|..];
      forall i | 0 <= i < |s| - |r| ensures IsSpace(s[i]) {
        if i > 0 { assert s[i] == tail[..|tail| - |r|][i - 1]; }
      }
      var stripped := s[..|s| - |r|];
      forall i | 0 <= i < |stripped| ensures IsSpace(stripped[i]) { assert stripped[i] == s[i]; }
      r
    else
      assert s[..0] == [] && s[0..] == s;
      s
  }

  /** `String.prototype.trimEnd`: the longest prefix that does not end with white space. */
  function TrimEnd(s: string): (r: string)
    ensures |r| <= |s| && r == s[..|r|]
    ensures r == [] || !IsSpace(r[|r| - 1])
    ensures IsBlank(s[|r|..])
  {
    if s != [] && IsSpace(s[|s| - 1]) then
      var init := s[..|s| - 1];
      var r := TrimEnd(init);
      assert init[..|r|] == s[..|r|];
      forall i | |r| <= i < |s| ensures IsSpace(s[i]) {
        if i < |s| - 1 { assert s[i] == init[|r|..][i - |r|]; }
      }
      var stripped := s[|r|..];
      forall i | 0 <= i < |stripped| ensures IsSpace(stripped[i]) { assert stripped[i] == s[|r| + i]; }
      r
    else
      assert s[|s|..] == [] && s[..|s|] == s;
      s
  }

  /** `String.prototype.trim`. */
  function Trim(s: string): (r: string)
    ensures |r| <= |s|
    ensures r == [] || (!IsSpace(r[0]) && !IsSpace(r[|r| - 1]))
    ensures r == [] <==> IsBlank(s)
    ensures exists a, b | 0 <= a <= b <= |s| :: r == s[a..b] && IsBlank(s[..a]) && IsBlank(s[b..])
  {
    var t := TrimStart(s);
    var r := TrimEnd(t);
    TrimParts(s, t, r);
    r
  }

  /**
   * Stripping a blank prefix, leaving `t`, and then a blank suffix of `t`,
   * leaving `r`, removes a blank prefix and a blank suffix of `s`.
   */
  lemma TrimParts(s: string, t: string, r: string)
    requires |t| <= |s| && t == s[|s| - |t|..] && IsBlank(s[..|s| - |t|]) && (t == [] || !IsSpace(t[0]))
    requires |r| <= |t| && r == t[..|r|] && IsBlank(t[|r|..]) && (r == [] || !IsSpace(r[|r| - 1]))
    ensures r == [] || (!IsSpace(r[0]) && !IsSpace(r[|r| - 1]))
    ensures r == [] <==> IsBlank(s)
    ensures r == s[|s| - |t|..|s| - |t| + |r|]
    ensures IsBlank(s[|s| - |t| + |r|..])
  {
    var a := |s| - |t|;
    var b := a + |r|;
    assert s[b..] == t[|r|..];
    if r == [] {
      // t does not start with white space, yet all of t is white space
      assert t[|r|..] == t;
      assert t == [];
      assert s[..a] == s;
    } else {
      assert t[0] == s[a];  // a character of s that is not white space
    }
  }

  /** Non-empty, and neither starting nor ending with white space: what a non-blank string trims to. */
  predicate Trimmed(s: string) {
    s != [] && !IsSpace(s[0]) && !IsSpace(s[|s| - 1])
  }

  /** Trimming twice is the same as trimming once. */
  lemma TrimIdempotent(s: string)
    ensures Trim(Trim(s)) == Trim(s)
  {
    TrimOfTrimmed(Trim(s));
  }

  /** A trimmed string (or the empty one) is its own trim. */
  lemma TrimOfTrimmed(r: string)
    requires r == [] || Trimmed(r)
    ensures Trim(r) == r
  {
    if r != [] {
      TrimStartUnchanged(r);
      TrimEndUnchanged(r);
    }
  }

  /** A string without white space is its own trim. */
  lemma TrimNoSpace(s: string)
    requires NoSpace(s)
    ensures Trim(s) == s
  {
    if s != [] {
      TrimStartUnchanged(s);
      TrimEndUnchanged(s);
    }
  }

  /** The number of UTF-16 code units of one code point: two above U+FFFF, where it takes a surrogate pair. */
  function CodeUnits(c: char): nat {
    if c as int >= 0x1_0000 then 2 else 1
  }

  /** `String.prototype.length`: the number of UTF-16 code units, not of code points. */
  function JsLength(s: string): (n: nat)
    ensures |s| <= n <= 2 * |s|
    ensures n == 0 <==> s == []
  {
    if s == [] then 0 else CodeUnits(s[0]) + JsLength(s[1..])
  }

  /** Lengths add up over concatenation. */
  lemma {:induction false} JsLengthConcat(a: string, b: string)
    ensures JsLength(a + b) == JsLength(a) + JsLength(b)
  {
    if a == [] {
      assert a + b == b;
    } else {
      assert (a + b)[0] == a[0] && (a + b)[1..] == a[1..] + b;
      JsLengthConcat(a[1..], b);
    }
  }

  /** Within the Basic Multilingual Plane the length is the number of characters. */
  lemma {:induction false} JsLengthBmp(s: string)
    requires forall i | 0 <= i < |s| :: s[i] as int < 0x1_0000
    ensures JsLength(s) == |s|
  {
    if s != [] {
      JsLengthBmp(s[1..]);
    }
  }

  /** `toLowerCase` on one character, for the ASCII letters only. */
  function LowerChar(c: char): char {
    if 'A' <= c <= 'Z' then (c as int + 32) as char else c
  }

  predicate IsUpper(c: char) { 'A' <= c <= 'Z' }

  /** `String.prototype.toLowerCase`, restricted to ASCII. */
  function Lower(s: string): (r: string)
    ensures |r| == |s|
    ensures forall i | 0 <= i < |s| :: !IsUpper(r[i])
    ensures forall i | 0 <= i < |s| :: !IsUpper(s[i]) ==> r[i] == s[i]
    ensures forall i | 0 <= i < |s| :: IsUpper(s[i]) ==> r[i] as int == s[i] as int + 32
  {
    seq(|s|, i requires 0 <= i < |s| => LowerChar(s[i]))
  }

  lemma LowerIdempotent(s: string)
    ensures Lower(Lower(s)) == Lower(s)
  {
  }

  /** `p` is a prefix of `s`. */
  predicate StartsWith(s: string, p: string) {
    |p| <= |s| && s[..|p|] == p
  }

  /** `s` has `sub` at position `i`. */
  predicate OccursAt(s: string, sub: string, i: int) {
    0 <= i && i + |sub| <= |s| && s[i..i + |sub|] == sub
  }

  /** `String.prototype.includes`: `sub` occurs somewhere in `s`, scanning from the left. */
  function Contains(s: string, sub: string): (b: bool)
    ensures b <==> exists i :: OccursAt(s, sub, i)
  {
    if StartsWith(s, sub) then
      assert OccursAt(s, sub, 0);
      true
    else if s == [] then
      assert forall i :: !OccursAt(s, sub, i);
      false
    else
      var b := Contains(s[1..], sub);
      assert forall i :: OccursAt(s[1..], sub, i) <==> OccursAt(s, sub, i + 1) by {
        forall i ensures OccursAt(s[1..], sub, i) <==> OccursAt(s, sub, i + 1) {
          if 0 <= i && i + |sub| <= |s| - 1 {
            assert s[1..][i..i + |sub|] == s[i + 1..i + 1 + |sub|];
          }
        }
      }
      assert !OccursAt(s, sub, 0);
      assert forall i :: OccursAt(s, sub, i) ==> OccursAt(s[1..], sub, i - 1);
      b
  }

  /** A case-insensitive substring test over ASCII: `needle` occurs in `hay` ignoring case. */
  predicate ContainsIgnoringCase(hay: string, needle: string) {
    Contains(Lower(hay), Lower(needle))
  }

  // ---------------------------------------------------------------------------
  // parseInt and integer rendering
  // ---------------------------------------------------------------------------

  /** The value of `c` as a digit in base 36 notation restricted to hexadecimal, if it is one. */
  function DigitValue(c: char): (v: Option<nat>)
    ensures v.Some? ==> v.value < 16
  {
    if '0' <= c <= '9' then Some(c as int - '0' as int)
    else if 'a' <= c <= 'f' then Some(c as int - 'a' as int + 10)
    else if 'A' <= c <= 'F' then Some(c as int - 'A' as int + 10)
    else None
  }

  predicate IsDigitIn(c: char, radix: nat) {
    DigitValue(c).Some? && DigitValue(c).value < radix
  }

  /** The length of the longest prefix of `s` made of digits of `radix`. */
  function DigitRun(s: string, radix: nat): (n: nat)
    ensures n <= |s|
    ensures forall i | 0 <= i < n :: IsDigitIn(s[i], radix)
    ensures n < |s| ==> !IsDigitIn(s[n], radix)
  {
    if s != [] && IsDigitIn(s[0], radix) then 1 + DigitRun(s[1..], radix) else 0
  }

  /** The number that the digit string `ds` denotes in `radix`, most significant digit first. */
  function DigitsValue(ds: string, radix: nat): nat
    requires forall i | 0 <= i < |ds| :: IsDigitIn(ds[i], radix)
  {
    if ds == [] then 0
    else
      var last := ds[|ds| - 1];
      var init := ds[..|ds| - 1];
      assert forall i | 0 <= i < |init| :: IsDigitIn(init[i], radix) by {
        forall i | 0 <= i < |init| ensures IsDigitIn(init[i], radix) { assert init[i] == ds[i]; }
      }
      assert IsDigitIn(last, radix);
      var high := DigitsValue(init, radix);
      ProductNat(high, radix);
      high * radix + DigitValue(last).value
  }

  /**
   * The digits after the sign in `parseInt`: a `0x`/`0X` prefix selects base 16,
   * otherwise base 10, and the longest run of digits that follows is read;
   * `None` when there is no digit at all.
   */
  function ParseUnsigned(u: string): Option<nat>
  {
    var hex := |u| >= 2 && u[0] == '0' && (u[1] == 'x' || u[1] == 'X');
    var radix := if hex then 16 else 10;
    var body := if hex then u[2..] else u;
    var n := DigitRun(body, radix);
    if n == 0 then None else Some(DigitsValue(body[..n], radix))
  }

  /**
   * `parseInt(s)` with no radix argument: leading white space is skipped, one
   * sign is accepted and the digits are read by `ParseUnsigned`; `None` stands
   * for `NaN`.
   */
  function ParseInt(s: string): Option<int>
  {
    var t := TrimStart(s);
    var negative := t != [] && t[0] == '-';
    var u := if t != [] && (t[0] == '-' || t[0] == '+') then t[1..] else t;
    match ParseUnsigned(u)
    case None => None
    case Some(v) =>
      var w: int := v;
      Some(if negative then -w else w)
  }

  /** The digit character for a value below 10. */
  function DigitChar(d: nat): char
    requires d < 10
  {
    ('0' as int + d) as char
  }

  /** The decimal rendering of a natural number, as `String(n)` gives it. */
  function NatToString(n: nat): (r: string)
    ensures |r| >= 1
    ensures forall i | 0 <= i < |r| :: '0' <= r[i] <= '9'
    ensures r[0] == '0' ==> n == 0
  {
    if n < 10 then [DigitChar(n)] else NatToString(n / 10) + [DigitChar(n % 10)]
  }

  /** The decimal rendering of an integer, with a leading `-` when negative. */
  function IntToString(n: int): (r: string)
    ensures r != [] && (r[0] == '-' <==> n < 0)
  {
    if n < 0 then "-" + NatToString(-n) else NatToString(n)
  }

  lemma {:induction false} NatToStringValue(n: nat)
    ensures forall i | 0 <= i < |NatToString(n)| :: IsDigitIn(NatToString(n)[i], 10)
    ensures DigitsValue(NatToString(n), 10) == n
  {
    var r := NatToString(n);
    forall i | 0 <= i < |r| ensures IsDigitIn(r[i], 10) {
      assert '0' <= r[i] <= '9';
    }
    if n >= 10 {
      NatToStringValue(n / 10);
      assert r[..|r| - 1] == NatToString(n / 10);
    }
  }

  lemma {:induction false} DigitRunWhole(s: string, radix: nat)
    requires forall i | 0 <= i < |s| :: IsDigitIn(s[i], radix)
    ensures DigitRun(s, radix) == |s|
  {
    if s != [] { DigitRunWhole(s[1..], radix); }
  }

  lemma ParseUnsignedDecimal(n: nat)
    ensures ParseUnsigned(NatToString(n)) == Some(n)
  {
    var d := NatToString(n);
    NatToStringValue(n);
    assert |d| >= 2 ==> d[0] != '0';
    DigitRunWhole(d, 10);
    assert d[..|d|] == d;
  }

  lemma TrimStartUnchanged(s: string)
    requires s != [] && !IsSpace(s[0])
    ensures TrimStart(s) == s
  {
  }

  lemma TrimEndUnchanged(s: string)
    requires s != [] && !IsSpace(s[|s| - 1])
    ensures TrimEnd(s) == s
  {
  }

  lemma ProductNat(a: nat, b: nat)
    ensures a * b >= 0
  {
  }

  lemma ParseIntNatToString(m: nat)
    ensures ParseInt(NatToString(m)) == Some(m)
  {
    var d := NatToString(m);
    assert !IsSpace(d[0]) by { assert '0' <= d[0] <= '9'; }
    TrimStartUnchanged(d);
    ParseUnsignedDecimal(m);
  }

  lemma ParseIntNegated(m: nat)
    ensures ParseInt("-" + NatToString(m)) == Some(-(m as int))
  {
    var s := "-" + NatToString(m);
    TrimStartUnchanged(s);
    assert s[1..] == NatToString(m);
    ParseUnsignedDecimal(m);
  }

  /** `parseInt` reads back the decimal rendering of every integer. */
  lemma ParseIntToString(n: int)
    ensures ParseInt(IntToString(n)) == Some(n)
  {
    var s := IntToString(n);
    if n < 0 {
      var m: nat := -n;
      assert s == "-" + NatToString(m);
      ParseIntNegated(m);
    } else {
      var m: nat := n;
      assert s == NatToString(m);
      ParseIntNatToString(m);
    }
  }
}
