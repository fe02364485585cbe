/**
 * The client's route table and query-string builder: `encodeURIComponent`
 * (percent-encoding of the UTF-8 bytes of every character outside its
 * unreserved set), `buildQueryString`, `getPaginatedPostsRoute` and the
 * id-parameterised route builders.
 */
module ApiRoutes {
  import opened Wrappers
  import opened Text

  // ---------------------------------------------------------------------------
  // encodeURIComponent
  // ---------------------------------------------------------------------------

  type Byte = b: int | 0 <= b < 256

  /** The characters `encodeURIComponent` leaves as they are. */
  predicate Unreserved(c: char) {
    || ('A' <= c <= 'Z') || ('a' <= c <= 'z') || ('0' <= c <= '9')
    || c == '-' || c == '_' || c == '.' || c == '!' || c == '~' || c == '*' || c == '\'' || c == '(' || c == ')'
  }

  /** A character that can appear in encoded text: an unreserved one or `%`. */
  predicate Encoded(c: char) {
    Unreserved(c) || c == '%'
  }

  /** The UTF-8 encoding of one code point. */
  function Utf8(c: char): (bs: seq<Byte>)
    ensures 1 <= |bs| <= 4
  {
    var cp := c as int;
    if cp < 0x80 then [cp]
    else if cp < 0x800 then [0xC0 + cp / 64, 0x80 + cp % 64]
    else if cp < 0x1_0000 then [0xE0 + cp / 4096, 0x80 + cp / 64 % 64, 0x80 + cp % 64]
    else [0xF0 + cp / 262144, 0x80 + cp / 4096 % 64, 0x80 + cp / 64 % 64, 0x80 + cp % 64]
  }

  /** An upper-case hexadecimal digit. */
  function HexDigit(d: nat): (c: char)
    requires d < 16
    ensures Unreserved(c) && DigitValue(c) == Some(d)
  {
    if d < 10 then ('0' as int + d) as char else ('A' as int + d - 10) as char
  }

  /** `%` followed by the two hexadecimal digits of `b`. */
  function PercentByte(b: Byte): (r: string)
    ensures |r| == 3 && r[0] == '%' && DigitValue(r[1]) == Some(b / 16) && DigitValue(r[2]) == Some(b % 16)
    ensures forall i | 0 <= i < |r| :: Encoded(r[i])
  {
    ['%', HexDigit(b / 16), HexDigit(b % 16)]
  }

  function Percent(bs: seq<Byte>): (r: string)
    ensures |r| == 3 * |bs|
    ensures forall i | 0 <= i < |r| :: Encoded(r[i])
  {
    if bs == [] then [] else PercentByte(bs[0]) + Percent(bs[1..])
  }

  function EncodeChar(c: char): (r: string)
    ensures r != [] && forall i | 0 <= i < |r| :: Encoded(r[i])
  {
    if Unreserved(c) then [c] else Percent(Utf8(c))
  }

  /** `encodeURIComponent`: the result uses only unreserved characters and `%`, so never `&`, `=` or `?`. */
  function Encode(s: string): (r: string)
    ensures forall i | 0 <= i < |r| :: Encoded(r[i])
    ensures |s| <= |r|
  {
    if s == [] then [] else EncodeChar(s[0]) + Encode(s[1..])
  }

  // Decoding, the partner of `Encode`: `decodeURIComponent` restricted to well-formed input.

  /** The byte a `%XX` escape at the start of `t` stands for. */
  function DecodeByte(t: string): (r: Option<Byte>)
  {
    if |t| >= 3 && t[0] == '%' && IsDigitIn(t[1], 16) && IsDigitIn(t[2], 16)
    then Some(DigitValue(t[1]).value * 16 + DigitValue(t[2]).value)
    else None
  }

  /** Reads `k` continuation bytes (`10xxxxxx`) and appends their payload bits to `acc`. */
  function Continuation(t: string, k: nat, acc: int): (r: Option<int>)
    decreases k
  {
    if k == 0 then Some(acc)
    else match DecodeByte(t)
      case None => None
      case Some(b) => if 0x80 <= b < 0xC0 then Continuation(t[3..], k - 1, acc * 64 + (b - 0x80)) else None
  }

  predicate IsScalar(v: int) {
    (0 <= v < 0xD800) || (0xE000 <= v < 0x11_0000)
  }

  /** The first character encoded at the start of `t`, and how many characters of `t` encode it. */
  function DecodeFirst(t: string): (r: Option<(char, nat)>)
    ensures r.Some? ==> 1 <= r.value.1 <= |t|
  {
    if t == [] then None
    else if t[0] != '%' then Some((t[0], 1))
    else match DecodeByte(t)
      case None => None
      case Some(b) =>
        if b < 0x80 then Some((b as char, 3))
        else if b < 0xC0 then None
        else
          var n: nat := if b < 0xE0 then 2 else if b < 0xF0 then 3 else 4;
          var lead := if n == 2 then b - 0xC0 else if n == 3 then b - 0xE0 else b - 0xF0;
          if |t| < 3 * n then None
          else match Continuation(t[3..], n - 1, lead)
            case None => None
            case Some(v) => if IsScalar(v) then Some((v as char, 3 * n)) else None
  }

  function Decode(t: string): (r: Option<string>)
    decreases |t|
  {
    if t == [] then Some([])
    else match DecodeFirst(t)
      case None => None
      case Some((c, n)) =>
        match Decode(t[n..])
        case None => None
        case Some(rest) => Some([c] + rest)
  }

  lemma DecodePercentByte(b: Byte, rest: string)
    ensures DecodeByte(PercentByte(b) + rest) == Some(b)
  {
    var t := PercentByte(b) + rest;
    assert t[1] == PercentByte(b)[1] && t[2] == PercentByte(b)[2];
  }

  lemma ContinuationStep(b: Byte, rest: string, k: nat, acc: int)
    requires 0x80 <= b < 0xC0 && k >= 1
    ensures Continuation(PercentByte(b) + rest, k, acc) == Continuation(rest, k - 1, acc * 64 + (b - 0x80))
  {
    DecodePercentByte(b, rest);
    assert (PercentByte(b) + rest)[3..] == rest;
  }

  lemma DecodeFirstTwo(c: char, rest: string)
    requires 0x80 <= c as int < 0x800
    ensures DecodeFirst(Percent(Utf8(c)) + rest) == Some((c, 6))
  {
    var b0, b1 := Utf8Two(c);
    var tail := PercentByte(b1) + rest;
    var t := Percent(Utf8(c)) + rest;
    assert t == PercentByte(b0) + tail by {
      PercentStep([b0, b1], rest);
      PercentStep([b1], rest);
      assert [b0, b1][1..] == [b1] && [b1][1..] == [];
    }
    ContinuationStep(b1, rest, 1, b0 - 0xC0);
    DecodeFirstMulti(b0, tail, 2, c as int);
  }

  /** The two bytes of a code point from 0x80 to 0x7FF: a lead byte and a continuation byte. */
  lemma Utf8Two(c: char) returns (b0: Byte, b1: Byte)
    requires 0x80 <= c as int < 0x800
    ensures Utf8(c) == [b0, b1]
    ensures 0xC0 <= b0 < 0xE0 && 0x80 <= b1 < 0xC0
    ensures (b0 - 0xC0) * 64 + (b1 - 0x80) == c as int
  {
    var cp := c as int;
    b0, b1 := 0xC0 + cp / 64, 0x80 + cp % 64;
  }

  /** A multi-byte lead escape followed by the right number of continuation escapes decodes to their value. */
  lemma DecodeFirstMulti(b: Byte, tail: string, n: nat, v: int)
    requires 0xC0 <= b && n == (if b < 0xE0 then 2 else if b < 0xF0 then 3 else 4) && |tail| >= 3 * n - 3
    requires Continuation(tail, n - 1, if n == 2 then b - 0xC0 else if n == 3 then b - 0xE0 else b - 0xF0) == Some(v)
    requires IsScalar(v)
    ensures DecodeFirst(PercentByte(b) + tail) == Some((v as char, 3 * n))
  {
    var t := PercentByte(b) + tail;
    DecodePercentByte(b, tail);
    assert t[3..] == tail;
  }

  lemma ThreeByteArithmetic(cp: int)
    requires 0x800 <= cp < 0x1_0000
    ensures 0xE0 <= 0xE0 + cp / 4096 < 0xF0
    ensures (cp / 4096 * 64 + cp / 64 % 64) * 64 + cp % 64 == cp
  {
    var q := cp / 64;
    assert q / 64 == cp / 4096;
  }

  lemma FourByteArithmetic(cp: int)
    requires 0x1_0000 <= cp < 0x11_0000
    ensures 0xF0 <= 0xF0 + cp / 262144 < 0x100
    ensures ((cp / 262144 * 64 + cp / 4096 % 64) * 64 + cp / 64 % 64) * 64 + cp % 64 == cp
  {
    var q := cp / 64;
    assert q / 64 == cp / 4096;
    var q2 := cp / 4096;
    assert q2 / 64 == cp / 262144;
  }

  lemma DecodeFirstThree(c: char, rest: string)
    requires 0x800 <= c as int < 0x1_0000
    ensures DecodeFirst(Percent(Utf8(c)) + rest) == Some((c, 9))
  {
    var b0, b1, b2 := Utf8Three(c);
    PercentThree(b0, b1, b2, rest);
    TwoContinuations(b1, b2, rest, b0 - 0xE0);
    DecodeFirstMulti(b0, PercentByte(b1) + (PercentByte(b2) + rest), 3, c as int);
  }

  /** The three bytes of a code point from 0x800 to 0xFFFF: a lead byte and two continuation bytes. */
  lemma Utf8Three(c: char) returns (b0: Byte, b1: Byte, b2: Byte)
    requires 0x800 <= c as int < 0x1_0000
    ensures Utf8(c) == [b0, b1, b2]
    ensures 0xE0 <= b0 < 0xF0 && 0x80 <= b1 < 0xC0 && 0x80 <= b2 < 0xC0
    ensures ((b0 - 0xE0) * 64 + (b1 - 0x80)) * 64 + (b2 - 0x80) == c as int
  {
    var cp := c as int;
    b0, b1, b2 := 0xE0 + cp / 4096, 0x80 + cp / 64 % 64, 0x80 + cp % 64;
    ThreeByteArithmetic(cp);
  }

  lemma PercentThree(b0: Byte, b1: Byte, b2: Byte, rest: string)
    ensures Percent([b0, b1, b2]) + rest == PercentByte(b0) + (PercentByte(b1) + (PercentByte(b2) + rest))
  {
    var bs := [b0, b1, b2];
    var t2 := PercentByte(b2) + rest;
    var t1 := PercentByte(b1) + t2;
    assert Percent(bs[2..]) + rest == t2 by {
      PercentStep(bs[2..], rest);
      assert bs[2..][1..] == [];
    }
    assert Percent(bs[1..]) + rest == t1 by {
      PercentStep(bs[1..], rest);
      assert bs[1..][1..] == bs[2..];
    }
    PercentStep(bs, rest);
  }

  lemma TwoContinuations(b1: Byte, b2: Byte, rest: string, lead: int)
    requires 0x80 <= b1 < 0xC0 && 0x80 <= b2 < 0xC0
    ensures Continuation(PercentByte(b1) + (PercentByte(b2) + rest), 2, lead)
         == Some((lead * 64 + (b1 - 0x80)) * 64 + (b2 - 0x80))
  {
    ContinuationStep(b1, PercentByte(b2) + rest, 2, lead);
    ContinuationStep(b2, rest, 1, lead * 64 + (b1 - 0x80));
  }

  lemma ThreeContinuations(b1: Byte, b2: Byte, b3: Byte, rest: string, lead: int)
    requires 0x80 <= b1 < 0xC0 && 0x80 <= b2 < 0xC0 && 0x80 <= b3 < 0xC0
    ensures Continuation(PercentByte(b1) + (PercentByte(b2) + (PercentByte(b3) + rest)), 3, lead)
         == Some(((lead * 64 + (b1 - 0x80)) * 64 + (b2 - 0x80)) * 64 + (b3 - 0x80))
  {
    ContinuationStep(b1, PercentByte(b2) + (PercentByte(b3) + rest), 3, lead);
    ContinuationStep(b2, PercentByte(b3) + rest, 2, lead * 64 + (b1 - 0x80));
    ContinuationStep(b3, rest, 1, (lead * 64 + (b1 - 0x80)) * 64 + (b2 - 0x80));
  }

  lemma PercentFour(b0: Byte, b1: Byte, b2: Byte, b3: Byte, rest: string)
    ensures Percent([b0, b1, b2, b3]) + rest
         == PercentByte(b0) + (PercentByte(b1) + (PercentByte(b2) + (PercentByte(b3) + rest)))
  {
    var bs := [b0, b1, b2, b3];
    var t3 := PercentByte(b3) + rest;
    var t2 := PercentByte(b2) + t3;
    var t1 := PercentByte(b1) + t2;
    assert Percent(bs[3..]) + rest == t3 by {
      PercentStep(bs[3..], rest);
      assert bs[3..][1..] == [];
    }
    assert Percent(bs[2..]) + rest == t2 by {
      PercentStep(bs[2..], rest);
      assert bs[2..][1..] == bs[3..];
    }
    assert Percent(bs[1..]) + rest == t1 by {
      PercentStep(bs[1..], rest);
      assert bs[1..][1..] == bs[2..];
    }
    PercentStep(bs, rest);
  }

  lemma PercentStep(bs: seq<Byte>, rest: string)
    requires bs != []
    ensures Percent(bs) + rest == PercentByte(bs[0]) + (Percent(bs[1..]) + rest)
  {
  }

  lemma DecodeFirstFour(c: char, rest: string)
    requires 0x1_0000 <= c as int
    ensures DecodeFirst(Percent(Utf8(c)) + rest) == Some((c, 12))
  {
    var b0, b1, b2, b3 := Utf8Four(c);
    PercentFour(b0, b1, b2, b3, rest);
    DecodeFourEscapes(b0, b1, b2, b3, rest, c as int);
  }

  /** Four escapes, a lead byte and three continuation bytes, decode to the code point their payload bits make up. */
  lemma DecodeFourEscapes(b0: Byte, b1: Byte, b2: Byte, b3: Byte, rest: string, v: int)
    requires 0xF0 <= b0 < 0xF8 && 0x80 <= b1 < 0xC0 && 0x80 <= b2 < 0xC0 && 0x80 <= b3 < 0xC0
    requires (((b0 - 0xF0) * 64 + (b1 - 0x80)) * 64 + (b2 - 0x80)) * 64 + (b3 - 0x80) == v && IsScalar(v)
    ensures DecodeFirst(PercentByte(b0) + (PercentByte(b1) + (PercentByte(b2) + (PercentByte(b3) + rest)))) == Some((v as char, 12))
  {
    var tail := PercentByte(b1) + (PercentByte(b2) + (PercentByte(b3) + rest));
    ThreeContinuations(b1, b2, b3, rest, b0 - 0xF0);
    DecodeFirstMulti(b0, tail, 4, v);
  }

  /** The four bytes of a code point above the Basic Multilingual Plane: a lead byte and three continuation bytes whose payload bits make up the code point. */
  lemma Utf8Four(c: char) returns (b0: Byte, b1: Byte, b2: Byte, b3: Byte)
    requires 0x1_0000 <= c as int
    ensures Utf8(c) == [b0, b1, b2, b3]
    ensures 0xF0 <= b0 < 0xF8 && 0x80 <= b1 < 0xC0 && 0x80 <= b2 < 0xC0 && 0x80 <= b3 < 0xC0
    ensures (((b0 - 0xF0) * 64 + (b1 - 0x80)) * 64 + (b2 - 0x80)) * 64 + (b3 - 0x80) == c as int
  {
    var cp := c as int;
    assert cp < 0x11_0000;
    b0, b1, b2, b3 := 0xF0 + cp / 262144, 0x80 + cp / 4096 % 64, 0x80 + cp / 64 % 64, 0x80 + cp % 64;
    FourByteArithmetic(cp);
  }

  lemma DecodeFirstOne(c: char, rest: string)
    requires c as int < 0x80
    ensures DecodeFirst(Percent(Utf8(c)) + rest) == Some((c, 3))
  {
    var b: Byte := c as int;
    assert Utf8(c) == [b];
    PercentStep([b], rest);
    assert [b][1..] == [];
    DecodePercentByte(b, rest);
  }

  /** Each encoded character decodes back to itself. */
  lemma DecodeFirstEncodeChar(c: char, rest: string)
    ensures DecodeFirst(EncodeChar(c) + rest) == Some((c, |EncodeChar(c)|))
  {
    var cp := c as int;
    if Unreserved(c) {
    } else if cp < 0x80 {
      DecodeFirstOne(c, rest);
    } else if cp < 0x800 {
      DecodeFirstTwo(c, rest);
    } else if cp < 0x1_0000 {
      DecodeFirstThree(c, rest);
    } else {
      DecodeFirstFour(c, rest);
    }
  }

  /** Decoding undoes `encodeURIComponent`, so distinct texts never encode alike. */
  lemma {:induction false} DecodeEncode(s: string)
    ensures Decode(Encode(s)) == Some(s)
  {
    if s != [] {
      var head, tail := EncodeChar(s[0]), Encode(s[1..]);
      var t := Encode(s);
      assert t == head + tail;
      DecodeFirstEncodeChar(s[0], tail);
      assert t[|head|..] == tail;
      DecodeEncode(s[1..]);
      assert Decode(t) == Some([s[0]] + s[1..]);
      assert [s[0]] + s[1..] == s;
    }
  }

  lemma EncodeInjective(a: string, b: string)
    requires Encode(a) == Encode(b)
    ensures a == b
  {
    DecodeEncode(a);
    DecodeEncode(b);
  }

  // ---------------------------------------------------------------------------
  // buildQueryString
  // ---------------------------------------------------------------------------

  /** A JavaScript value passed as a query parameter. */
  datatype ParamValue = Undefined | Null | Str(s: string) | Num(n: int) | Bool(b: bool)

  /** The filter's test: `value !== null && value !== undefined && value !== ""`; `0` and `false` are kept. */
  predicate Kept(v: ParamValue) {
    !v.Undefined? && !v.Null? && v != Str("")
  }

  /** `String(value)`, the text a template literal makes of the value. */
  function Render(v: ParamValue): string {
    match v
    case Undefined => "undefined"
    case Null => "null"
    case Str(s) => s
    case Num(n) => IntToString(n)
    case Bool(b) => if b then "true" else "false"
  }

  type Entry = (string, ParamValue)

  /** The entries that survive the filter, in their order. */
  function KeptEntries(entries: seq<Entry>): (r: seq<Entry>)
    ensures |r| <= |entries|
  {
    if entries == [] then []
    else (if Kept(entries[0].1) then [entries[0]] else []) + KeptEntries(entries[1..])
  }

  /** The kept entries are exactly the entries the filter lets through. */
  lemma {:induction false} KeptEntriesMembers(entries: seq<Entry>, e: Entry)
    ensures e in KeptEntries(entries) <==> e in entries && Kept(e.1)
  {
    if entries != [] {
      KeptEntriesMembers(entries[1..], e);
      assert entries == [entries[0]] + entries[1..];
    }
  }

  /** `${encodeURIComponent(key)}=${encodeURIComponent(value)}` */
  function Pair(e: Entry): (r: string)
    ensures '&' !in r
  {
    EncodeLacks(e.0, '&');
    EncodeLacks(Render(e.1), '&');
    Encode(e.0) + "=" + Encode(Render(e.1))
  }

  function Pairs(entries: seq<Entry>): (r: seq<string>)
    ensures |r| == |entries|
    ensures forall i | 0 <= i < |r| :: r[i] == Pair(entries[i])
  {
    if entries == [] then [] else [Pair(entries[0])] + Pairs(entries[1..])
  }

  /** `parts.join(sep)` */
  function Join(parts: seq<string>, sep: char): string {
    if parts == [] then []
    else if |parts| == 1 then parts[0]
    else parts[0] + [sep] + Join(parts[1..], sep)
  }

  /**
   * `buildQueryString`: `""` for a missing parameter object or one whose
   * entries are all dropped, and otherwise `?` followed by the kept entries'
   * encoded `key=value` pairs joined with `&`.
   */
  function BuildQueryString(params: Option<seq<Entry>>): (r: string)
    ensures r == "" <==> params.None? || KeptEntries(params.value) == []
    ensures r != "" ==> r[0] == '?'
  {
    if params.None? || |params.value| == 0 then ""
    else
      var kept := KeptEntries(params.value);
      var qs := Join(Pairs(kept), '&');
      assert kept != [] ==> qs != [] by {
        if kept != [] { assert '=' in Pair(kept[0]); }
      }
      if qs != "" then "?" + qs else ""
  }

  // Reading a query string back: the partner of `BuildQueryString`.

  /** `s.split(sep)` */
  function Split(s: string, sep: char): (r: seq<string>)
    ensures |r| >= 1
  {
    if s == [] then [[]]
    else
      var rest := Split(s[1..], sep);
      if s[0] == sep then [[]] + rest else [[s[0]] + rest[0]] + rest[1..]
  }

  /** The position of the first `c` in `s`, or `|s|` when there is none. */
  function FirstIndex(s: string, c: char): (i: nat)
    ensures i <= |s| && c !in s[..i]
    ensures i < |s| ==> s[i] == c
  {
    if s == [] then 0
    else if s[0] == c then 0
    else
      var i := 1 + FirstIndex(s[1..], c);
      assert s[..i] == [s[0]] + s[1..][..i - 1];
      i
  }

  /** A `key=value` pair, decoded; the key ends at the first `=`. */
  function ParsePair(p: string): Option<(string, string)> {
    var i := FirstIndex(p, '=');
    if i == |p| then None
    else match (Decode(p[..i]), Decode(p[i + 1..]))
      case (Some(k), Some(v)) => Some((k, v))
      case _ => None
  }

  function ParsePairs(ps: seq<string>): Option<seq<(string, string)>> {
    if ps == [] then Some([])
    else match (ParsePair(ps[0]), ParsePairs(ps[1..]))
      case (Some(kv), Some(rest)) => Some([kv] + rest)
      case _ => None
  }

  /** Reads a query string into its decoded key/value pairs. */
  function ParseQuery(q: string): Option<seq<(string, string)>> {
    if q == "" then Some([])
    else if q[0] != '?' then None
    else ParsePairs(Split(q[1..], '&'))
  }

  /** The key/value texts a list of entries stands for. */
  function Rendered(entries: seq<Entry>): (r: seq<(string, string)>)
    ensures |r| == |entries|
  {
    if entries == [] then [] else [(entries[0].0, Render(entries[0].1))] + Rendered(entries[1..])
  }

  lemma {:induction false} SplitNoSep(a: string, t: string, sep: char)
    requires sep !in a
    ensures Split(a + t, sep) == [a + Split(t, sep)[0]] + Split(t, sep)[1..]
  {
    if a != [] {
      assert (a + t)[1..] == a[1..] + t;
      SplitNoSep(a[1..], t, sep);
      assert [a[0]] + (a[1..] + Split(t, sep)[0]) == a + Split(t, sep)[0];
    } else {
      assert a + t == t;
      var r := Split(t, sep);
      assert r == [r[0]] + r[1..];
      assert a + r[0] == r[0];
    }
  }

  lemma {:induction false} SplitJoin(parts: seq<string>, sep: char)
    requires |parts| >= 1 && forall i | 0 <= i < |parts| :: sep !in parts[i]
    ensures Split(Join(parts, sep), sep) == parts
  {
    if |parts| == 1 {
      SplitNoSep(parts[0], [], sep);
      assert parts[0] + [] == parts[0];
    } else {
      var rest := Join(parts[1..], sep);
      SplitJoin(parts[1..], sep);
      assert parts[0] + [sep] + rest == parts[0] + ([sep] + rest);
      SplitNoSep(parts[0], [sep] + rest, sep);
      assert ([sep] + rest)[1..] == rest;
      assert parts[0] + [] == parts[0];
      assert parts == [parts[0]] + parts[1..];
    }
  }

  lemma ParsePairOfPair(e: Entry)
    ensures ParsePair(Pair(e)) == Some((e.0, Render(e.1)))
  {
    var k, v := Encode(e.0), Encode(Render(e.1));
    EncodeLacks(e.0, '=');
    SplitAtEquals(k, v);
    assert Pair(e) == k + "=" + v;
    DecodeEncode(e.0);
    DecodeEncode(Render(e.1));
  }

  /** Encoded text holds no character outside the unreserved set and `%`. */
  lemma EncodeLacks(s: string, c: char)
    requires !Encoded(c)
    ensures c !in Encode(s)
  {
    var r := Encode(s);
    assert forall i | 0 <= i < |r| :: Encoded(r[i]);
  }

  /** A key without `=` is cut off exactly at the `=` that follows it. */
  lemma SplitAtEquals(k: string, v: string)
    requires '=' !in k
    ensures var p := k + "=" + v;
            FirstIndex(p, '=') == |k| && p[..|k|] == k && p[|k| + 1..] == v
  {
    var p := k + "=" + v;
    assert p == k + ("=" + v);
    FirstIndexPast(k, "=" + v, '=');
  }

  /** Scanning past a stretch without `c` adds its length to the position found. */
  lemma {:induction false} FirstIndexPast(a: string, t: string, c: char)
    requires c !in a
    ensures FirstIndex(a + t, c) == |a| + FirstIndex(t, c)
  {
    if a != [] {
      assert (a + t)[1..] == a[1..] + t;
      FirstIndexPast(a[1..], t, c);
    } else {
      assert a + t == t;
    }
  }

  lemma {:induction false} ParsePairsOfPairs(entries: seq<Entry>)
    ensures ParsePairs(Pairs(entries)) == Some(Rendered(entries))
  {
    if entries != [] {
      ParsePairOfPair(entries[0]);
      ParsePairsOfPairs(entries[1..]);
      assert Pairs(entries)[1..] == Pairs(entries[1..]);
    }
  }

  /**
   * Reading the query string back gives exactly the kept entries, in order,
   * with their keys and rendered values: nothing is lost, reordered or
   * merged by the encoding or the `&`/`=` separators.
   */
  lemma QueryStringRoundTrip(params: Option<seq<Entry>>)
    ensures ParseQuery(BuildQueryString(params)) ==
              Some(if params.None? then [] else Rendered(KeptEntries(params.value)))
  {
    if params.Some? && KeptEntries(params.value) != [] {
      var kept := KeptEntries(params.value);
      SplitJoin(Pairs(kept), '&');
      ParsePairsOfPairs(kept);
      var q := BuildQueryString(params);
      assert q[1..] == Join(Pairs(kept), '&');
    }
  }

  // ---------------------------------------------------------------------------
  // Routes
  // ---------------------------------------------------------------------------

  const GetAllPostsRoute := "/api/v1/posts"
  const CreatePostRoute := "/api/v1/posts"

  /** The options of `getPaginatedPostsRoute`; `Undefined` marks an option not given. */
  datatype PageFilters = PageFilters(page: ParamValue, limit: ParamValue, search: ParamValue,
                                     author: ParamValue, sortBy: ParamValue)

  /** A destructuring default: it replaces `undefined` only, not `null`. */
  function WithDefault(v: ParamValue, d: ParamValue): ParamValue {
    if v.Undefined? then d else v
  }

  function PageEntries(f: PageFilters): (r: seq<Entry>)
    ensures |r| == 5
  {
    [("page", WithDefault(f.page, Num(1))), ("limit", WithDefault(f.limit, Num(10))),
     ("search", WithDefault(f.search, Str(""))), ("author", WithDefault(f.author, Str(""))),
     ("sortBy", WithDefault(f.sortBy, Str("newest")))]
  }

  /**
   * `getPaginatedPostsRoute`: the posts route followed by the query string
   * of the five options with their defaults; it always carries a query string,
   * since `page` cannot be dropped unless it was given as `null` or `""`.
   */
  function PaginatedPostsRoute(f: PageFilters): (r: string)
    ensures |r| >= |GetAllPostsRoute| && r[..|GetAllPostsRoute|] == GetAllPostsRoute
    ensures f.page.Undefined? ==> r[|GetAllPostsRoute|..] != "" && r[|GetAllPostsRoute|] == '?'
  {
    var q := BuildQueryString(Some(PageEntries(f)));
    KeptEntriesMembers(PageEntries(f), PageEntries(f)[0]);
    GetAllPostsRoute + q
  }

  /** The query string of the paginated route reads back as the options that survive the filter. */
  lemma PaginatedRouteQuery(f: PageFilters)
    ensures ParseQuery(PaginatedPostsRoute(f)[|GetAllPostsRoute|..]) == Some(Rendered(KeptEntries(PageEntries(f))))
  {
    QueryStringRoundTrip(Some(PageEntries(f)));
    assert PaginatedPostsRoute(f)[|GetAllPostsRoute|..] == BuildQueryString(Some(PageEntries(f)));
  }

  /** With no options the route asks for page 1 of 10 posts, newest first; the empty search and author are left out. */
  lemma PaginatedRouteDefaults(f: PageFilters)
    requires f.page.Undefined? && f.limit.Undefined? && f.search.Undefined? && f.author.Undefined? && f.sortBy.Undefined?
    ensures ParseQuery(PaginatedPostsRoute(f)[|GetAllPostsRoute|..])
         == Some([("page", "1"), ("limit", "10"), ("sortBy", "newest")])
  {
    PaginatedRouteQuery(f);
    DefaultEntriesKept(f);
    RenderedDefaults();
  }

  lemma DefaultEntriesKept(f: PageFilters)
    requires f.page.Undefined? && f.limit.Undefined? && f.search.Undefined? && f.author.Undefined? && f.sortBy.Undefined?
    ensures KeptEntries(PageEntries(f)) == [("page", Num(1)), ("limit", Num(10)), ("sortBy", Str("newest"))]
  {
    var e := PageEntries(f);
    assert !Kept(e[2].1) && !Kept(e[3].1) && Kept(e[0].1) && Kept(e[1].1) && Kept(e[4].1);
    FiveKept(e[0], e[1], e[2], e[3], e[4]);
    assert e == [e[0], e[1], e[2], e[3], e[4]];
  }

  lemma FiveKept(p: Entry, l: Entry, se: Entry, au: Entry, s: Entry)
    requires Kept(p.1) && Kept(l.1) && !Kept(se.1) && !Kept(au.1) && Kept(s.1)
    ensures KeptEntries([p, l, se, au, s]) == [p, l, s]
  {
    KeptCons(s, []);
    KeptCons(au, [s]);
    assert [au] + [s] == [au, s];
    KeptCons(se, [au, s]);
    assert [se] + [au, s] == [se, au, s];
    KeptCons(l, [se, au, s]);
    assert [l] + [se, au, s] == [l, se, au, s];
    KeptCons(p, [l, se, au, s]);
    assert [p] + [l, se, au, s] == [p, l, se, au, s];
  }

  lemma KeptCons(x: Entry, rest: seq<Entry>)
    ensures KeptEntries([x] + rest) == (if Kept(x.1) then [x] else []) + KeptEntries(rest)
  {
    assert ([x] + rest)[1..] == rest;
  }

  lemma RenderedDefaults()
    ensures Rendered([("page", Num(1)), ("limit", Num(10)), ("sortBy", Str("newest"))])
         == [("page", "1"), ("limit", "10"), ("sortBy", "newest")]
  {
    var l := [("page", Num(1)), ("limit", Num(10)), ("sortBy", Str("newest"))];
    assert IntToString(1) == "1";
    assert IntToString(10) == "10" by {
      assert NatToString(10) == NatToString(1) + [DigitChar(0)];
    }
    assert l[1..][1..][1..] == [];
    assert Rendered(l[1..][1..]) == [("sortBy", "newest")];
    assert Rendered(l[1..]) == [("limit", "10"), ("sortBy", "newest")];
  }

  function PostByIdRoute(postId: string): string { "/api/v1/posts/" + postId }
  function UpdatePostRoute(postId: string): string { "/api/v1/posts/" + postId }
  function DeletePostRoute(postId: string): string { "/api/v1/posts/" + postId }
  function GetCommentsRoute(postId: string): string { "/api/v1/comments/" + postId + "/comments" }
  function AddCommentRoute(postId: string): string { "/api/v1/comments/" + postId + "/comments" }
  function UpdateCommentRoute(postId: string, commentId: string): string {
    "/api/v1/comments/" + postId + "/comments/" + commentId
  }
  function DeleteCommentRoute(postId: string, commentId: string): string {
    "/api/v1/comments/" + postId + "/comments/" + commentId
  }
  function ToggleLikeRoute(postId: string): string { "/api/v1/likes/" + postId + "/like" }
  function PostLikesRoute(postId: string): string { "/api/v1/likes/" + postId + "/likes" }

  /** A post route names exactly one post: different ids give different routes. */
  lemma PostRouteInjective(a: string, b: string)
    ensures PostByIdRoute(a) == PostByIdRoute(b) <==> a == b
    ensures UpdatePostRoute(a) == PostByIdRoute(a) && DeletePostRoute(a) == PostByIdRoute(a)
  {
    var p := "/api/v1/posts/";
    if PostByIdRoute(a) == PostByIdRoute(b) {
      assert a == PostByIdRoute(a)[|p|..];
      assert b == PostByIdRoute(b)[|p|..];
    }
  }

  /** The comment routes of two posts differ, and the like routes of two posts differ. */
  lemma PostScopedRoutesInjective(a: string, b: string)
    ensures GetCommentsRoute(a) == GetCommentsRoute(b) <==> a == b
    ensures ToggleLikeRoute(a) == ToggleLikeRoute(b) <==> a == b
    ensures AddCommentRoute(a) == GetCommentsRoute(a)
  {
    if GetCommentsRoute(a) == GetCommentsRoute(b) {
      var pre := "/api/v1/comments/";
      assert |a| == |b|;
      assert a == GetCommentsRoute(a)[|pre|..|pre| + |a|];
      assert b == GetCommentsRoute(b)[|pre|..|pre| + |b|];
    }
    if ToggleLikeRoute(a) == ToggleLikeRoute(b) {
      var pre := "/api/v1/likes/";
      assert |a| == |b|;
      assert a == ToggleLikeRoute(a)[|pre|..|pre| + |a|];
      assert b == ToggleLikeRoute(b)[|pre|..|pre| + |b|];
    }
  }

  /** The toggle route of one post is never the likes-list route of any post: one ends in `e`, the other in `s`. */
  lemma LikeRoutesNeverClash(a: string, b: string)
    ensures ToggleLikeRoute(a) != PostLikesRoute(b)
  {
    var t, l := ToggleLikeRoute(a), PostLikesRoute(b);
    assert t[|t| - 1] == 'e' && l[|l| - 1] == 's';
  }

  /**
   * A comment route names one comment of one post, provided the ids hold no
   * `/` (otherwise `a/comments/b` + `c` and `a` + `b/comments/c` collide).
   */
  lemma CommentRouteInjective(p1: string, c1: string, p2: string, c2: string)
    requires '/' !in p1 && '/' !in p2
    ensures UpdateCommentRoute(p1, c1) == UpdateCommentRoute(p2, c2) <==> p1 == p2 && c1 == c2
    ensures DeleteCommentRoute(p1, c1) == UpdateCommentRoute(p1, c1)
  {
    var pre := "/api/v1/comments/";
    var t1, t2 := p1 + "/comments/" + c1, p2 + "/comments/" + c2;
    assert UpdateCommentRoute(p1, c1) == pre + t1;
    assert UpdateCommentRoute(p2, c2) == pre + t2;
    if pre + t1 == pre + t2 {
      CancelPrefix(pre, t1, t2);
      SplitAtSlash(p1, c1);
      SplitAtSlash(p2, c2);
    }
  }

  lemma CancelPrefix(a: string, x: string, y: string)
    requires a + x == a + y
    ensures x == y
  {
    assert x == (a + x)[|a|..];
    assert y == (a + y)[|a|..];
  }

  lemma SplitAtSlash(p: string, c: string)
    requires '/' !in p
    ensures FirstIndex(p + "/comments/" + c, '/') == |p|
    ensures (p + "/comments/" + c)[..|p|] == p && (p + "/comments/" + c)[|p| + 10..] == c
  {
    assert p + "/comments/" + c == p + ("/comments/" + c);
    FirstIndexPast(p, "/comments/" + c, '/');
  }
}
