/**
 * The URL-parameter stores of frontend/src/lib/stores/param.js. A parameter
 * reads as `fn(searchParams.get(name)) || default`; `set(v)` navigates to the
 * same page with that one parameter replaced, unless the current value
 * already compares loosely equal to `v`. The JavaScript values, conversions
 * and comparisons involved are written out after ECMA-262; the query is the
 * ordered pair list of the WHATWG URL Standard's URLSearchParams.
 */
module Params {
  import opened Wrappers

  // ---------------------------------------------------------------- values

  /** The JavaScript values a decoder can produce or `set` can be given. */
  datatype JsValue = Null | Undefined | Bool(b: bool) | Num(n: int) | NaN | Str(s: string) | Arr(items: seq<string>)

  /** ToBoolean (ECMA-262 section 7.1.2); every array is truthy, even an empty one. */
  predicate Truthy(v: JsValue)
  {
    match v
    case Null => false
    case Undefined => false
    case Bool(b) => b
    case Num(n) => n != 0
    case NaN => false
    case Str(s) => s != ""
    case Arr(_) => true
  }

  /** The decimal digits of a natural number, most significant first. */
  function Decimal(n: nat): (r: string)
    ensures |r| > 0 && forall i :: 0 <= i < |r| ==> '0' <= r[i] <= '9'
    decreases n
  {
    var d := [(('0' as int) + n % 10) as char];
    if n < 10 then d else Decimal(n / 10) + d
  }

  /** `value.join(',')` for strings. */
  function Join(parts: seq<string>, sep: string): string
  {
    if parts == [] then "" else if |parts| == 1 then parts[0] else parts[0] + sep + Join(parts[1..], sep)
  }

  /** ToString (ECMA-262 section 7.1.17), as `URLSearchParams.set` converts its value. */
  function ToString(v: JsValue): string
  {
    match v
    case Null => "null"
    case Undefined => "undefined"
    case Bool(b) => if b then "true" else "false"
    case Num(n) => if n < 0 then "-" + Decimal(-n) else Decimal(n)
    case NaN => "NaN"
    case Str(s) => s
    case Arr(items) => Join(items, ",")
  }

  /** StrWhiteSpaceChar: the white space and line terminators of ECMA-262 sections 12.2 and 12.3. */
  predicate IsJsSpace(c: char)
  {
    || c == '\t' || c == '\n' || c == '\U{000B}' || c == '\U{000C}' || c == '\r' || c == ' '
    || c == '\U{00A0}' || c == '\U{1680}' || ('\U{2000}' <= c <= '\U{200A}')
    || c == '\U{2028}' || c == '\U{2029}' || c == '\U{202F}' || c == '\U{205F}' || c == '\U{3000}' || c == '\U{FEFF}'
  }

  function TrimStart(s: string): (r: string)
    ensures |r| <= |s| && r == s[|s| - |r|..]
    ensures r == [] || !IsJsSpace(r[0])
  {
    if s != [] && IsJsSpace(s[0]) then TrimStart(s[1..]) else s
  }

  function TrimEnd(s: string): (r: string)
    ensures |r| <= |s| && r == s[..|r|]
    ensures r == [] || !IsJsSpace(r[|r| - 1])
  {
    if s != [] && IsJsSpace(s[|s| - 1]) then TrimEnd(s[..|s| - 1]) else s
  }

  /** The value of a digit in the given radix (at most 16), if it is one. */
  function DigitValue(c: char, radix: nat): (r: Option<nat>)
    ensures r.Some? ==> r.value < radix
  {
    var v: int :=
      if '0' <= c <= '9' then c as int - '0' as int
      else if 'a' <= c <= 'f' then c as int - 'a' as int + 10
      else if 'A' <= c <= 'F' then c as int - 'A' as int + 10
      else radix;
    if 0 <= v < radix then Some(v) else None
  }

  /** The length of the longest prefix of radix digits. */
  function DigitsPrefix(s: string, radix: nat): (n: nat)
    ensures n <= |s| && forall i :: 0 <= i < n ==> DigitValue(s[i], radix).Some?
    ensures n < |s| ==> DigitValue(s[n], radix).None?
  {
    if s == [] || DigitValue(s[0], radix).None? then 0 else 1 + DigitsPrefix(s[1..], radix)
  }

  predicate AllDigits(s: string, radix: nat)
  {
    forall i :: 0 <= i < |s| ==> DigitValue(s[i], radix).Some?
  }

  /** The number a digit string denotes. */
  function DigitsValue(s: string, radix: nat): nat
    requires AllDigits(s, radix)
  {
    if s == [] then 0
    else
      var p := DigitsValue(s[..|s| - 1], radix);
      MulNonNegative(p, radix);
      p * radix + DigitValue(s[|s| - 1], radix).value
  }

  lemma MulNonNegative(a: nat, b: nat)
    ensures a * b >= 0
  {
  }

  /** `parseInt(string)` without a radix (ECMA-262 section 19.2.5): leading white
      space, a sign, an optional `0x` prefix, then the longest digit prefix;
      no digits is NaN. */
  function ParseInt(s: string): JsValue
  {
    var t := TrimStart(s);
    if t != [] && t[0] == '-' then Negate(ParseUnsigned(t[1..]))
    else if t != [] && t[0] == '+' then ParseUnsigned(t[1..])
    else ParseUnsigned(t)
  }

  /** After the sign: a `0x` or `0X` prefix selects radix 16. */
  function ParseUnsigned(u: string): JsValue
  {
    if |u| >= 2 && u[0] == '0' && (u[1] == 'x' || u[1] == 'X') then ParseDigits(u[2..], 16) else ParseDigits(u, 10)
  }

  /** The longest digit prefix, NaN when it is empty. */
  function ParseDigits(w: string, radix: nat): (r: JsValue)
    ensures r.NaN? || (r.Num? && r.n >= 0)
  {
    var n := DigitsPrefix(w, radix);
    if n == 0 then NaN else Num(DigitsValue(w[..n], radix))
  }

  function Negate(v: JsValue): JsValue
  {
    if v.Num? then Num(-v.n) else v
  }

  // ---------------------------------------------------------------- number conversion of strings

  /** The result of StringToNumber, with finite values exact. */
  datatype Numeric = Finite(x: real) | PosInf | NegInf | NotANumber

  function Pow10(k: nat): (r: real)
    ensures r >= 1.0
  {
    if k == 0 then 1.0 else 10.0 * Pow10(k - 1)
  }

  /** An unsigned decimal literal `digits [. digits] [(e|E) [sign] digits]`,
      or one starting with the point. */
  function DecimalLiteral(s: string): Option<real>
  {
    var a := DigitsPrefix(s, 10);
    var intPart := s[..a];
    var rest := s[a..];
    var hasPoint := rest != [] && rest[0] == '.';
    var afterPoint := if hasPoint then rest[1..] else rest;
    var b := if hasPoint then DigitsPrefix(afterPoint, 10) else 0;
    var frac := afterPoint[..b];
    var tail := afterPoint[b..];
    if a + b == 0 then None
    else
      var mantissa := (DigitsValue(intPart, 10) as real) + (DigitsValue(frac, 10) as real) / Pow10(b);
      if tail == [] then Some(mantissa)
      else if tail[0] != 'e' && tail[0] != 'E' then None
      else
        var e := tail[1..];
        var negExp := e != [] && e[0] == '-';
        var ed := if e != [] && (e[0] == '-' || e[0] == '+') then e[1..] else e;
        if ed == [] || DigitsPrefix(ed, 10) != |ed| then None
        else
          var k := DigitsValue(ed, 10);
          Some(if negExp then mantissa / Pow10(k) else mantissa * Pow10(k))
  }

  /** StringToNumber (ECMA-262 section 7.1.4.1.1): white space around a
      StringNumericLiteral is ignored and the empty string is 0. */
  function StringToNumber(s: string): Numeric
  {
    var t := TrimEnd(TrimStart(s));
    var negative := t != [] && t[0] == '-';
    var signed := t != [] && (t[0] == '-' || t[0] == '+');
    var u := if signed then t[1..] else t;
    if t == [] then Finite(0.0)
    else if u == "Infinity" then (if negative then NegInf else PosInf)
    else if !signed && |u| > 2 && u[0] == '0' && (u[1] in "xXoObB") then
      var radix := if u[1] in "xX" then 16 else if u[1] in "oO" then 8 else 2;
      if DigitsPrefix(u[2..], radix) == |u| - 2 then Finite(DigitsValue(u[2..], radix) as real) else NotANumber
    else
      match DecimalLiteral(u)
      case None => NotANumber
      case Some(x) => Finite(if negative then -x else x)
  }

  /** `raw == v` for the value `searchParams.get` returned (a string or null):
      the loose equality of ECMA-262 section 7.2.15. */
  predicate LooseEquals(raw: Option<string>, v: JsValue)
  {
    match raw
    case None => v.Null? || v.Undefined?
    case Some(s) =>
      match v
      case Null => false
      case Undefined => false
      case Str(t) => s == t
      case Num(n) => StringToNumber(s) == Finite(n as real)
      case NaN => false
      case Bool(b) => StringToNumber(s) == Finite(if b then 1.0 else 0.0)
      case Arr(items) => s == Join(items, ",")
  }

  // ---------------------------------------------------------------- the query

  /** A URLSearchParams list: name/value pairs in order, names possibly repeated. */
  type Query = seq<(string, string)>

  /** `get(name)`: the value of the first pair with that name, or null. */
  function Get(q: Query, name: string): (r: Option<string>)
    ensures r.None? <==> forall i :: 0 <= i < |q| ==> q[i].0 != name
    ensures r.Some? ==> exists i :: 0 <= i < |q| && q[i] == (name, r.value) && forall j :: 0 <= j < i ==> q[j].0 != name
  {
    if q == [] then None
    else if q[0].0 == name then Some(q[0].1)
    else
      var r := Get(q[1..], name);
      assert forall i :: 0 < i < |q| ==> q[i] == q[1..][i - 1];
      r
  }

  /** The pairs whose name is not `name`, in order. */
  function Without(q: Query, name: string): Query
  {
    if q == [] then []
    else if q[0].0 == name then Without(q[1..], name)
    else [q[0]] + Without(q[1..], name)
  }

  /** `set(name, value)` of the URLSearchParams interface (WHATWG URL Standard,
      section 6.2): the first pair with that name takes the value and the other
      pairs with that name are removed; with no such pair, one is appended. */
  function SetPair(q: Query, name: string, value: string): Query
  {
    if q == [] then [(name, value)]
    else if q[0].0 == name then [(name, value)] + Without(q[1..], name)
    else [q[0]] + SetPair(q[1..], name, value)
  }

  /** After `set`, the parameter reads back the value, and exactly one pair carries it. */
  lemma {:induction false} SetPairGet(q: Query, name: string, value: string)
    ensures Get(SetPair(q, name, value), name) == Some(value)
    ensures Without(SetPair(q, name, value), name) == Without(q, name)
  {
    if q != [] {
      if q[0].0 == name {
        WithoutTwice(q[1..], name);
      } else {
        SetPairGet(q[1..], name, value);
      }
    }
  }

  lemma {:induction false} WithoutTwice(q: Query, name: string)
    ensures Without(Without(q, name), name) == Without(q, name)
  {
    if q != [] {
      WithoutTwice(q[1..], name);
      if q[0].0 != name {
        assert Without(q, name) == [q[0]] + Without(q[1..], name);
        assert ([q[0]] + Without(q[1..], name))[1..] == Without(q[1..], name);
      }
    }
  }

  /** Every other parameter keeps its pairs, values and order. */
  lemma {:induction false} SetPairKeepsOthers(q: Query, name: string, value: string, other: string)
    requires other != name
    ensures Get(SetPair(q, name, value), other) == Get(q, other)
    ensures Without(Without(SetPair(q, name, value), name), other) == Without(Without(q, name), other)
  {
    SetPairGet(q, name, value);
    if q != [] {
      if q[0].0 == name {
        GetWithout(q[1..], name, other);
      } else {
        SetPairKeepsOthers(q[1..], name, value, other);
      }
    }
  }

  lemma {:induction false} GetWithout(q: Query, name: string, other: string)
    requires other != name
    ensures Get(Without(q, name), other) == Get(q, other)
  {
    if q != [] {
      GetWithout(q[1..], name, other);
      if q[0].0 != name {
        assert ([q[0]] + Without(q[1..], name))[1..] == Without(q[1..], name);
      }
    }
  }

  /** What the store's `set(v)` does: nothing when the current value already
      compares loosely equal to `v` (line 10), else navigation to the query
      with the parameter set to ToString(v) (lines 11-13). */
  function Set(q: Query, name: string, v: JsValue): (r: Option<Query>)
    ensures r.None? <==> LooseEquals(Get(q, name), v)
    ensures r.Some? ==> Get(r.value, name) == Some(ToString(v))
  {
    if LooseEquals(Get(q, name), v) then None
    else
      SetPairGet(q, name, ToString(v));
      Some(SetPair(q, name, ToString(v)))
  }

  // ---------------------------------------------------------------- decoders

  /** `fn($page.url.searchParams.get(param)) || defaultVal`. */
  function Decode(decoded: JsValue, default: JsValue): (r: JsValue)
    ensures Truthy(decoded) ==> r == decoded
    ensures !Truthy(decoded) ==> r == default
  {
    if Truthy(decoded) then decoded else default
  }

  /** The raw query value as a JavaScript value (null when absent). */
  function Raw(raw: Option<string>): JsValue
  {
    if raw.Some? then Str(raw.value) else Null
  }

  /** createParam with the identity decoder. */
  function DecodePlain(raw: Option<string>, default: JsValue): JsValue
  {
    Decode(Raw(raw), default)
  }

  /** createIntParam: `parseInt` of the raw value; `parseInt(null)` reads "null". */
  function DecodeInt(raw: Option<string>, default: JsValue): JsValue
  {
    Decode(ParseInt(ToString(Raw(raw))), default)
  }

  /** createBoolParam: `v && v == "true"`. */
  function DecodeBool(raw: Option<string>, default: JsValue): JsValue
  {
    var decoded := if raw.None? then Null else if raw.value == "" then Str("") else Bool(raw.value == "true");
    Decode(decoded, default)
  }

  /** `String.prototype.split` with a string separator: the empty separator
      splits into single characters; otherwise the text between occurrences,
      found left to right without overlap. */
  predicate OccursAt(s: string, sep: string, j: nat)
  {
    j + |sep| <= |s| && s[j..j + |sep|] == sep
  }

  function Find(s: string, sep: string): (r: Option<nat>)
    requires |sep| > 0
    ensures r.Some? ==> OccursAt(s, sep, r.value) && forall j :: 0 <= j < r.value ==> !OccursAt(s, sep, j)
    ensures r.None? ==> forall j :: 0 <= j <= |s| ==> !OccursAt(s, sep, j)
    decreases |s|
  {
    if |s| < |sep| then None
    else if s[..|sep|] == sep then Some(0)
    else
      match Find(s[1..], sep)
      case None =>
        assert forall j :: 1 <= j <= |s| ==> (OccursAt(s, sep, j) ==> OccursAt(s[1..], sep, j - 1)) by {
          forall j | 1 <= j <= |s| && OccursAt(s, sep, j) ensures OccursAt(s[1..], sep, j - 1) {
            assert s[1..][j - 1..j - 1 + |sep|] == s[j..j + |sep|];
          }
        }
        None
      case Some(k) =>
        assert OccursAt(s, sep, k + 1) by {
          assert s[1..][k..k + |sep|] == s[k + 1..k + 1 + |sep|];
        }
        assert forall j :: 1 <= j < k + 1 ==> !OccursAt(s, sep, j) by {
          forall j | 1 <= j < k + 1 && OccursAt(s, sep, j) ensures false {
            assert s[1..][j - 1..j - 1 + |sep|] == s[j..j + |sep|];
            assert OccursAt(s[1..], sep, j - 1);
          }
        }
        Some(k + 1)
  }

  function Split(s: string, sep: string): (r: seq<string>)
  {
    if sep == [] then seq(|s|, i requires 0 <= i < |s| => [s[i]]) else SplitOn(s, sep)
  }

  /** The pieces between the occurrences of a non-empty separator. */
  function SplitOn(s: string, sep: string): (r: seq<string>)
    requires |sep| > 0
    ensures |r| > 0
    decreases |s|
  {
    match Find(s, sep)
    case None => [s]
    case Some(i) => [s[..i]] + SplitOn(s[i + |sep|..], sep)
  }

  /** Splitting and joining again gives back the text. */
  lemma {:induction false} SplitJoin(s: string, sep: string)
    requires |sep| > 0
    ensures Join(SplitOn(s, sep), sep) == s
    decreases |s|
  {
    match Find(s, sep)
    case None =>
    case Some(i) =>
      var rest := s[i + |sep|..];
      var tail := SplitOn(rest, sep);
      SplitJoin(rest, sep);
      JoinCons(s[..i], tail, sep);
      assert s == s[..i] + s[i..i + |sep|] + rest;
  }

  lemma JoinCons(head: string, tail: seq<string>, sep: string)
    requires tail != []
    ensures Join([head] + tail, sep) == head + sep + Join(tail, sep)
  {
    assert ([head] + tail)[1..] == tail;
  }

  /** No piece of a split contains the separator. */
  lemma {:induction false} SplitPiecesClean(s: string, sep: string, k: nat)
    requires |sep| > 0 && k < |SplitOn(s, sep)|
    ensures forall j :: 0 <= j <= |SplitOn(s, sep)[k]| ==> !OccursAt(SplitOn(s, sep)[k], sep, j)
    decreases |s|
  {
    match Find(s, sep)
    case None =>
    case Some(i) =>
      if k == 0 {
        forall j | 0 <= j <= i && OccursAt(s[..i], sep, j) ensures OccursAt(s, sep, j) {
          assert s[..i][j..j + |sep|] == s[j..j + |sep|];
        }
      } else {
        SplitPiecesClean(s[i + |sep|..], sep, k - 1);
      }
  }

  /** createListParam: `v && v.split(sep)`, with default `[]`. */
  function DecodeList(raw: Option<string>, sep: string): (r: JsValue)
    ensures raw.None? || raw == Some("") ==> r == Arr([])
    ensures raw.Some? && raw.value != "" ==> r == Arr(Split(raw.value, sep))
  {
    var decoded := if raw.None? then Null else if raw.value == "" then Str("") else Arr(Split(raw.value, sep));
    Decode(decoded, Arr([]))
  }

  /** createPaletteParam's `checkSize`: the comma split when no size is fixed
      or when the size matches, else undefined (after an alert). */
  function DecodePalette(raw: Option<string>, default: JsValue, fixedSize: Option<int>): (r: JsValue)
    ensures raw.Some? && raw.value != "" && (fixedSize.None? || |Split(raw.value, ",")| == fixedSize.value) ==>
              r == Arr(Split(raw.value, ","))
    ensures raw.None? || raw == Some("") || (fixedSize.Some? && |Split(raw.value, ",")| != fixedSize.value) ==> r == default
  {
    var decoded :=
      if raw.None? || raw.value == "" then Undefined
      else
        var splits := Split(raw.value, ",");
        if fixedSize.None? || |splits| == fixedSize.value then Arr(splits) else Undefined;
    Decode(decoded, default)
  }

  // ---------------------------------------------------------------- properties

  /** The fall-backs of the plain and boolean decoders: an absent or empty
      value, and a bool other than "true", give the default. */
  lemma PlainAndBoolFallBacks(default: JsValue)
    ensures DecodePlain(None, default) == default && DecodePlain(Some(""), default) == default
    ensures DecodeBool(Some("false"), default) == default && DecodeBool(None, default) == default
    ensures DecodeBool(Some("true"), default) == Bool(true)
  {
  }

  /** An integer parameter falls back when `parseInt` gives 0 or NaN, as for
      an absent value ("null"), "0" or "abc". */
  lemma IntFallBacks(default: JsValue)
    ensures DecodeInt(None, default) == default
    ensures DecodeInt(Some("0"), default) == default
    ensures DecodeInt(Some("abc"), default) == default
  {
    ParseIntZero();
    ParseIntNaN("null");
    ParseIntNaN("abc");
  }

  lemma ParseIntZero()
    ensures ParseInt("0") == Num(0)
  {
    assert TrimStart("0") == "0";
    assert DigitsPrefix("0", 10) == 1;
    assert "0"[..1] == "0" && "0"[..0] == "";
  }

  lemma ParseIntNaN(s: string)
    requires s == "null" || s == "abc"
    ensures ParseInt(s) == NaN
  {
    assert s[0] == 'n' || s[0] == 'a';
    assert !IsJsSpace(s[0]) && TrimStart(s) == s;
    assert s[1] != 'x' && s[1] != 'X';
    assert DigitValue(s[0], 10).None?;
  }

  /** A present value decodes to `parseInt(raw)` when that is truthy: `?page=12`
      reads as 12, white space, a sign and trailing text are allowed, and the
      `0x` prefix is honoured. */
  lemma ParseIntDecimal()
    ensures ParseInt("12") == Num(12)
  {
    assert TrimStart("12") == "12";
    assert DigitsPrefix("12", 10) == 2;
    assert "12"[..2] == "12" && "12"[..1] == "1" && "1"[..0] == "";
  }

  lemma ParseIntSigned()
    ensures ParseInt("  -7px") == Num(-7)
  {
    assert TrimStart("  -7px") == "-7px" by {
      assert "  -7px" == [' '] + " -7px" && " -7px" == [' '] + "-7px";
      TrimStartSpace(" -7px");
      TrimStartSpace("-7px");
      TrimStartUnchanged("-7px");
    }
    var t := "-7px";
    assert t[0] == '-' && t[1..] == "7px";
    SevenDigits();
  }

  lemma TrimStartSpace(s: string)
    ensures TrimStart([' '] + s) == TrimStart(s)
  {
    assert ([' '] + s)[1..] == s;
  }

  lemma SevenDigits()
    ensures ParseUnsigned("7px") == Num(7)
  {
    assert DigitsPrefix("7px", 10) == 1;
    assert "7px"[..1] == "7" && "7"[..0] == "";
  }

  lemma ParseIntHex()
    ensures ParseInt("0x1A") == Num(26)
  {
    TrimStartUnchanged("0x1A");
    assert "0x1A"[2..] == "1A";
    HexDigits();
  }

  lemma HexDigits()
    ensures ParseDigits("1A", 16) == Num(26)
  {
    assert DigitsPrefix("1A", 16) == 2;
    assert "1A"[..2] == "1A" && "1A"[..1] == "1" && "1"[..0] == "";
  }

  /** The decimal digits read back as the number they came from. */
  lemma {:induction false} DecimalDigits(n: nat)
    ensures AllDigits(Decimal(n), 10) && DigitsValue(Decimal(n), 10) == n
    decreases n
  {
    var r := Decimal(n);
    assert AllDigits(r, 10) by {
      forall i | 0 <= i < |r| ensures DigitValue(r[i], 10).Some? {
        assert '0' <= r[i] <= '9';
      }
    }
    if n >= 10 {
      DecimalDigits(n / 10);
      assert r[..|r| - 1] == Decimal(n / 10);
    }
  }

  /** `set(n)` on an integer parameter followed by a read gives back n
      (0 falls back to the default, as 0 is falsy). */
  lemma IntRoundTrip(q: Query, name: string, n: int, default: JsValue)
    requires Set(q, name, Num(n)).Some?
    ensures DecodeInt(Get(Set(q, name, Num(n)).value, name), default) == if n != 0 then Num(n) else default
  {
    var raw := Get(Set(q, name, Num(n)).value, name);
    assert raw == Some(ToString(Num(n)));
    ParseIntToString(n);
    DecodeIntOf(ToString(Num(n)), n, default);
  }

  /** Decoding a stored string whose `parseInt` is n. */
  lemma DecodeIntOf(s: string, n: int, default: JsValue)
    requires ParseInt(s) == Num(n)
    ensures DecodeInt(Some(s), default) == if n != 0 then Num(n) else default
  {
    assert ToString(Raw(Some(s))) == s;
  }

  /** `parseInt` reads back the decimal form of every integer. */
  lemma ParseIntToString(n: int)
    ensures ParseInt(ToString(Num(n))) == Num(n)
  {
    var m: nat := if n < 0 then -n else n;
    var d := Decimal(m);
    ParseUnsignedDecimal(m);
    var s := ToString(Num(n));
    TrimStartUnchanged(s);
    if n < 0 {
      assert s[1..] == d;
    } else {
      assert s == d && d[0] != '-' && d[0] != '+';
    }
  }

  lemma ParseUnsignedDecimal(m: nat)
    ensures ParseUnsigned(Decimal(m)) == Num(m)
  {
    var d := Decimal(m);
    assert ParseUnsigned(d) == ParseDigits(d, 10) by {
      assert |d| >= 2 ==> d[1] != 'x' && d[1] != 'X';
    }
    ParseDigitsDecimal(m);
  }

  lemma ParseDigitsDecimal(m: nat)
    ensures ParseDigits(Decimal(m), 10) == Num(m)
  {
    var d := Decimal(m);
    DecimalDigits(m);
    DigitsPrefixAll(d, 10);
    assert d[..|d|] == d;
  }

  lemma TrimStartUnchanged(s: string)
    requires s != [] && (s[0] == '-' || '0' <= s[0] <= '9')
    ensures TrimStart(s) == s
  {
    var c := s[0];
    assert !IsJsSpace(c);
  }

  lemma {:induction false} DigitsPrefixAll(s: string, radix: nat)
    requires AllDigits(s, radix)
    ensures DigitsPrefix(s, radix) == |s|
    decreases |s|
  {
    if s != [] {
      DigitsPrefixAll(s[1..], radix);
    }
  }

  /** As written, a boolean parameter whose default is true can never be read as
      false: `set(false)` stores "false", which decodes to the default again. */
  lemma BoolDefaultTrueStuck(q: Query, name: string)
    requires Set(q, name, Bool(false)).Some?
    ensures DecodeBool(Get(Set(q, name, Bool(false)).value, name), Bool(true)) == Bool(true)
    ensures forall raw :: DecodeBool(raw, Bool(true)) == Bool(true)
  {
  }

  /** The evidently intended boolean decoder: "true" and "false" decode to those
      values; an absent or other value gives the default. */
  function DecodeBoolExplicit(raw: Option<string>, default: JsValue): (r: JsValue)
    ensures raw == Some("true") ==> r == Bool(true)
    ensures raw == Some("false") ==> r == Bool(false)
    ensures raw != Some("true") && raw != Some("false") ==> r == default
  {
    if raw == Some("true") then Bool(true) else if raw == Some("false") then Bool(false) else default
  }

  /** With it, `set(b)` followed by a read gives back b, whatever the default. */
  lemma BoolRoundTrip(q: Query, name: string, b: bool, default: JsValue)
    requires Set(q, name, Bool(b)).Some?
    ensures DecodeBoolExplicit(Get(Set(q, name, Bool(b)).value, name), default) == Bool(b)
  {
  }

  /** `set` is a no-op exactly when the value is already there in loose terms:
      a stored "1" already equals `true` and 1, but not the string "01". */
  lemma SetLooseExamples(q: Query, name: string)
    requires Get(q, name) == Some("1")
    ensures Set(q, name, Bool(true)).None?
    ensures Set(q, name, Num(1)).None?
    ensures Set(q, name, Str("01")).Some?
  {
    NumberOfOne();
    assert LooseEquals(Some("1"), Bool(true));
    assert LooseEquals(Some("1"), Num(1));
    assert !LooseEquals(Some("1"), Str("01"));
  }

  lemma NumberOfOne()
    ensures StringToNumber("1") == Finite(1.0)
  {
    TrimOne();
    var t := TrimEnd(TrimStart("1"));
    assert t == "1" && t[0] != '-' && t[0] != '+' && |t| <= 2 && t != "Infinity";
    DecimalLiteralOne();
  }

  lemma TrimOne()
    ensures TrimEnd(TrimStart("1")) == "1"
  {
    OneNotSpace();
    TrimNothing("1");
  }

  lemma OneNotSpace()
    ensures !IsJsSpace('1')
  {
  }

  /** A string that starts and ends with a non-space is not trimmed. */
  lemma TrimNothing(s: string)
    requires s != [] && !IsJsSpace(s[0]) && !IsJsSpace(s[|s| - 1])
    ensures TrimEnd(TrimStart(s)) == s
  {
    assert TrimStart(s) == s;
  }

  lemma DecimalLiteralOne()
    ensures DecimalLiteral("1") == Some(1.0)
  {
    assert DigitsPrefix("1", 10) == 1;
    assert "1"[..1] == "1" && "1"[1..] == "";
    assert DigitsValue("1", 10) == 1 by {
      assert "1"[..0] == "";
    }
    assert DigitsPrefix("", 10) == 0 && ""[..0] == "" && ""[0..] == "";
    assert DigitsValue("", 10) == 0 && Pow10(0) == 1.0;
  }
}
