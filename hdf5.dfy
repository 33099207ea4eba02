/**
 * `withoutNulls` of frontend/src/lib/utils/hdf5.js: fixed-width HDF5 strings
 * come back NUL-padded, and every string of a string array is cut at its
 * padding with the regular expression `/\0.*$/g`. Under ECMAScript's
 * RegExp semantics (ECMA-262, section 22.2) `.` matches no line
 * terminator and `$` without the `m` flag matches only at the end of the
 * input.
 */
module Hdf5 {
  import opened Wrappers

  /** An element of a value array as jsfive hands it back. */
  datatype Item = Text(s: string) | Number(n: int)

  /** The line terminators of ECMA-262 section 12.3, which `.` does not match. */
  predicate IsLineTerminator(c: char)
  {
    c == '\n' || c == '\r' || c == '\U{2028}' || c == '\U{2029}'
  }

  /** `.*$` matches the rest of the string. */
  predicate NoTerminator(s: string)
  {
    forall i :: 0 <= i < |s| ==> !IsLineTerminator(s[i])
  }

  /** A match of `\0.*$` can start at i: a NUL with no line terminator after it. */
  predicate MatchesAt(s: string, i: nat)
    requires i < |s|
  {
    s[i] == '\0' && NoTerminator(s[i + 1..])
  }

  /** `v.replace(/\0.*$/g, '')`: the leftmost match is removed together with
      everything after it; no second match can follow one that ends the string. */
  function StripNul(s: string): (r: string)
    ensures |r| <= |s| && r == s[..|r|]
    ensures forall i :: 0 <= i < |r| ==> !MatchesAt(s, i)
    ensures r == s || MatchesAt(s, |r|)
  {
    if s == [] then []
    else if MatchesAt(s, 0) then []
    else
      var rest := StripNul(s[1..]);
      assert forall i :: 0 < i < |s| ==> (MatchesAt(s, i) <==> MatchesAt(s[1..], i - 1)) by {
        forall i | 0 < i < |s| ensures s[i + 1..] == s[1..][i..] { }
      }
      [s[0]] + rest
  }

  /** When the JavaScript property access throws: a later element that is not a
      string has no `replace`. */
  datatype TypeError = TypeError

  /** `withoutNulls(arr)`: an array whose first element is not a string
      (including an empty one) comes back as it is; otherwise every string is
      stripped. */
  function WithoutNulls(arr: seq<Item>): (r: Result<seq<Item>, TypeError>)
    ensures (arr == [] || !arr[0].Text?) ==> r == Ok(arr)
    ensures r.Ok? && arr != [] && arr[0].Text? ==>
      |r.value| == |arr| && forall i :: 0 <= i < |arr| ==> arr[i].Text? && r.value[i] == Text(StripNul(arr[i].s))
    ensures r.Err? <==> arr != [] && arr[0].Text? && exists i :: 0 <= i < |arr| && !arr[i].Text?
  {
    if arr == [] || !arr[0].Text? then Ok(arr)
    else MapStrip(arr)
  }

  /** The `map` of line 2, element by element. */
  function MapStrip(arr: seq<Item>): (r: Result<seq<Item>, TypeError>)
    ensures r.Ok? ==> |r.value| == |arr| && forall i :: 0 <= i < |arr| ==> arr[i].Text? && r.value[i] == Text(StripNul(arr[i].s))
    ensures r.Err? <==> exists i :: 0 <= i < |arr| && !arr[i].Text?
  {
    if arr == [] then Ok([])
    else if !arr[0].Text? then Err(TypeError)
    else
      match MapStrip(arr[1..])
      case Err(e) =>
        assert exists i :: 0 <= i < |arr| && !arr[i].Text? by {
          var j :| 0 <= j < |arr[1..]| && !arr[1..][j].Text?;
          assert !arr[j + 1].Text?;
        }
        Err(e)
      case Ok(rest) =>
        assert forall i :: 0 < i < |arr| ==> arr[i] == arr[1..][i - 1];
        Ok([Text(StripNul(arr[0].s))] + rest)
  }

  /** The position of the first NUL, or the length when there is none. */
  function FirstNul(s: string): (k: nat)
    ensures k <= |s| && (k < |s| ==> s[k] == '\0')
    ensures forall i :: 0 <= i < k ==> s[i] != '\0'
  {
    if s == [] then 0 else if s[0] == '\0' then 0 else 1 + FirstNul(s[1..])
  }

  /** For a string without line terminators, the text before the first NUL is
      kept, and a string without NUL is unchanged. */
  lemma StripNulSingleLine(s: string)
    requires NoTerminator(s)
    ensures StripNul(s) == s[..FirstNul(s)]
  {
    var r := StripNul(s);
    var k := FirstNul(s);
    if k < |s| {
      assert MatchesAt(s, k);
    }
  }

  /** A string without NUL is never changed. */
  lemma StripNulNoNul(s: string)
    requires forall i :: 0 <= i < |s| ==> s[i] != '\0'
    ensures StripNul(s) == s
  {
  }

  /** A NUL followed later by a line terminator is not a cut point: the
      string is cut at the first NUL after the last terminator. */
  lemma ExampleMultiline()
    ensures StripNul("a\0b\nc\0d") == "a\0b\nc"
  {
    var s := "a\0b\nc\0d";
    assert !MatchesAt(s, 1) by {
      assert s[2..][1] == '\n';
    }
    assert MatchesAt(s, 5);
    var r := StripNul(s);
    assert |r| == 5;
  }

  /** Stripping twice is stripping once: the kept prefix has no cut point left,
      because every NUL in it is followed by a line terminator inside it. */
  lemma StripNulIdempotent(s: string)
    ensures StripNul(StripNul(s)) == StripNul(s)
  {
    var r := StripNul(s);
    if r != s {
      forall i | 0 <= i < |r| ensures !MatchesAt(r, i) {
        if r[i] == '\0' {
          assert !MatchesAt(s, i);
          var j :| 0 <= j < |s[i + 1..]| && IsLineTerminator(s[i + 1..][j]);
          assert i + 1 + j < |r|;
          assert r[i + 1..][j] == s[i + 1 + j];
        }
      }
    }
    var r2 := StripNul(r);
    assert r2 == r;
  }

  /** The same at the array level. */
  lemma WithoutNullsIdempotent(arr: seq<Item>)
    requires WithoutNulls(arr).Ok?
    ensures WithoutNulls(WithoutNulls(arr).value) == WithoutNulls(arr)
  {
    var r := WithoutNulls(arr).value;
    if arr != [] && arr[0].Text? {
      forall i | 0 <= i < |arr| ensures StripNul(r[i].s) == r[i].s {
        StripNulIdempotent(arr[i].s);
      }
      var r2 := WithoutNulls(r);
      assert r2.Ok?;
      assert r2.value == r;
    }
  }
}
