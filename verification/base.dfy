/** Small JavaScript-flavoured helpers shared by the server and the client model:
    optional values, JavaScript truthiness of request fields, ASCII lower-casing,
    `String.prototype.trim` and `Array.prototype.slice` with negative indices. */
module Base {

  /** A value that may be absent (JavaScript `undefined` or `null`). */
  datatype Option<T> = None | Some(value: T)

  /** JavaScript's `!!x` on an optional string: absent and "" are both falsy. */
  predicate Truthy(f: Option<string>) {
    f.Some? && f.value != ""
  }

  /** JavaScript's `f || fallback` for an optional string. */
  function OrElse(f: Option<string>, fallback: string): (r: string)
    ensures Truthy(f) ==> r == f.value
    ensures !Truthy(f) ==> r == fallback
  {
    if Truthy(f) then f.value else fallback
  }

  /** `toLowerCase` restricted to ASCII letters. */
  function LowerChar(c: char): char {
    if 'A' <= c <= 'Z' then (c as int + 32) as char else c
  }

  function ToLower(s: string): (r: string)
    ensures |r| == |s|
    ensures forall i :: 0 <= i < |s| ==> r[i] == LowerChar(s[i])
  {
    if s == [] then [] else [LowerChar(s[0])] + ToLower(s[1..])
  }

  lemma LowerCharIdempotent(c: char)
    ensures LowerChar(LowerChar(c)) == LowerChar(c)
  {
  }

  /** Lower-casing twice is lower-casing once. */
  lemma ToLowerIdempotent(s: string)
    ensures ToLower(ToLower(s)) == ToLower(s)
  {
    var once := ToLower(s);
    var twice := ToLower(once);
    forall i | 0 <= i < |s|
      ensures twice[i] == once[i]
    {
      LowerCharIdempotent(s[i]);
    }
  }

  /** The characters `trim` removes (the ASCII subset of JavaScript white space). */
  predicate IsSpace(c: char) {
    c == ' ' || c == '\t' || c == '\n' || c == '\r' || c == '\U{000B}' || c == '\U{000C}'
  }

  predicate AllSpace(s: string) {
    forall i :: 0 <= i < |s| ==> IsSpace(s[i])
  }

  /** The end of the run of white space that starts at index `i`. */
  function SpaceRunEnd(s: string, i: nat): (j: nat)
    requires i <= |s|
    ensures i <= j <= |s|
    ensures forall k :: i <= k < j ==> IsSpace(s[k])
    ensures j == |s| || !IsSpace(s[j])
    decreases |s| - i
  {
    if i == |s| || !IsSpace(s[i]) then i else SpaceRunEnd(s, i + 1)
  }

  /** The start of the run of white space that ends just before index `j`. */
  function SpaceRunStart(s: string, j: nat): (i: nat)
    requires j <= |s|
    ensures i <= j
    ensures forall k :: i <= k < j ==> IsSpace(s[k])
    ensures i == 0 || !IsSpace(s[i - 1])
  {
    if j == 0 || !IsSpace(s[j - 1]) then j else SpaceRunStart(s, j - 1)
  }

  function TrimStart(s: string): (r: string)
    ensures |r| <= |s| && r == s[|s| - |r|..]
    ensures AllSpace(s[..|s| - |r|])
    ensures r == [] || !IsSpace(r[0])
  {
    s[SpaceRunEnd(s, 0)..]
  }

  function TrimEnd(s: string): (r: string)
    ensures |r| <= |s| && r == s[..|r|]
    ensures AllSpace(s[|r|..])
    ensures r == [] || !IsSpace(r[|r| - 1])
  {
    s[..SpaceRunStart(s, |s|)]
  }

  /** `String.prototype.trim`: the result is a slice of `s` obtained by dropping only
      white space at both ends, and it neither starts nor ends with white space. */
  function Trim(s: string): (r: string)
    ensures exists i, j :: 0 <= i <= j <= |s| && r == s[i..j] && AllSpace(s[..i]) && AllSpace(s[j..])
    ensures r == [] || (!IsSpace(r[0]) && !IsSpace(r[|r| - 1]))
  {
    var e := TrimEnd(s);
    var r := TrimStart(e);
    var i := |e| - |r|;
    assert r == s[i..|e|];
    assert AllSpace(s[..i]) by { assert s[..i] == e[..i]; }
    r
  }

  /** Resolves a relative `slice` bound against a length, as JavaScript does. */
  function SliceBound(k: int, len: nat): (b: nat)
    ensures b <= len
    ensures 0 <= k <= len ==> b == k
  {
    if k < 0 then (if len + k < 0 then 0 else len + k)
    else if k > len then len else k
  }

  /** `Array.prototype.slice(start, end)`, negative bounds counted from the end. */
  function JsSlice<T>(s: seq<T>, start: int, end: int): (r: seq<T>)
    ensures 0 <= start <= end <= |s| ==> r == s[start..end]
    ensures 0 <= start <= |s| <= end ==> r == s[start..]
    ensures |s| <= start ==> r == []
    ensures |r| <= |s|
  {
    var b := SliceBound(start, |s|);
    var e := SliceBound(end, |s|);
    if e <= b then [] else s[b..e]
  }

  /** `Math.ceil(n / d)` for a non-negative numerator. */
  function CeilDiv(n: nat, d: nat): (r: nat)
    requires d > 0
    ensures r * d >= n
    ensures r == 0 || (r - 1) * d < n
  {
    (n + d - 1) / d
  }
}
