/**
 * Text helpers shared by the pipeline: ASCII upper-casing (the model of
 * `strings.ToUpper`) and `strings.Join`.
 */
module Text {

  predicate IsLower(c: char) {
    'a' <= c <= 'z'
  }

  /** Upper-cases one ASCII letter; every other character is left alone. */
  function UpperChar(c: char): (u: char)
    ensures IsLower(c) ==> 'A' <= u <= 'Z' && u as int - 'A' as int == c as int - 'a' as int
    ensures !IsLower(c) ==> u == c
    ensures !IsLower(u)
  {
    if IsLower(c) then (c as int - 'a' as int + 'A' as int) as char else c
  }

  /** `strings.ToUpper`, restricted to ASCII letters. */
  function Upper(s: string): (r: string)
    ensures |r| == |s|
    ensures forall i :: 0 <= i < |s| ==> r[i] == UpperChar(s[i])
    ensures forall i :: 0 <= i < |r| ==> !IsLower(r[i])
  {
    seq(|s|, i requires 0 <= i < |s| => UpperChar(s[i]))
  }

  lemma UpperIdempotent(s: string)
    ensures Upper(Upper(s)) == Upper(s)
  {
    var u := Upper(s);
    assert forall i :: 0 <= i < |u| ==> UpperChar(u[i]) == u[i];
  }

  /** Upper-casing commutes with concatenation, so it can be applied piece by piece. */
  lemma UpperAppend(a: string, b: string)
    ensures Upper(a + b) == Upper(a) + Upper(b)
  {
  }

  /** `strings.Join(parts, sep)`. */
  function Join(parts: seq<string>, sep: string): (r: string)
    ensures |parts| == 0 ==> r == ""
    ensures |parts| == 1 ==> r == parts[0]
    decreases |parts|
  {
    if |parts| == 0 then ""
    else if |parts| == 1 then parts[0]
    else parts[0] + sep + Join(parts[1..], sep)
  }

  /** Appending a part to a non-empty list adds a separator and then the part. */
  lemma {:induction false} JoinSnoc(parts: seq<string>, p: string, sep: string)
    requires |parts| >= 1
    ensures Join(parts + [p], sep) == Join(parts, sep) + sep + p
    decreases |parts|
  {
    var ps := parts + [p];
    if |parts| > 1 {
      assert ps[1..] == parts[1..] + [p];
      JoinSnoc(parts[1..], p, sep);
    } else {
      assert ps[1..] == [p];
    }
  }

  /** Joining counts every character of every part and of every separator. */
  lemma {:induction false} JoinCount(parts: seq<string>, sep: string, c: char, each: nat)
    requires |parts| > 0
    requires forall i :: 0 <= i < |parts| ==> multiset(parts[i])[c] == each
    ensures multiset(Join(parts, sep))[c] == |parts| * each + (|parts| - 1) * multiset(sep)[c]
    decreases |parts|
  {
    if |parts| > 1 {
      var tail := parts[1..];
      var rest := Join(tail, sep);
      assert forall i :: 0 <= i < |tail| ==> tail[i] == parts[i + 1];
      JoinCount(tail, sep, c, each);
      var n := |tail|;
      var k := multiset(sep)[c];
      var head := parts[0] + sep;
      assert multiset(head)[c] == each + k;
      assert Join(parts, sep) == head + rest;
      assert multiset(head + rest)[c] == multiset(head)[c] + multiset(rest)[c];
      MulStep(n, each, k);
    }
  }

  lemma MulStep(n: int, each: int, k: int)
    requires n >= 1
    ensures (n + 1) * each + n * k == each + k + (n * each + (n - 1) * k)
  {
  }
}
