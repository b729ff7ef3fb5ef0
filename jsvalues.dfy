/** JavaScript values and string built-ins that the explorer's code relies on,
    stated with the semantics of the ECMAScript standard library. */
module JsValues {

  datatype Option<+T> = None | Some(value: T)

  /** The value of a slot typed `string` in the explorer's code: a string,
      `undefined` (a regex group that did not participate) or `null`
      (the cleared file selection). */
  datatype JsStr = Undefined | Null | Str(s: string)

  /** JavaScript truthiness of such a value: only a non-empty string is truthy. */
  predicate Truthy(v: JsStr)
    ensures Truthy(v) ==> v != Undefined && v != Null && |v.s| > 0
  {
    v.Str? && v.s != ""
  }

  /** `a || b`: the first operand when it is truthy, otherwise the second. */
  function Or(a: JsStr, b: JsStr): (r: JsStr)
    ensures r == a || r == b
    ensures Truthy(r) <==> Truthy(a) || Truthy(b)
  {
    if Truthy(a) then a else b
  }

  /** `pat` occurs in `s` starting at index `k`. */
  predicate OccursAt(s: string, pat: string, k: int)
  {
    0 <= k && k + |pat| <= |s| && s[k..k + |pat|] == pat
  }

  /** The search behind `s.indexOf(pat)`, trying the start indices from `k` on. */
  function IndexFrom(s: string, pat: string, k: nat): (r: int)
    requires k <= |s|
    ensures r == -1 || (k <= r && OccursAt(s, pat, r))
    ensures forall j :: k <= j && (r == -1 || j < r) ==> !OccursAt(s, pat, j)
    decreases |s| - k
  {
    if k + |pat| > |s| then -1
    else if s[k..k + |pat|] == pat then k
    else
      assert |pat| > 0;
      IndexFrom(s, pat, k + 1)
  }

  /** `s.indexOf(pat)`: the first index at which `pat` occurs, or -1. */
  function IndexOf(s: string, pat: string): (r: int)
    ensures r == -1 <==> forall j :: !OccursAt(s, pat, j)
    ensures r != -1 ==> OccursAt(s, pat, r) && forall j :: 0 <= j < r ==> !OccursAt(s, pat, j)
  {
    IndexFrom(s, pat, 0)
  }

  /** `s.slice(0, end)`: a negative end counts from the back, and the end is
      clamped to the string. */
  function SliceTo(s: string, end: int): (r: string)
    ensures |r| <= |s| && r == s[..|r|]
    ensures 0 <= end <= |s| ==> |r| == end
    ensures end >= |s| ==> r == s
    ensures end < 0 ==> |r| == (if |s| + end < 0 then 0 else |s| + end)
  {
    if end < 0 then (if |s| + end < 0 then "" else s[..|s| + end])
    else if end > |s| then s
    else s[..end]
  }

  /** `s.replace(pat, rep)` with a string pattern: only the first occurrence
      is replaced. */
  function ReplaceFirst(s: string, pat: string, rep: string): (r: string)
    ensures IndexOf(s, pat) == -1 ==> r == s
    ensures IndexOf(s, pat) != -1 ==>
      var k := IndexOf(s, pat);
      |r| == |s| - |pat| + |rep| && r[..k] == s[..k] && r[k..k + |rep|] == rep && r[k + |rep|..] == s[k + |pat|..]
  {
    var k := IndexOf(s, pat);
    if k == -1 then s else s[..k] + rep + s[k + |pat|..]
  }

  /** `s.split(sep)` for a one-character separator. */
  function Split(s: string, sep: char): (r: seq<string>)
    ensures |r| >= 1
    ensures forall i :: 0 <= i < |r| ==> sep !in r[i]
    decreases |s|
  {
    if |s| == 0 then [""]
    else if s[0] == sep then [""] + Split(s[1..], sep)
    else
      var rest := Split(s[1..], sep);
      [[s[0]] + rest[0]] + rest[1..]
  }

  /** A string without the separator splits into itself alone. */
  lemma {:induction false} SplitWithoutSeparator(s: string, sep: char)
    requires sep !in s
    ensures Split(s, sep) == [s]
    decreases |s|
  {
    if |s| > 0 {
      assert sep !in s[1..] by {
        forall c | c in s[1..] ensures c != sep { }
      }
      SplitWithoutSeparator(s[1..], sep);
      assert [s[0]] + s[1..] == s;
    }
  }

  /** Appending a separator and a separator-free name adds exactly one segment. */
  lemma {:induction false} SplitAppendSegment(s: string, sep: char, name: string)
    requires sep !in name
    ensures Split(s + [sep] + name, sep) == Split(s, sep) + [name]
    decreases |s|
  {
    var t := s + [sep] + name;
    if |s| == 0 {
      assert t == [sep] + name;
      assert t[1..] == name;
      SplitWithoutSeparator(name, sep);
    } else {
      assert t[0] == s[0];
      assert t[1..] == s[1..] + [sep] + name;
      SplitAppendSegment(s[1..], sep, name);
      if s[0] != sep {
        var rest := Split(s[1..], sep);
        assert Split(t[1..], sep) == rest + [name];
        assert (rest + [name])[1..] == rest[1..] + [name];
      }
    }
  }

  /** Every segment of `Split(s, sep)` occurs in `s`; the result is where. */
  lemma {:induction false} SegmentOccurs(s: string, sep: char, i: nat) returns (k: nat)
    requires i < |Split(s, sep)|
    ensures OccursAt(s, Split(s, sep)[i], k)
    decreases |s|
  {
    if i == 0 {
      FirstSegmentIsPrefix(s, sep);
      k := 0;
    } else {
      // i > 0 means s is non-empty; segment i is segment i - 1 or i of the tail's split
      var j := if s[0] == sep then i - 1 else i;
      var k' := SegmentOccurs(s[1..], sep, j);
      var seg := Split(s[1..], sep)[j];
      assert Split(s, sep)[i] == seg;
      k := k' + 1;
      assert s[k..k + |seg|] == s[1..][k'..k' + |seg|];
    }
  }

  /** The first segment of a split is a prefix of the string. */
  lemma {:induction false} FirstSegmentIsPrefix(s: string, sep: char)
    ensures |Split(s, sep)[0]| <= |s| && s[..|Split(s, sep)[0]|] == Split(s, sep)[0]
    decreases |s|
  {
    if |s| > 0 && s[0] != sep {
      FirstSegmentIsPrefix(s[1..], sep);
      var rest := Split(s[1..], sep);
      assert s[..1 + |rest[0]|] == [s[0]] + s[1..][..|rest[0]|];
    }
  }
}
