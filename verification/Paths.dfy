/** Slash-separated names: splitting, joining, and the segments before the first empty one. */
module Paths {
  import opened Bytes

  predicate Slashless(s: string) {
    '/' !in s
  }

  /** `find('/')`. */
  function FirstSlash(s: string): (r: Option<nat>)
    ensures r.Some? ==> r.value < |s| && s[r.value] == '/' && Slashless(s[..r.value])
    ensures r.None? ==> Slashless(s)
  {
    if s == "" then None
    else if s[0] == '/' then Some(0)
    else match FirstSlash(s[1..])
      case None => None
      case Some(i) =>
        assert s[..i + 1] == [s[0]] + s[1..][..i];
        Some(i + 1)
  }

  /** `rfind('/')`. */
  function LastSlash(s: string): (r: Option<nat>)
    ensures r.Some? ==> r.value < |s| && s[r.value] == '/' && Slashless(s[r.value + 1..])
    ensures r.None? ==> Slashless(s)
  {
    if s == "" then None
    else if s[|s| - 1] == '/' then Some(|s| - 1)
    else match LastSlash(s[..|s| - 1])
      case None => None
      case Some(i) =>
        assert s[i + 1..] == s[..|s| - 1][i + 1..] + [s[|s| - 1]];
        Some(i)
  }

  /** `split('/')`: the segments, of which there is at least one. */
  function Split(s: string): (r: seq<string>)
    ensures |r| >= 1
    ensures forall i :: 0 <= i < |r| ==> Slashless(r[i])
    decreases |s|
  {
    match FirstSlash(s)
    case None => [s]
    case Some(i) => [s[..i]] + Split(s[i + 1..])
  }

  function Join(segs: seq<string>): string
    requires |segs| >= 1
  {
    if |segs| == 1 then segs[0] else segs[0] + "/" + Join(segs[1..])
  }

  /** The segments before the first empty one. */
  function Lead(segs: seq<string>): (r: seq<string>)
    ensures r <= segs
    ensures forall i :: 0 <= i < |r| ==> r[i] != ""
    ensures |r| < |segs| ==> segs[|r|] == ""
  {
    if segs == [] || segs[0] == "" then [] else [segs[0]] + Lead(segs[1..])
  }

  function AllButLast<T>(s: seq<T>): seq<T>
    requires |s| >= 1
  {
    s[..|s| - 1]
  }

  function Last<T>(s: seq<T>): T
    requires |s| >= 1
  {
    s[|s| - 1]
  }

  /** Cutting at the first slash. */
  lemma SplitFirst(a: string, b: string)
    requires Slashless(a)
    ensures Split(a + "/" + b) == [a] + Split(b)
  {
    var s := a + "/" + b;
    assert s[|a|] == '/';
    var i := FirstSlash(s).value;
    assert forall k :: 0 <= k < |a| ==> s[k] == a[k];
    assert forall k :: 0 <= k < i ==> s[k] == s[..i][k];
    assert i == |a|;
    assert s[..i] == a && s[i + 1..] == b;
  }

  /** Cutting at the last slash. */
  lemma {:induction false} SplitLast(a: string, b: string)
    requires Slashless(b)
    ensures Split(a + "/" + b) == Split(a) + [b]
    decreases |a|
  {
    match FirstSlash(a)
    case None => SplitFirst(a, b);
    case Some(i) =>
      var rest := a[i + 1..];
      assert a + "/" + b == a[..i] + "/" + (rest + "/" + b);
      SplitFirst(a[..i], rest + "/" + b);
      SplitLast(rest, b);
  }

  lemma {:induction false} SplitJoin(segs: seq<string>)
    requires |segs| >= 1 && forall i :: 0 <= i < |segs| ==> Slashless(segs[i])
    ensures Split(Join(segs)) == segs
    decreases |segs|
  {
    if |segs| > 1 {
      SplitFirst(segs[0], Join(segs[1..]));
      SplitJoin(segs[1..]);
    }
  }

  lemma {:induction false} LeadAll(segs: seq<string>)
    requires forall i :: 0 <= i < |segs| ==> segs[i] != ""
    ensures Lead(segs) == segs
  {
    if segs != [] {
      LeadAll(segs[1..]);
    }
  }

  /** Nothing behind an empty segment matters. */
  lemma {:induction false} LeadEmpty(a: seq<string>, b: seq<string>)
    ensures Lead(a + [""] + b) == Lead(a)
    decreases |a|
  {
    if a != [] && a[0] != "" {
      assert (a + [""] + b)[1..] == a[1..] + [""] + b;
      LeadEmpty(a[1..], b);
    } else if a == [] {
      assert a + [""] + b == [""] + b;
    } else {
      assert (a + [""] + b)[0] == "";
    }
  }

  /** `trim_end_matches('/')`. */
  function TrimSlashes(s: string): (r: string)
    ensures r <= s
    decreases |s|
  {
    if s != "" && s[|s| - 1] == '/' then TrimSlashes(s[..|s| - 1]) else s
  }

  /** Trimming slashes does not change the leading segments. */
  lemma {:induction false} LeadTrim(s: string)
    ensures Lead(Split(TrimSlashes(s))) == Lead(Split(s))
    decreases |s|
  {
    if s != "" && s[|s| - 1] == '/' {
      var t := s[..|s| - 1];
      assert s == t + "/" + "";
      SplitLast(t, "");
      LeadEmpty(Split(t), []);
      assert Split(t) + [""] == Split(t) + [""] + [];
      LeadTrim(t);
    }
  }
}
