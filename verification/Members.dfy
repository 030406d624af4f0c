/** How a row's tree path finds its zip member. */
module Members {
  import opened Bytes
  import opened Paths
  import opened ZipTree
  import opened Resolve
  import opened TreeState

  /** `collapse_slashes`, knowing whether the character before was a slash. */
  function Collapse(s: string, prevSlash: bool): string {
    if s == "" then ""
    else if s[0] == '/' then (if prevSlash then "" else "/") + Collapse(s[1..], true)
    else [s[0]] + Collapse(s[1..], false)
  }

  method CollapseSlashes(name: string) returns (out: string)
    ensures out == Collapse(name, false)
  {
    out := "";
    var prevSlash := false;
    for i := 0 to |name|
      invariant Collapse(name, false) == out + Collapse(name[i..], prevSlash)
    {
      CollapseAt(name, i, prevSlash, out);
      var c := name[i];
      if c == '/' {
        if !prevSlash {
          out := out + [c];
        }
        prevSlash := true;
      } else {
        prevSlash := false;
        out := out + [c];
      }
    }
  }

  lemma CollapseAt(name: string, i: nat, prevSlash: bool, out: string)
    requires i < |name|
    ensures out + Collapse(name[i..], prevSlash)
         == out + (if name[i] == '/' && prevSlash then "" else [name[i]]) + Collapse(name[i + 1..], name[i] == '/')
    ensures out + "" == out
  {
    assert name[i..][1..] == name[i + 1..];
  }

  predicate MemberMatches(zipName: string, want: string) {
    zipName == want || Collapse(zipName, false) == want
  }

  /** The first member that matches. */
  function MemberFor(names: seq<string>, want: string): (r: Option<nat>)
    ensures r.Some? ==> r.value < |names| && MemberMatches(names[r.value], want)
    ensures r.Some? ==> forall i :: 0 <= i < r.value ==> !MemberMatches(names[i], want)
    ensures r.None? ==> forall i :: 0 <= i < |names| ==> !MemberMatches(names[i], want)
  {
    if names == [] then None
    else if MemberMatches(names[0], want) then Some(0)
    else match MemberFor(names[1..], want)
      case None => None
      case Some(i) => Some(i + 1)
  }

  // --- What collapsing does to the segments -------------------------------------------------

  /** Empty segments dropped, but for the last one. */
  function Squeezed(segs: seq<string>): seq<string>
    requires segs != []
  {
    if |segs| == 1 then segs
    else (if segs[0] == "" then [] else [segs[0]]) + Squeezed(segs[1..])
  }

  lemma {:induction false} CollapseText(a: string, b: string, prev: bool)
    requires Slashless(a) && a != ""
    ensures Collapse(a + b, prev) == a + Collapse(b, false)
    decreases |a|
  {
    assert (a + b)[1..] == a[1..] + b && (a + b)[0] == a[0] && a == [a[0]] + a[1..];
    assert a[0] != '/';
    if |a| > 1 {
      CollapseText(a[1..], b, false);
    } else {
      assert a[1..] + b == b;
    }
  }

  lemma CollapseCut(a: string, rest: string, prev: bool)
    requires Slashless(a)
    ensures Collapse(a + "/" + rest, prev) == (if a == "" && prev then "" else a + "/") + Collapse(rest, true)
  {
    var slashed := "/" + rest;
    assert slashed[1..] == rest;
    if a == "" {
      assert a + "/" + rest == slashed;
    } else {
      CollapseText(a, slashed, prev);
      assert a + slashed == a + "/" + rest;
      assert a + ("/" + Collapse(rest, true)) == a + "/" + Collapse(rest, true);
    }
  }

  lemma SqueezeCons(a: string, t: seq<string>)
    requires t != []
    ensures Squeezed([a] + t) == (if a == "" then [] else [a]) + Squeezed(t)
  {
    assert ([a] + t)[1..] == t;
  }

  lemma CutAt(s: string, i: nat)
    requires FirstSlash(s) == Some(i)
    ensures s == s[..i] + "/" + s[i + 1..] && Split(s) == [s[..i]] + Split(s[i + 1..])
  {
  }

  lemma CollapseFlat(s: string, prev: bool)
    requires Slashless(s)
    ensures Collapse(s, prev) == s && Split(s) == [s]
  {
    if s != "" {
      CollapseText(s, "", prev);
      assert s + "" == s;
    }
    var f := FirstSlash(s);
  }

  /** Behind a slash, collapsing drops the empty segments. */
  lemma {:induction false} CollapseBehindSlash(s: string)
    ensures Split(Collapse(s, true)) == Squeezed(Split(s))
    decreases |s|
  {
    match FirstSlash(s)
    case None => CollapseFlat(s, true);
    case Some(i) =>
      var a, rest := s[..i], s[i + 1..];
      CutAt(s, i);
      CollapseCut(a, rest, true);
      CollapseBehindSlash(rest);
      SqueezeCons(a, Split(rest));
      if a == "" {
        assert "" + Collapse(rest, true) == Collapse(rest, true);
        assert [] + Squeezed(Split(rest)) == Squeezed(Split(rest));
      } else {
        SplitFirst(a, Collapse(rest, true));
      }
  }

  /** The first segment stays, even if empty; of the others only empty ones go. */
  lemma CollapseSegments(s: string)
    ensures Split(Collapse(s, false))
         == if FirstSlash(s).None? then Split(s) else [Split(s)[0]] + Squeezed(Split(s)[1..])
  {
    match FirstSlash(s)
    case None => CollapseFlat(s, false);
    case Some(i) =>
      var a, rest := s[..i], s[i + 1..];
      CutAt(s, i);
      CollapseCut(a, rest, false);
      CollapseBehindSlash(rest);
      SplitFirst(a, Collapse(rest, true));
      assert ([a] + Split(rest))[1..] == Split(rest);
  }

  // --- Which members their own rows find ------------------------------------------------------

  /** Behind the first empty segment all others are empty too. */
  predicate EmptyOnlyAtEnd(init: seq<string>) {
    forall i :: |Lead(init)| <= i < |init| ==> init[i] == ""
  }

  lemma EmptyShift(init: seq<string>)
    requires init != []
    ensures init[0] != "" ==> (EmptyOnlyAtEnd(init) <==> EmptyOnlyAtEnd(init[1..]))
    ensures init[0] == "" ==> Lead(init) == [] && (EmptyOnlyAtEnd(init) <==> forall i :: 0 <= i < |init| ==> init[i] == "")
  {
    assert forall i :: 1 <= i < |init| ==> init[i] == init[1..][i - 1];
    if init[0] != "" {
      assert Lead(init) == [init[0]] + Lead(init[1..]);
      if EmptyOnlyAtEnd(init) {
        forall i | |Lead(init[1..])| <= i < |init[1..]|
          ensures init[1..][i] == ""
        {
          assert init[i + 1] == init[1..][i];
        }
      }
    }
  }

  lemma ConsEqual(a: string, s: seq<string>, t: seq<string>)
    ensures [a] + s == [a] + t <==> s == t
  {
    assert ([a] + s)[1..] == s && ([a] + t)[1..] == t;
  }

  /** Squeezing leaves the leading segments and the last exactly when only empty ones lie between. */
  ghost predicate SqueezesToLead(segs: seq<string>)
    requires segs != []
  {
    Squeezed(segs) == Lead(AllButLast(segs)) + [Last(segs)] <==> EmptyOnlyAtEnd(AllButLast(segs))
  }

  lemma SqueezeText(segs: seq<string>)
    requires |segs| > 1 && segs[0] != "" && SqueezesToLead(segs[1..])
    ensures SqueezesToLead(segs)
  {
    var init, more := AllButLast(segs), segs[1..];
    assert AllButLast(more) == init[1..] && Last(more) == Last(segs);
    EmptyShift(init);
    ConsEqual(segs[0], Squeezed(more), Lead(init[1..]) + [Last(segs)]);
    assert Lead(init) + [Last(segs)] == [segs[0]] + (Lead(init[1..]) + [Last(segs)]);
  }

  lemma SqueezeGap(segs: seq<string>)
    requires |segs| > 1 && segs[0] == ""
    ensures SqueezesToLead(segs)
  {
    var init, more := AllButLast(segs), segs[1..];
    EmptyShift(init);
    SqueezeEmpty(more);
    assert Last(more) == Last(segs) && [] + [Last(segs)] == [Last(segs)];
    assert forall i :: 1 <= i < |init| ==> init[i] == more[i - 1];
    assert forall i :: 0 <= i < |more| - 1 ==> more[i] == init[i + 1];
  }

  lemma {:induction false} SqueezeLead(segs: seq<string>)
    requires segs != []
    ensures SqueezesToLead(segs)
  {
    if |segs| > 1 {
      SqueezeLead(segs[1..]);
      if segs[0] == "" {
        SqueezeGap(segs);
      } else {
        SqueezeText(segs);
      }
    }
  }

  /** Only the last segment is left exactly when all others are empty. */
  lemma {:induction false} SqueezeEmpty(segs: seq<string>)
    requires segs != []
    ensures Squeezed(segs) == [Last(segs)] <==> forall i :: 0 <= i < |segs| - 1 ==> segs[i] == ""
  {
    if |segs| > 1 {
      SqueezeEmpty(segs[1..]);
      assert forall i :: 1 <= i < |segs| ==> segs[i] == segs[1..][i - 1];
      SqueezedNotEmpty(segs[1..]);
    }
  }

  lemma {:induction false} SqueezedNotEmpty(segs: seq<string>)
    requires segs != []
    ensures Squeezed(segs) != []
  {
    if |segs| > 1 {
      SqueezedNotEmpty(segs[1..]);
    }
  }

  /** Member names whose tree path, as a row carries it, leads back to the member. */
  predicate FindsItself(name: string) {
    var segs := Split(name);
    |segs| == 1 || (segs[0] != "" && EmptyOnlyAtEnd(AllButLast(segs)))
  }

  lemma {:induction false} JoinSplit(s: string)
    ensures Join(Split(s)) == s
    decreases |s|
  {
    match FirstSlash(s)
    case None =>
    case Some(i) =>
      CutAt(s, i);
      JoinSplit(s[i + 1..]);
      assert ([s[..i]] + Split(s[i + 1..]))[1..] == Split(s[i + 1..]);
  }

  /** Strings are their segments. */
  lemma SplitInjective(a: string, b: string)
    requires Split(a) == Split(b)
    ensures a == b
  {
    JoinSplit(a);
    JoinSplit(b);
  }

  /**
   * Exactly when a stream's tree path, joined, is matched by the member that put it
   * there: the name may repeat slashes only right before its last segment.
   */
  lemma TreePathFindsMember(name: string)
    requires StreamPath(name).Some?
    ensures MemberMatches(name, TreePath(StreamKind, StreamPath(name).value)) <==> FindsItself(name)
  {
    var segs := Split(name);
    var init, last := AllButLast(segs), Last(segs);
    var path := Lead(init) + [last];
    assert StreamPath(name).value == path;
    var want := Join(path);
    SplitJoin(path);
    JoinSplit(name);
    SqueezeWhole(segs);
    CollapseSegments(name);
    if Collapse(name, false) == want {
      assert Split(Collapse(name, false)) == path;
    }
    if Split(Collapse(name, false)) == path {
      SplitInjective(Collapse(name, false), want);
    }
    FirstOfSplit(name);
  }

  lemma FirstOfSplit(name: string)
    ensures FirstSlash(name).None? <==> |Split(name)| == 1
  {
  }

  lemma SqueezeWhole(segs: seq<string>)
    requires segs != []
    ensures var init := AllButLast(segs);
            var path := Lead(init) + [Last(segs)];
            && (segs == path ==> EmptyOnlyAtEnd(init))
            && (|segs| > 1 ==>
                  ([segs[0]] + Squeezed(segs[1..]) == path <==> segs[0] != "" && EmptyOnlyAtEnd(init)))
  {
    var init := AllButLast(segs);
    if |segs| > 1 {
      SqueezeLead(segs);
      SqueezedNotEmpty(segs[1..]);
      if segs[0] == "" {
        assert Lead(init) == [];
        assert |[segs[0]] + Squeezed(segs[1..])| >= 2;
      }
    }
  }
}
