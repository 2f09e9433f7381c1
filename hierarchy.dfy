/** TopLevelGroups and ParentGroup: the group hierarchy read off a group's
    FullPath or a project's WebURL by splitting on the server's host name and
    on "/". Index panics of the Go code are Err(IndexOutOfRange(..)). */
module Hierarchy {
  import opened GitlabTypes
  import opened GoStrings

  // ---------------------------------------------------------------------------
  // TopLevelGroups

  /** strings.Split(strings.Split(fullPath, host)[0], "/")[0]; the outer index
      panics when the first split yields nothing. */
  function TopLevelComponent(fullPath: string, host: string): (r: Result<string>)
    ensures r.Err? <==> host == "" && fullPath == ""
    ensures r.Err? ==> r.error == IndexOutOfRange(0, 0)
  {
    var fp := Split(fullPath, host);
    if |fp| == 0 then Err(IndexOutOfRange(0, 0))
    else Ok(Split(fp[0], "/")[0])
  }

  /** For a non-empty host the component is the longest prefix of the full
      path in which neither "/" nor the host begins. */
  lemma TopLevelComponentWithHost(fullPath: string, host: string)
    requires host != ""
    ensures var r := TopLevelComponent(fullPath, host);
      && r.Ok?
      && r.value == fullPath[..|r.value|]
      && (forall j: nat :: j < |r.value| ==> fullPath[j] != '/' && !OccursAt(fullPath, host, j))
      && (|r.value| == |fullPath| || fullPath[|r.value|] == '/' || OccursAt(fullPath, host, |r.value|))
  {
    SplitFirst(fullPath, host);
    var h := Head(fullPath, host);
    HeadFree(fullPath, host);
    SplitFirst(h, "/");
    var r := Head(h, "/");
    assert TopLevelComponent(fullPath, host) == Ok(r);
    HeadFree(h, "/");
    forall j: nat | j < |r|
      ensures fullPath[j] != '/' && !OccursAt(fullPath, host, j)
    {
      assert h[j..j + 1] == [h[j]];
      assert !OccursAt(h, "/", j);
    }
    if |r| < |h| {
      assert OccursAt(h, "/", |r|);
      assert h[|r|..|r| + 1] == [h[|r|]];
    }
  }

  /** The empty host splits the path into single characters, so the
      component is the first character, unless that is "/". */
  lemma TopLevelComponentNoHost(fullPath: string)
    requires fullPath != ""
    ensures var r := TopLevelComponent(fullPath, "");
      r == Ok(if fullPath[0] == '/' then "" else fullPath[..1])
  {
    assert Split(fullPath, "") == [fullPath[..1]] + Explode(fullPath[1..]);
    var c := fullPath[..1];
    if c == "/" {
      assert Index(c, "/") == 0 by {
        assert OccursAt(c, "/", 0);
      }
    } else {
      assert !OccursAt(c, "/", 0);
    }
  }

  /** The Go loop panics on some group exactly in this case. */
  predicate Panics(groups: seq<Group>, host: string) {
    host == "" && exists i :: 0 <= i < |groups| && groups[i].fullPath == ""
  }

  /** Each group's top-level component, in the order of `groups`. */
  function Components(groups: seq<Group>, host: string): (cs: seq<string>)
    requires !Panics(groups, host)
    ensures |cs| == |groups|
    ensures forall i :: 0 <= i < |groups| ==> TopLevelComponent(groups[i].fullPath, host) == Ok(cs[i])
  {
    seq(|groups|, i requires 0 <= i < |groups| => TopLevelComponent(groups[i].fullPath, host).value)
  }

  predicate NoDuplicates(s: seq<string>) {
    forall i, j :: 0 <= i < j < |s| ==> s[i] != s[j]
  }

  /** `out` lists values of `xs` in the order in which they first appear there. */
  predicate InFirstSeenOrder(out: seq<string>, xs: seq<string>) {
    && (forall x :: x in out ==> x in xs)
    && (forall i, j :: 0 <= i < j < |out| ==> FirstIndex(xs, out[i]) < FirstIndex(xs, out[j]))
  }

  lemma FirstIndexSnoc(xs: seq<string>, y: string, x: string)
    requires x in xs
    ensures FirstIndex(xs + [y], x) == FirstIndex(xs, x)
  {
    var b := FirstIndex(xs, x);
    assert (xs + [y])[b] == x;
  }

  lemma FirstIndexNew(xs: seq<string>, x: string)
    requires x !in xs
    ensures FirstIndex(xs + [x], x) == |xs|
  {
    assert (xs + [x])[|xs|] == x;
  }

  /** One step of first-seen deduplication: appending a value to the input
      appends it to the output exactly when it is new, and keeps the output
      free of duplicates, equal as a set to the input, and in first-seen order. */
  lemma DedupStep(out: seq<string>, xs: seq<string>, x: string)
    requires NoDuplicates(out)
    requires forall y :: y in out <==> y in xs
    requires InFirstSeenOrder(out, xs)
    ensures var out' := if x in out then out else out + [x];
      && NoDuplicates(out')
      && (forall y :: y in out' <==> y in xs + [x])
      && InFirstSeenOrder(out', xs + [x])
  {
    forall y | y in xs ensures FirstIndex(xs + [x], y) == FirstIndex(xs, y) {
      FirstIndexSnoc(xs, x, y);
    }
    if x !in out {
      DedupStepNew(out, xs, x);
    }
  }

  /** The new-value case of DedupStep. */
  lemma DedupStepNew(out: seq<string>, xs: seq<string>, x: string)
    requires x !in xs && (forall y :: y in out <==> y in xs)
    requires InFirstSeenOrder(out, xs)
    requires forall y :: y in xs ==> FirstIndex(xs + [x], y) == FirstIndex(xs, y)
    ensures InFirstSeenOrder(out + [x], xs + [x])
  {
    var xs', out' := xs + [x], out + [x];
    FirstIndexNew(xs, x);
    forall i, j | 0 <= i < j < |out'| ensures FirstIndex(xs', out'[i]) < FirstIndex(xs', out'[j]) {
      var a := out[i];
      assert out'[i] == a && a in xs;
      assert FirstIndex(xs', a) == FirstIndex(xs, a) < |xs|;
      if j < |out| {
        var b := out[j];
        assert out'[j] == b && b in xs;
        assert FirstIndex(xs', b) == FirstIndex(xs, b);
      } else {
        assert out'[j] == x;
      }
    }
  }

  /** The values of `xs`, each kept where it first appears. */
  function Dedup(xs: seq<string>): seq<string> {
    if xs == [] then []
    else
      var rest := Dedup(xs[..|xs| - 1]);
      var x := xs[|xs| - 1];
      if x in rest then rest else rest + [x]
  }

  /** Dedup leaves no duplicates, keeps exactly the values of its input, and
      keeps them in first-seen order. */
  lemma {:induction false} DedupSpec(xs: seq<string>)
    ensures NoDuplicates(Dedup(xs))
    ensures forall y :: y in Dedup(xs) <==> y in xs
    ensures InFirstSeenOrder(Dedup(xs), xs)
  {
    if xs != [] {
      var init, x := xs[..|xs| - 1], xs[|xs| - 1];
      assert xs == init + [x];
      var d := Dedup(init);
      assert Dedup(xs) == if x in d then d else d + [x];
      DedupSpec(init);
      DedupStep(d, init, x);
    }
  }

  /** TopLevelGroups: each group's top-level component, kept the first time it
      is met (slices.Contains) and skipped after; Err when the Go code would
      panic on a group. */
  method TopLevelGroups(groups: seq<Group>, host: string) returns (r: Result<seq<string>>)
    ensures r.Err? <==> Panics(groups, host)
    ensures r.Err? ==> r.error == IndexOutOfRange(0, 0)
    ensures r.Ok? ==> r.value == Dedup(Components(groups, host))
    ensures groups == [] ==> r == Ok([])
  {
    ghost var results := ComponentResults(groups, host);
    var topLevelGroups: seq<string> := [];
    ghost var seen: seq<string> := [];     // the components met so far
    var k := 0;
    while k < |groups|
      invariant 0 <= k <= |groups| && |seen| == k
      invariant forall i :: 0 <= i < k ==> results[i] == Ok(seen[i])
      invariant topLevelGroups == Dedup(seen)
    {
      var c := TopLevelComponent(groups[k].fullPath, host);
      assert c == results[k];
      if c.Err? {
        assert groups[k].fullPath == "";
        return Err(c.error);
      }
      assert (seen + [c.value])[..k] == seen;
      if c.value !in topLevelGroups {
        topLevelGroups := topLevelGroups + [c.value];
      }
      seen := seen + [c.value];
      k := k + 1;
    }
    ComponentResultsOk(groups, host, seen);
    r := Ok(topLevelGroups);
  }

  function ComponentResults(groups: seq<Group>, host: string): seq<Result<string>>
  {
    seq(|groups|, i requires 0 <= i < |groups| => TopLevelComponent(groups[i].fullPath, host))
  }

  lemma ComponentResultsOk(groups: seq<Group>, host: string, seen: seq<string>)
    requires |seen| == |groups|
    requires forall i :: 0 <= i < |groups| ==> ComponentResults(groups, host)[i] == Ok(seen[i])
    ensures !Panics(groups, host) && seen == Components(groups, host)
  {
    var rs := ComponentResults(groups, host);
    forall i | 0 <= i < |groups| ensures host != "" || groups[i].fullPath != "" {
      assert rs[i] == TopLevelComponent(groups[i].fullPath, host);
    }
    var cs := Components(groups, host);
    forall i | 0 <= i < |groups| ensures seen[i] == cs[i] {
      assert rs[i] == TopLevelComponent(groups[i].fullPath, host);
    }
  }

  /** What TopLevelGroups promises: no duplicates, exactly the components of
      the groups, in the order in which they are first met. */
  lemma TopLevelGroupsSpec(groups: seq<Group>, host: string)
    requires !Panics(groups, host)
    ensures var out := Dedup(Components(groups, host));
      && NoDuplicates(out)
      && (forall x :: x in out <==> x in Components(groups, host))
      && InFirstSeenOrder(out, Components(groups, host))
  {
    DedupSpec(Components(groups, host));
  }

  // ---------------------------------------------------------------------------
  // ParentGroup

  /** ParentGroup: strings.Split(strings.Split(webURL, host)[1], "/")[1]; each
      index panics when its split has fewer than two pieces. For a non-empty
      host: take the text after the first host occurrence, up to the next one;
      the parent group is what follows its first "/" up to the next "/", and
      the call fails when the host does not occur or that text has no "/".
      The empty host splits the URL into single characters, so piece 1 is the
      second character, and the result is "" when that is "/". */
  function ParentGroup(webURL: string, host: string): (r: Result<string>)
    ensures host != "" && !Contains(webURL, host) ==> r == Err(IndexOutOfRange(1, 1))
    ensures host != "" && Contains(webURL, host) ==>
      var seg := Head(After(webURL, host), host);
      r == if Contains(seg, "/") then Ok(Head(After(seg, "/"), "/")) else Err(IndexOutOfRange(1, 1))
    ensures host == "" ==>
      r == if |webURL| < 2 then Err(IndexOutOfRange(1, |webURL|))
           else if webURL[1] == '/' then Ok("") else Err(IndexOutOfRange(1, 1))
  {
    var fullPath := Split(webURL, host);
    if |fullPath| < 2 then Err(IndexOutOfRange(1, |fullPath|))
    else
      ParentGroupPieces(webURL, host);
      var parentgroup := Split(fullPath[1], "/");
      if |parentgroup| < 2 then Err(IndexOutOfRange(1, |parentgroup|))
      else Ok(parentgroup[1])
  }

  /** The facts about the two splits of ParentGroup that its contract rests on. */
  lemma ParentGroupPieces(webURL: string, host: string)
    ensures host != "" ==>
      && (|Split(webURL, host)| >= 2 <==> Contains(webURL, host))
      && (Contains(webURL, host) ==>
            var seg := Head(After(webURL, host), host);
            && Split(webURL, host)[1] == seg
            && (|Split(seg, "/")| >= 2 <==> Contains(seg, "/"))
            && (Contains(seg, "/") ==> Split(seg, "/")[1] == Head(After(seg, "/"), "/"))
            && (!Contains(seg, "/") ==> |Split(seg, "/")| == 1))
      && (!Contains(webURL, host) ==> |Split(webURL, host)| == 1)
    ensures host == "" ==>
      && Split(webURL, host) == Explode(webURL)
      && (|webURL| >= 2 ==>
            Split(Explode(webURL)[1], "/") == if webURL[1] == '/' then ["", ""] else [webURL[1..2]])
  {
    if host != "" {
      SplitSecond(webURL, host);
      if Contains(webURL, host) {
        var seg := Head(After(webURL, host), host);
        SplitSecond(seg, "/");
      }
    } else if |webURL| >= 2 {
      SplitSlashChar(webURL[1..2]);
    }
  }

  /** A one-character text split on "/": two empty pieces for "/", else itself. */
  lemma SplitSlashChar(c: string)
    requires |c| == 1
    ensures Split(c, "/") == if c[0] == '/' then ["", ""] else [c]
  {
    if c[0] == '/' {
      assert OccursAt(c, "/", 0);
      assert Index(c, "/") == 0;
      assert c[1..] == "";
    } else {
      assert !OccursAt(c, "/", 0);
    }
  }

  // The examples below take the strings as parameters so that the verifier
  // does not try to evaluate the splits on literals; the character checks do.

  /** The URL shape of a GitLab project gives its group. */
  lemma ParentGroupExample(url: string)
    requires url == "https://host/GroupA/project1"
    ensures ParentGroup(url, "host") == Ok("GroupA")
  {
    var host, seg := "host", url[12..];
    ExampleUrlHost(url);
    ExampleUrlTail(url);
    GroupAPath(seg);
    var rest := seg[1..];
    assert After(url, host) == seg && Head(seg, host) == seg;
    assert After(seg, "/") == rest;
    assert Head(rest, "/") == rest[..6] == "GroupA";
  }

  /** In the example URL the host first occurs at 8, and not again. */
  lemma ExampleUrlHost(url: string)
    requires url == "https://host/GroupA/project1"
    ensures Index(url, "host") == 8 && !Contains(url[12..], "host")
  {
    assert AbsentBetween("https://host/GroupA/project1", "host", 6, 8);
    assert AbsentBetween("https://host/GroupA/project1", "host", 3, 8);
    assert AbsentBetween("https://host/GroupA/project1", "host", 0, 8);
    AbsentBetweenSound(url, "host", 0, 8);
    assert OccursAt(url, "host", 8);
    IndexIs(url, "host", 8);
    ExampleUrlTail(url);
    ExampleNoHost(url[12..]);
  }

  lemma ExampleUrlTail(url: string)
    requires url == "https://host/GroupA/project1"
    ensures url[12..] == "/GroupA/project1"
    ensures |url| >= 20 && url[12..][..8] == "/GroupA/"
  {
  }

  lemma ExampleNoHost(seg: string)
    requires seg == "/GroupA/project1"
    ensures !Contains(seg, "host")
  {
    assert NoCharFrom("/GroupA/project1", 'h', 8);
    assert NoCharFrom("/GroupA/project1", 'h', 0);
    NoCharAbsent(seg, "host", 0);
  }

  /** A text that starts with "/GroupA/" has its first "/" at 0 and the next one
      6 further on, with "GroupA" between them. */
  lemma GroupAPath(seg: string)
    requires |seg| >= 8 && seg[..8] == "/GroupA/"
    ensures Index(seg, "/") == 0 && Index(seg[1..], "/") == 6 && seg[1..7] == "GroupA"
  {
    var p, rest := "/GroupA/", seg[1..];
    assert forall i :: 0 <= i < 8 ==> seg[i] == seg[..8][i] == p[i];
    assert seg[0..1] == [seg[0]];
    assert OccursAt(seg, "/", 0);
    IndexIs(seg, "/", 0);
    forall j: nat | j < 6 ensures !OccursAt(rest, "/", j) {
      assert rest[j..j + 1] == [seg[j + 1]];
    }
    assert rest[6..7] == [seg[7]];
    assert OccursAt(rest, "/", 6);
    IndexIs(rest, "/", 6);
    assert seg[1..7] == p[1..7];
  }

  /** A project in a subgroup: the code gives the top-level group "GroupA",
      not the immediate parent "sub". */
  lemma ParentGroupSubgroupExample(url: string)
    requires url == "https://host/GroupA/sub/p"
    ensures ParentGroup(url, "host") == Ok("GroupA")
  {
    var host, seg := "host", url[12..];
    SubgroupUrlHost(url);
    SubgroupUrlTail(url);
    GroupAPath(seg);
    var rest := seg[1..];
    assert After(url, host) == seg && Head(seg, host) == seg;
    assert After(seg, "/") == rest;
    assert Head(rest, "/") == rest[..6] == "GroupA";
  }

  lemma SubgroupUrlHost(url: string)
    requires url == "https://host/GroupA/sub/p"
    ensures Index(url, "host") == 8 && !Contains(url[12..], "host")
  {
    assert AbsentBetween("https://host/GroupA/sub/p", "host", 6, 8);
    assert AbsentBetween("https://host/GroupA/sub/p", "host", 3, 8);
    assert AbsentBetween("https://host/GroupA/sub/p", "host", 0, 8);
    AbsentBetweenSound(url, "host", 0, 8);
    assert OccursAt(url, "host", 8);
    IndexIs(url, "host", 8);
    SubgroupUrlTail(url);
    SubgroupNoHost(url[12..]);
  }

  lemma SubgroupUrlTail(url: string)
    requires url == "https://host/GroupA/sub/p"
    ensures url[12..] == "/GroupA/sub/p"
    ensures |url| >= 20 && url[12..][..8] == "/GroupA/"
  {
  }

  lemma SubgroupNoHost(seg: string)
    requires seg == "/GroupA/sub/p"
    ensures !Contains(seg, "host")
  {
    assert NoCharFrom("/GroupA/sub/p", 'h', 7);
    assert NoCharFrom("/GroupA/sub/p", 'h', 0);
    NoCharAbsent(seg, "host", 0);
  }

  /** A URL with nothing after the host has no parent group. */
  lemma ParentGroupNoPathExample(url: string)
    requires url == "https://host"
    ensures ParentGroup(url, "host") == Err(IndexOutOfRange(1, 1))
  {
    var host := "host";
    assert AbsentBetween("https://host", "host", 4, 8);
    assert AbsentBetween("https://host", "host", 0, 8);
    AbsentBetweenSound(url, host, 0, 8);
    assert OccursAt(url, host, 8);
    IndexIs(url, host, 8);
    assert After(url, host) == "";
  }

  /** A FullPath holds no host, so its whole first segment is the top-level
      group. */
  lemma TopLevelComponentExample(fullPath: string)
    requires fullPath == "GroupA/sub/project"
    ensures TopLevelComponent(fullPath, "gitlab.example.com") == Ok("GroupA")
  {
    var host := "gitlab.example.com";
    ExampleFullPathNoHost(fullPath, host);
    assert Head(fullPath, host) == fullPath;
    ExampleFullPathSlash(fullPath);
    SplitFirst(fullPath, host);
    SplitFirst(fullPath, "/");
  }

  lemma ExampleFullPathNoHost(fullPath: string, host: string)
    requires fullPath == "GroupA/sub/project" && host == "gitlab.example.com"
    ensures !Contains(fullPath, host)
  {
    assert NoCharFrom("GroupA/sub/project", 'g', 9);
    assert NoCharFrom("GroupA/sub/project", 'g', 0);
    NoCharAbsent(fullPath, host, 0);
  }

  lemma ExampleFullPathSlash(fullPath: string)
    requires fullPath == "GroupA/sub/project"
    ensures Index(fullPath, "/") == 6 && fullPath[..6] == "GroupA"
  {
    assert AbsentBetween("GroupA/sub/project", "/", 3, 6);
    assert AbsentBetween("GroupA/sub/project", "/", 0, 6);
    AbsentBetweenSound(fullPath, "/", 0, 6);
    assert OccursAt(fullPath, "/", 6);
    IndexIs(fullPath, "/", 6);
  }

  /** A FullPath that starts with the host yields the empty text before it. */
  lemma TopLevelComponentHostFirst(fullPath: string, host: string)
    requires host != "" && OccursAt(fullPath, host, 0)
    ensures TopLevelComponent(fullPath, host) == Ok("")
  {
    TopLevelComponentWithHost(fullPath, host);
    var r := TopLevelComponent(fullPath, host).value;
    var first: nat := 0;
    assert |r| > 0 ==> !OccursAt(fullPath, host, first);
  }

  /** "host/A/x" with host "host" gives "", not "A". */
  lemma TopLevelComponentHostFirstExample(fullPath: string)
    requires fullPath == "host/A/x"
    ensures TopLevelComponent(fullPath, "host") == Ok("")
  {
    assert OccursAt(fullPath, "host", 0);
    TopLevelComponentHostFirst(fullPath, "host");
  }
}
