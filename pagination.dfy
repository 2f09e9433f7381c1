/** The two "fetch every page" strategies of the GitLab accessor: the fan-out
    over a page count planned from the total (GitlabProjects) and the cursor
    walk that follows NextPage (GitlabGroups). The client library is a function
    from a page number to what ListProjects / ListGroups would return for it. */
module Pagination {
  import opened GitlabTypes

  /** ITEMS_PER_PAGE: the page size asked of the server. */
  const ItemsPerPage: nat := 100

  // ---------------------------------------------------------------------------
  // Page planning

  /** pagesToCheck := ceil(count / ITEMS_PER_PAGE), in integer arithmetic. */
  function PagesToCheck(count: nat): (pages: nat)
    ensures pages == 0 <==> count == 0
    ensures pages > 0 ==> (pages - 1) * ItemsPerPage < count <= pages * ItemsPerPage
  {
    (count + ItemsPerPage - 1) / ItemsPerPage
  }

  /** The page count is the only number of pages that covers `count` items
      with no page left over. */
  lemma PagesToCheckUnique(count: nat, pages: nat)
    requires count <= pages * ItemsPerPage
    requires pages == 0 || (pages - 1) * ItemsPerPage < count
    ensures pages == PagesToCheck(count)
  {
  }

  // ---------------------------------------------------------------------------
  // Fan-out merge (GitlabProjects)

  /** What ListProjects returns for one page: the items, and the error if the
      call failed (the items are kept either way). */
  datatype ProjectPage<T> = ProjectPage(items: seq<T>, err: Option<Error>)

  /** The page indices 1..n, in the order the for-loop launches them. */
  function PageRange(n: nat): seq<int>
  {
    seq(n, k => k + 1)
  }

  /** The item slice after appending the pages in `order`, one after another. */
  function MergeInOrder<T>(fetch: int -> ProjectPage<T>, order: seq<int>): seq<T>
  {
    if order == [] then [] else MergeInOrder(fetch, order[..|order| - 1]) + fetch(order[|order| - 1]).items
  }

  /** The number of items the pages in `order` return, page by page. */
  function SumLengths<T>(fetch: int -> ProjectPage<T>, order: seq<int>): nat
  {
    if order == [] then 0 else |fetch(order[0]).items| + SumLengths(fetch, order[1..])
  }

  lemma {:induction false} MergeAppend<T>(fetch: int -> ProjectPage<T>, u: seq<int>, v: seq<int>)
    ensures MergeInOrder(fetch, u + v) == MergeInOrder(fetch, u) + MergeInOrder(fetch, v)
    decreases |v|
  {
    if v == [] {
      assert u + v == u;
    } else {
      var w, x := v[..|v| - 1], v[|v| - 1];
      assert (u + v)[..|u + v| - 1] == u + w && (u + v)[|u + v| - 1] == x;
      assert MergeInOrder(fetch, u + v) == MergeInOrder(fetch, u + w) + fetch(x).items;
      assert MergeInOrder(fetch, v) == MergeInOrder(fetch, w) + fetch(x).items;
      MergeAppend(fetch, u, w);
    }
  }

  /** The merged slice holds as many items as the pages returned. */
  lemma {:induction false} MergeLength<T>(fetch: int -> ProjectPage<T>, order: seq<int>)
    ensures |MergeInOrder(fetch, order)| == SumLengths(fetch, order)
    decreases |order|
  {
    if order != [] {
      MergeAppend(fetch, [order[0]], order[1..]);
      assert [order[0]] + order[1..] == order;
      assert MergeInOrder(fetch, [order[0]]) == fetch(order[0]).items by {
        assert [order[0]][..0] == [];
      }
      MergeLength(fetch, order[1..]);
    }
  }

  /** Taking one page out of an order takes exactly its items out of the merge. */
  lemma MergeRemove<T>(fetch: int -> ProjectPage<T>, b1: seq<int>, x: int, b2: seq<int>)
    ensures multiset(MergeInOrder(fetch, b1 + [x] + b2))
         == multiset(MergeInOrder(fetch, b1 + b2)) + multiset(fetch(x).items)
  {
    var m1, mx, m2 := MergeInOrder(fetch, b1), fetch(x).items, MergeInOrder(fetch, b2);
    assert MergeInOrder(fetch, b1 + [x] + b2) == m1 + mx + m2 by {
      MergeAppend(fetch, b1 + [x], b2);
      MergeAppend(fetch, b1, [x]);
      MergeSingle(fetch, x);
    }
    assert MergeInOrder(fetch, b1 + b2) == m1 + m2 by {
      MergeAppend(fetch, b1, b2);
    }
    assert multiset(m1 + mx + m2) == multiset(m1 + mx) + multiset(m2);
    assert multiset(m1 + mx) == multiset(m1) + multiset(mx);
    assert multiset(m1 + m2) == multiset(m1) + multiset(m2);
  }

  lemma MergeSnoc<T>(fetch: int -> ProjectPage<T>, order: seq<int>, x: int)
    ensures MergeInOrder(fetch, order + [x]) == MergeInOrder(fetch, order) + fetch(x).items
  {
    assert (order + [x])[..|order|] == order;
  }

  lemma MergeSingle<T>(fetch: int -> ProjectPage<T>, x: int)
    ensures MergeInOrder(fetch, [x]) == fetch(x).items
  {
    assert [x][..0] == [];
  }

  /** Order independence: appending the same pages in any two orders gives the
      same multiset of items. */
  lemma {:induction false} MergeOrderIndependent<T>(fetch: int -> ProjectPage<T>, a: seq<int>, b: seq<int>)
    requires multiset(a) == multiset(b)
    ensures multiset(MergeInOrder(fetch, a)) == multiset(MergeInOrder(fetch, b))
    decreases |a|
  {
    if a != [] {
      var x, a' := a[|a| - 1], a[..|a| - 1];
      assert a == a' + [x];
      assert x in b by {
        assert x in multiset(a);
      }
      var k := FirstIndex(b, x);
      var b1, b2 := b[..k], b[k + 1..];
      assert b == b1 + [x] + b2;
      MultisetRemove(a' + [x], |a'|);
      MultisetRemove(b1 + [x] + b2, k);
      assert (a' + [x])[..|a'|] + (a' + [x])[|a'| + 1..] == a';
      assert (b1 + [x] + b2)[..k] + (b1 + [x] + b2)[k + 1..] == b1 + b2;
      MergeOrderIndependent(fetch, a', b1 + b2);
      MergeStep(fetch, a', x, b1, b2);
    }
  }

  /** Appending the same pages in any two orders gives slices of the same length. */
  lemma MergeOrderLength<T>(fetch: int -> ProjectPage<T>, a: seq<int>, b: seq<int>)
    requires multiset(a) == multiset(b)
    ensures |MergeInOrder(fetch, a)| == |MergeInOrder(fetch, b)|
  {
    MergeOrderIndependent(fetch, a, b);
    assert |multiset(MergeInOrder(fetch, a))| == |MergeInOrder(fetch, a)|;
    assert |multiset(MergeInOrder(fetch, b))| == |MergeInOrder(fetch, b)|;
  }

  /** Adding the same page to two orders with the same merged items keeps them the same. */
  lemma MergeStep<T>(fetch: int -> ProjectPage<T>, a: seq<int>, x: int, b1: seq<int>, b2: seq<int>)
    requires multiset(MergeInOrder(fetch, a)) == multiset(MergeInOrder(fetch, b1 + b2))
    ensures multiset(MergeInOrder(fetch, a + [x])) == multiset(MergeInOrder(fetch, b1 + [x] + b2))
  {
    MergeRemove(fetch, b1, x, b2);
    MergeRemove(fetch, a, x, []);
    assert a + [x] + [] == a + [x] && a + [] == a;
  }

  lemma MultisetRemove(b: seq<int>, k: nat)
    requires k < |b|
    ensures multiset(b[..k] + b[k + 1..]) == multiset(b) - multiset{b[k]}
  {
    assert b == b[..k] + [b[k]] + b[k + 1..];
  }

  /** Launching one more page extends the range by that page. */
  lemma PageRangeSnoc(n: nat)
    ensures PageRange(n + 1) == PageRange(n) + [n + 1]
  {
  }

  /** multiset(PageRange(n)) holds each page index 1..n exactly once. */
  lemma {:induction false} PageRangeCounts(n: nat)
    ensures forall p :: multiset(PageRange(n))[p] == if 1 <= p <= n then 1 else 0
  {
    if n > 0 {
      PageRangeCounts(n - 1);
      PageRangeSnoc(n - 1);
    }
  }

  /** GitlabProjects: the count step, then one goroutine per page 1..pagesToCheck,
      each appending its page's items (error or not) under the mutex; returns
      after wg.Wait(). The goroutines finish in an order the scheduler picks:
      `completed` records it, and every postcondition holds whatever it is. */
  method GitlabProjects<T>(count: Result<int>, fetch: int -> ProjectPage<T>)
    returns (r: Result<seq<T>>, launched: seq<int>, completed: seq<int>)
    ensures count.Err? ==> r == Err(count.error) && launched == [] && completed == []
    ensures count.Ok? && !CapFits(count.value) ==>
      r == Err(CapOutOfRange(count.value)) && launched == [] && completed == []
    ensures count.Ok? && CapFits(count.value) ==>
      var pages := PagesToCheck(count.value);
      && launched == PageRange(pages)
      && (forall p :: multiset(completed)[p] == if 1 <= p <= pages then 1 else 0)
      && r.Ok?
      && r.value == MergeInOrder(fetch, completed)
      && multiset(r.value) == multiset(MergeInOrder(fetch, PageRange(pages)))
      && |r.value| == SumLengths(fetch, PageRange(pages))
  {
    if count.Err? {
      return Err(count.error), [], [];
    }
    var projectCount := count.value;
    if !CapFits(projectCount) {
      // make([]*gitlab.Project, 0, projectCount) panics
      return Err(CapOutOfRange(projectCount)), [], [];
    }
    var projects: seq<T> := [];
    var pagesToCheck := PagesToCheck(projectCount);
    var wg := pagesToCheck;                 // wg.Add(pagesToCheck)
    var running: seq<int> := [];          // the goroutines not yet finished
    launched := [];
    var page := 1;
    while page < pagesToCheck + 1
      invariant 1 <= page <= pagesToCheck + 1
      invariant launched == PageRange(page - 1)
      invariant running == launched
      invariant wg == pagesToCheck
    {
      PageRangeSnoc(page - 1);
      launched := launched + [page];        // go func(&wg, page)
      running := running + [page];
      page := page + 1;
    }
    completed := [];
    while running != []
      invariant wg == |running|
      invariant multiset(completed) + multiset(running) == multiset(launched)
      invariant projects == MergeInOrder(fetch, completed)
      decreases |running|
    {
      var k :| 0 <= k < |running|;          // the goroutine that gets the mutex next
      var p := running[k];
      projects := projects + fetch(p).items;
      MergeSnoc(fetch, completed, p);
      completed := completed + [p];
      MultisetRemove(running, k);
      running := running[..k] + running[k + 1..];
      wg := wg - 1;                         // defer wg.Done()
    }
    assert wg == 0;                         // wg.Wait() returns
    assert multiset(completed) == multiset(launched);
    PageRangeCounts(pagesToCheck);
    MergeOrderIndependent(fetch, completed, launched);
    MergeOrderLength(fetch, completed, launched);
    MergeLength(fetch, launched);
    r := Ok(projects);
  }

  // ---------------------------------------------------------------------------
  // Cursor walk (GitlabGroups)

  /** What ListGroups returns for one page: the items, resp.NextPage (0 when
      there is none) and the error if the call failed. */
  datatype CursorPage<T> = CursorPage(items: seq<T>, nextPage: int, err: Option<Error>)

  /** The loop leaves after this page: it failed, or it is the last one. */
  predicate Stops<T>(list: int -> CursorPage<T>, page: int) {
    list(page).err.Some? || list(page).nextPage == 0
  }

  /** The pages requested when the walk starts at `page`, as long as it lasts
      but at most `fuel` of them. */
  function Chain<T>(list: int -> CursorPage<T>, page: int, fuel: nat): (c: seq<int>)
    ensures |c| <= fuel
    decreases fuel
  {
    if fuel == 0 then []
    else if Stops(list, page) then [page]
    else [page] + Chain(list, list(page).nextPage, fuel - 1)
  }

  /** The walk from `page` stops within `fuel` requests. */
  predicate Finishes<T>(list: int -> CursorPage<T>, page: int, fuel: nat) {
    var c := Chain(list, page, fuel);
    |c| > 0 && Stops(list, c[|c| - 1])
  }

  /** The items of the pages in `pages`, appended in that order. */
  function Gathered<T>(list: int -> CursorPage<T>, pages: seq<int>): seq<T>
  {
    if pages == [] then [] else Gathered(list, pages[..|pages| - 1]) + list(pages[|pages| - 1]).items
  }

  lemma GatheredSnoc<T>(list: int -> CursorPage<T>, pages: seq<int>, page: int)
    ensures Gathered(list, pages + [page]) == Gathered(list, pages) + list(page).items
  {
    assert (pages + [page])[..|pages|] == pages;
  }

  /** A finished walk starts at `page`, requests exactly each NextPage in turn,
      meets no error before its last page, and stops at a page that failed or
      has NextPage == 0. */
  lemma {:induction false} ChainShape<T>(list: int -> CursorPage<T>, page: int, fuel: nat)
    requires Finishes(list, page, fuel)
    ensures var c := Chain(list, page, fuel);
      && c[0] == page
      && (forall i :: 0 <= i < |c| - 1 ==>
            list(c[i]).err.None? && list(c[i]).nextPage != 0 && c[i + 1] == list(c[i]).nextPage)
      && Stops(list, c[|c| - 1])
    decreases fuel
  {
    var c := Chain(list, page, fuel);
    if !Stops(list, page) {
      var next := list(page).nextPage;
      var rest := Chain(list, next, fuel - 1);
      assert c == [page] + rest;
      assert |rest| > 0;
      ChainShape(list, next, fuel - 1);
      forall i | 0 <= i < |c| - 1
        ensures list(c[i]).err.None? && list(c[i]).nextPage != 0 && c[i + 1] == list(c[i]).nextPage
      {
        if i > 0 {
          assert c[i] == rest[i - 1] && c[i + 1] == rest[i];
        }
      }
    }
  }

  /** GitlabGroups: the count step, then ListGroups from page 1, appending each
      page and following resp.NextPage until it is 0; the first error is
      returned and what was gathered is dropped. The Go loop has no bound, so
      the caller vouches (with the ghost `fuel`) that the walk from page 1
      stops; `requested` lists the pages asked for. */
  method GitlabGroups<T>(count: Result<int>, list: int -> CursorPage<T>, ghost fuel: nat)
    returns (r: Result<seq<T>>, requested: seq<int>)
    requires count.Ok? && CapFits(count.value) ==> Finishes(list, 1, fuel)
    ensures count.Err? ==> r == Err(count.error) && requested == []
    ensures count.Ok? && !CapFits(count.value) ==> r == Err(CapOutOfRange(count.value)) && requested == []
    ensures count.Ok? && CapFits(count.value) ==>
      && requested == Chain(list, 1, fuel)
      && var last := list(requested[|requested| - 1]);
         r == if last.err.Some? then Err(last.err.value) else Ok(Gathered(list, requested))
  {
    if count.Err? {
      return Err(count.error), [];
    }
    if !CapFits(count.value) {
      // make([]*gitlab.Group, 0, groupCount) panics
      return Err(CapOutOfRange(count.value)), [];
    }
    var groups: seq<T> := [];
    var page := 1;                          // listGroupsOptions.Page
    requested := [];
    ghost var walk := Chain(list, 1, fuel);
    ChainShape(list, 1, fuel);
    while true
      invariant |requested| < |walk| && requested == walk[..|requested|]
      invariant page == walk[|requested|]
      invariant groups == Gathered(list, requested)
      decreases |walk| - |requested|
    {
      var resp := list(page);
      GatheredSnoc(list, requested, page);
      requested := requested + [page];
      if resp.err.Some? {
        assert requested == walk;
        return Err(resp.err.value), requested;
      }
      groups := groups + resp.items;
      if resp.nextPage == 0 {
        assert requested == walk;
        break;
      }
      page := resp.nextPage;
    }
    r := Ok(groups);
  }
}
