/** Crawl state: the frontier of pages still to visit and the set of pages
    already visited. `LocalState` keeps both in memory, the frontier in an
    ordered set that always hands out its smallest element first. */
module States {
  import opened Wrappers
  import opened Strings

  /** Names of the two sets of the shared-store backend within a namespace. */
  const FrontierResource := "pages-to-visit"
  const VisitedResource := "visited-pages"

  /** The store key `namespace:key` under which a crawl job keeps a resource. */
  function NamespaceKey(namespace: string, key: string): (k: string)
    ensures k == namespace + ":" + key
    ensures |k| == |namespace| + 1 + |key|
    ensures namespace + ":" <= k
  {
    namespace + ":" + key
  }

  /** As long as namespaces contain no `:`, two keys coincide only when both
      the namespace and the resource do: crawl jobs under different
      namespaces never share a key. */
  lemma NamespaceKeyInjective(ns1: string, key1: string, ns2: string, key2: string)
    requires ':' !in ns1 && ':' !in ns2
    ensures NamespaceKey(ns1, key1) == NamespaceKey(ns2, key2) <==> ns1 == ns2 && key1 == key2
  {
    assert NamespaceKey(ns1, key1) == ns1 + [':'] + key1;
    assert NamespaceKey(ns2, key2) == ns2 + [':'] + key2;
    UnambiguousJoin(ns1, key1, ns2, key2, ':');
  }

  /** In-memory crawl state. */
  class LocalState {
    var pagesToVisit: set<string>
    var visitedPages: set<string>

    /** A fresh crawl: only the root page is pending, nothing is visited. */
    constructor (rootPage: string)
      ensures pagesToVisit == {rootPage} && visitedPages == {}
    {
      pagesToVisit := {rootPage};
      visitedPages := {};
    }

    method AddPageToVisit(link: string) returns (status: Status)
      modifies this
      ensures pagesToVisit == old(pagesToVisit) + {link}
      ensures visitedPages == old(visitedPages)
      ensures status == Ok
    {
      pagesToVisit := pagesToVisit + {link};
      status := Ok;
    }

    /** Adds every link in turn; an error from a single insertion would
        abort the process (it is unwrapped), so the batch itself always
        succeeds. */
    method AddPagesToVisit(links: seq<string>) returns (status: Status)
      modifies this
      ensures pagesToVisit == old(pagesToVisit) + Elements(links)
      ensures visitedPages == old(visitedPages)
      ensures status == Ok
    {
      var i := 0;
      while i < |links|
        invariant 0 <= i <= |links|
        invariant pagesToVisit == old(pagesToVisit) + Elements(links[..i])
        invariant visitedPages == old(visitedPages)
      {
        var added := AddPageToVisit(links[i]);
        assert added == Ok;
        assert links[..i + 1] == links[..i] + [links[i]];
        i := i + 1;
      }
      assert links[..i] == links;
      status := Ok;
    }

    method AddPageToVisited(link: string) returns (status: Status)
      modifies this
      ensures visitedPages == old(visitedPages) + {link}
      ensures pagesToVisit == old(pagesToVisit)
      ensures IsPageVisited(link)
      ensures status == Ok
    {
      visitedPages := visitedPages + {link};
      status := Ok;
    }

    function IsPageVisited(link: string): (visited: bool)
      reads this
      ensures visited <==> link in visitedPages
    {
      link in visitedPages
    }

    function NonPageVisited(link: string): (unvisited: bool)
      reads this
      ensures unvisited <==> !IsPageVisited(link)
    {
      !IsPageVisited(link)
    }

    /** Takes the smallest pending page out of the frontier, or reports
        that there is none. */
    method NextPage() returns (page: Option<string>)
      modifies this
      ensures old(pagesToVisit) == {} ==> page == None && pagesToVisit == {}
      ensures old(pagesToVisit) != {} ==>
        && page == Some(Least(old(pagesToVisit)))
        && pagesToVisit == old(pagesToVisit) - {page.value}
      ensures visitedPages == old(visitedPages)
    {
      if pagesToVisit == {} {
        return None;
      }
      LeastExists(pagesToVisit);
      var first :| first in pagesToVisit && IsLeast(first, pagesToVisit);
      LeastUnique(first, Least(pagesToVisit), pagesToVisit);
      pagesToVisit := pagesToVisit - {first};
      page := Some(first);
    }

    method Reset() returns (status: Status)
      modifies this
      ensures pagesToVisit == {} && visitedPages == {}
      ensures status == Ok
    {
      pagesToVisit := {};
      visitedPages := {};
      status := Ok;
    }
  }

  /** A usage check, modelling no function of its own: a client of the
      contracts above can conclude that adding a page twice is adding it
      once, that a visited page stays visited until a reset, that pages
      come out smallest first, and that after a reset `NextPage` returns
      nothing and no earlier page counts as visited. */
  method StateContractsInUse(visitedLink: string)
  {
    var st := new LocalState("b");
    var _ := st.AddPageToVisit("a");
    ghost var once := st.pagesToVisit;
    var _ := st.AddPageToVisit("a");
    assert st.pagesToVisit == once == {"a", "b"};
    var _ := st.AddPageToVisited(visitedLink);
    assert Less("a", "b");
    assert IsLeast("a", {"a", "b"});
    LeastUnique("a", Least({"a", "b"}), {"a", "b"});
    var first := st.NextPage();
    assert first == Some("a") && st.pagesToVisit == {"b"};
    assert st.IsPageVisited(visitedLink);
    var _ := st.Reset();
    var none := st.NextPage();
    assert none == None && !st.IsPageVisited(visitedLink);
  }

  /** Calls `NextPage` on `st` `count` times in a row and collects the
      answers: they are `Pops` of the frontier as it was, the visited set is
      untouched, and once `count` reaches the frontier's size nothing is
      left pending. */
  method NextPages(st: LocalState, count: nat) returns (pages: seq<Option<string>>)
    modifies st
    ensures pages == Pops(old(st.pagesToVisit), count)
    ensures st.pagesToVisit <= old(st.pagesToVisit)
    ensures |old(st.pagesToVisit)| <= count ==> st.pagesToVisit == {}
    ensures st.visitedPages == old(st.visitedPages)
  {
    ghost var start := st.pagesToVisit;
    pages := [];
    var i := 0;
    assert pages + Pops(start, count) == Pops(start, count);
    while i < count
      invariant i <= count && Draining(start, pages, st.pagesToVisit, i, count)
      invariant st.visitedPages == old(st.visitedPages)
    {
      ghost var before := st.pagesToVisit;
      var page := st.NextPage();
      DrainingStep(start, pages, before, st.pagesToVisit, page, i, count);
      pages := pages + [page];
      i := i + 1;
    }
    DrainingDone(start, pages, st.pagesToVisit, count);
  }

  /** Where `NextPages` stands after `i` of its `count` calls: `pages` holds
      the answers so far, `front` is the frontier left, and the answers
      still to come are `Pops(front, count - i)`. */
  ghost predicate Draining(start: set<string>, pages: seq<Option<string>>, front: set<string>, i: nat, count: nat)
    requires i <= count
  {
    && front <= start
    && (i <= |start| ==> |front| == |start| - i)
    && (i >= |start| ==> front == {})
    && pages + Pops(front, count - i) == Pops(start, count)
  }

  /** One more `NextPage` call keeps `Draining`. */
  lemma DrainingStep(start: set<string>, pages: seq<Option<string>>, before: set<string>,
                     after: set<string>, page: Option<string>, i: nat, count: nat)
    requires i < count && Draining(start, pages, before, i, count)
    requires before == {} ==> page == None && after == {}
    requires before != {} ==> page == Some(Least(before)) && after == before - {page.value}
    ensures Draining(start, pages + [page], after, i + 1, count)
  {
    assert Pops(before, count - i) == [page] + Pops(after, count - i - 1);
    assert pages + ([page] + Pops(after, count - i - 1)) == (pages + [page]) + Pops(after, count - i - 1);
    if before != {} {
      assert |after| == |before| - 1;
    }
  }

  /** After all `count` calls, `Draining` gives the method's contract. */
  lemma DrainingDone(start: set<string>, pages: seq<Option<string>>, front: set<string>, count: nat)
    requires Draining(start, pages, front, count, count)
    ensures pages == Pops(start, count)
    ensures front <= start
    ensures |start| <= count ==> front == {}
  {
    assert Pops(front, 0) == [];
    assert pages + [] == pages;
  }

  /** What `count` successive `NextPage` calls return, starting from the
      frontier `frontier` (with nothing added in between). */
  ghost function Pops(frontier: set<string>, count: nat): (pops: seq<Option<string>>)
    ensures |pops| == count
    ensures forall i :: 0 <= i < count && pops[i].Some? ==> pops[i].value in frontier
    ensures count > |frontier| ==> pops[count - 1] == None
    decreases count
  {
    if count == 0 then []
    else if frontier == {} then [None] + Pops(frontier, count - 1)
    else [Some(Least(frontier))] + Pops(frontier - {Least(frontier)}, count - 1)
  }

  /** Draining the frontier: the first `|frontier|` calls return its
      elements in ascending order, each exactly once, and every later call
      returns nothing. */
  lemma {:induction false} Drain(frontier: set<string>, count: nat)
    requires |frontier| <= count
    ensures |Pops(frontier, count)| == count
    ensures |Ascending(frontier)| == |frontier|
    ensures forall i :: 0 <= i < |frontier| ==> Pops(frontier, count)[i] == Some(Ascending(frontier)[i])
    ensures forall i :: |frontier| <= i < count ==> Pops(frontier, count)[i] == None
    decreases count
  {
    if frontier == {} {
      if count > 0 {
        Drain(frontier, count - 1);
        assert Pops(frontier, count) == [None] + Pops(frontier, count - 1);
      }
    } else {
      var first := Least(frontier);
      var rest := frontier - {first};
      assert |rest| == |frontier| - 1;
      Drain(rest, count - 1);
      var tail := Pops(rest, count - 1);
      assert Ascending(frontier) == [first] + Ascending(rest);
      assert Pops(frontier, count) == [Some(first)] + tail;
      forall i | 0 < i < |frontier|
        ensures Pops(frontier, count)[i] == Some(Ascending(frontier)[i])
      {
        assert Pops(frontier, count)[i] == tail[i - 1];
        assert Ascending(frontier)[i] == Ascending(rest)[i - 1];
      }
      forall i | |frontier| <= i < count
        ensures Pops(frontier, count)[i] == None
      {
        assert Pops(frontier, count)[i] == tail[i - 1];
      }
    }
  }

  /** Links inserted one by one into an empty frontier, none twice, come
      back out in ascending order, each of them exactly once. */
  lemma DrainInsertedLinks(links: seq<string>)
    requires Distinct(links)
    ensures |Ascending(Elements(links))| == |links|
    ensures forall l :: l in Ascending(Elements(links)) <==> l in links
    ensures Distinct(Ascending(Elements(links)))
    ensures forall i, j :: 0 <= i < j < |links| ==>
      Less(Ascending(Elements(links))[i], Ascending(Elements(links))[j])
  {
    DistinctElements(links);
    var drained := Ascending(Elements(links));
    AscendingSpec(Elements(links));
    forall i, j | 0 <= i < j < |drained| ensures drained[i] != drained[j] {
      LessIrreflexive(drained[i]);
    }
  }
}
