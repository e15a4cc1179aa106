/** The crawl engine: resolving the links found on a page, filtering out
    links to files and to visited pages, and the loop that pops a page,
    fetches it, delivers it to the sink, marks it visited and schedules its
    new links. Fetching, HTML parsing, URL parsing and the sink are outside
    collaborators and are taken as parameters. */
module Crawlers {
  import opened Wrappers
  import opened Strings
  import opened UrlRoot
  import opened Entities
  import opened States

  // ---------------------------------------------------------------------
  // Link resolution

  /** Turns an `href` found on the page at `hostLink` into an absolute link
      under the page's root, or drops it. A root-relative link is appended
      to the page's root, a link whose text starts with the root is kept as
      is, anything else (a link not prefixed by the root, or a relative link
      without a leading `/`) is dropped, and so is every link of a page
      without a domain. The test is on text only: a host that merely
      extends the page's domain passes it (`ResolveKeepsLongerHost`). */
  function ResolveLink(hostLink: Url, link: string): (resolved: Option<string>)
    ensures Root(hostLink).None? ==> resolved == None
    ensures Root(hostLink).Some? && "/" <= link ==> resolved == Some(Root(hostLink).value + link)
    ensures Root(hostLink).Some? && !("/" <= link) && Root(hostLink).value <= link ==> resolved == Some(link)
    ensures Root(hostLink).Some? && !("/" <= link) && !(Root(hostLink).value <= link) ==> resolved == None
    ensures resolved.Some? ==> Root(hostLink).Some? && Root(hostLink).value <= resolved.value
  {
    match Root(hostLink)
    case None => None
    case Some(root) =>
      if "/" <= link then Some(root + link)
      else if root <= link then Some(link)
      else None
  }

  /** A resolved link resolves to itself: resolution is idempotent. */
  lemma ResolveIdempotent(hostLink: Url, link: string)
    requires ValidScheme(hostLink.scheme)
    requires ResolveLink(hostLink, link).Some?
    ensures ResolveLink(hostLink, ResolveLink(hostLink, link).value) == ResolveLink(hostLink, link)
  {
    var root := Root(hostLink).value;
    var resolved := ResolveLink(hostLink, link).value;
    assert resolved[0] == root[0] == hostLink.scheme[0];
  }

  /** The root test is a text-prefix test, not an origin comparison: on
      `https://example.com/`, a link to the host `example.com.evil.org` is
      kept. */
  lemma ResolveKeepsLongerHost(hostLink: Url, suffix: string)
    requires Root(hostLink).Some?
    requires !("/" <= Root(hostLink).value + suffix)
    ensures ResolveLink(hostLink, Root(hostLink).value + suffix) == Some(Root(hostLink).value + suffix)
  {
    assert Root(hostLink).value <= Root(hostLink).value + suffix;
  }

  /** Pages with the same root resolve every link alike. */
  lemma ResolveDependsOnRootOnly(page1: Url, page2: Url, link: string)
    requires Root(page1) == Root(page2)
    ensures ResolveLink(page1, link) == ResolveLink(page2, link)
  {
  }

  /** The absolute links under the root of a page, in the order of its `href`s. */
  function FindAllLinks(pageLink: Url, hrefs: seq<string>): (links: seq<string>)
    ensures |links| <= |hrefs|
    ensures forall l :: l in links <==> exists h :: h in hrefs && ResolveLink(pageLink, h) == Some(l)
    ensures Root(pageLink).None? ==> links == []
  {
    if hrefs == [] then []
    else
      var rest := FindAllLinks(pageLink, hrefs[1..]);
      match ResolveLink(pageLink, hrefs[0])
      case Some(l) => [l] + rest
      case None => rest
  }

  // ---------------------------------------------------------------------
  // The file-link filter `\.\w+$`

  /** `\w`, restricted to ASCII: a letter, a digit or `_`. */
  predicate IsWordChar(c: char)
  {
    'a' <= c <= 'z' || 'A' <= c <= 'Z' || '0' <= c <= '9' || c == '_'
  }

  /** The language of the regular expression `\.\w+$`, searched anywhere in
      the string: a `.` followed by one or more word characters that run to
      the end. */
  ghost predicate MatchesFilePattern(s: string)
  {
    exists i :: 0 <= i < |s| - 1 && s[i] == '.' && forall j :: i < j < |s| ==> IsWordChar(s[j])
  }

  /** The length of the longest run of word characters at the end of `s`. */
  function TrailingWordChars(s: string): (k: nat)
    ensures k <= |s|
    ensures forall j :: |s| - k <= j < |s| ==> IsWordChar(s[j])
    ensures k < |s| ==> !IsWordChar(s[|s| - 1 - k])
  {
    if |s| == 0 || !IsWordChar(s[|s| - 1]) then 0 else TrailingWordChars(s[..|s| - 1]) + 1
  }

  /** Whether a link looks like a file: its trailing word run is non-empty
      and preceded by a dot. */
  predicate IsFileLink(link: string)
    ensures IsFileLink(link) ==> '.' in link && IsWordChar(link[|link| - 1])
  {
    var k := TrailingWordChars(link);
    0 < k < |link| && link[|link| - 1 - k] == '.'
  }

  /** The scan agrees with the regular expression. */
  lemma FileLinkMatchesPattern(link: string)
    ensures IsFileLink(link) <==> MatchesFilePattern(link)
  {
    var n, k := |link|, TrailingWordChars(link);
    if IsFileLink(link) {
      assert forall j :: n - 1 - k < j < n ==> IsWordChar(link[j]);
    }
    if MatchesFilePattern(link) {
      var i :| 0 <= i < n - 1 && link[i] == '.' && forall j :: i < j < n ==> IsWordChar(link[j]);
      assert !IsWordChar(link[i]);
      assert i < n - k;
      assert k < n ==> !IsWordChar(link[n - 1 - k]);
      assert n - 1 - k == i;
    }
  }

  /** The links worth scheduling: not a file, not yet visited. */
  function FilterLinks(links: seq<string>, visited: set<string>): (kept: seq<string>)
    ensures |kept| <= |links|
    ensures forall l :: l in kept <==> l in links && !IsFileLink(l) && l !in visited
  {
    if links == [] then []
    else
      var rest := FilterLinks(links[1..], visited);
      if !IsFileLink(links[0]) && links[0] !in visited then [links[0]] + rest else rest
  }

  // ---------------------------------------------------------------------
  // One iteration of the crawl loop, as a state machine

  /** A fetched and parsed page: its re-serialized HTML and the `href`
      attributes of its anchors, in document order. */
  datatype Document = Document(html: string, hrefs: seq<string>)

  /** The outside world the engine talks to: URL parsing (`None` is a parse
      error), fetching a page (`None` is a transport error), and the sink's
      write. */
  datatype Env = Env(
    parse: string -> Option<Url>,
    fetch: Url -> Option<Document>,
    sinkWrite: Page -> Status)

  /** Parsing a link and writing it back gives the same link. */
  ghost predicate Normalizing(env: Env)
  {
    forall link :: env.parse(link).Some? ==> env.parse(link).value.serialization == link
  }

  /** The frontier, the visited set and the pages the sink has accepted. */
  datatype CrawlState = CrawlState(frontier: set<string>, visited: set<string>, log: seq<Page>)

  datatype StepOutcome = Exhausted | Crawled | Failed(error: Error)

  /** One pass of the loop body: pop the smallest pending link; parse and
      fetch it; hand the page to the sink; mark it visited; resolve its
      links, drop files and visited pages, and schedule the rest. Every
      failure stops the iteration where it happens, and the popped link
      stays popped. */
  ghost function NextState(env: Env, s: CrawlState): (r: (StepOutcome, CrawlState))
    ensures r.0 == Exhausted <==> s.frontier == {}
    ensures r.0 != Crawled ==> r.1.visited == s.visited && r.1.log == s.log
    ensures r.0 == Crawled ==> |r.1.log| == |s.log| + 1 && s.log <= r.1.log
  {
    if s.frontier == {} then (Exhausted, s)
    else
      var link := Least(s.frontier);
      var popped := s.(frontier := s.frontier - {link});
      match env.parse(link)
      case None => (Failed(ParseError), popped)
      case Some(url) =>
        match env.fetch(url)
        case None => (Failed(TransportError), popped)
        case Some(doc) =>
          var page := Page(url, doc.html);
          match env.sinkWrite(page)
          case Err(e) => (Failed(e), popped)
          case Ok =>
            var visited := s.visited + {url.serialization};
            var newLinks := FilterLinks(FindAllLinks(url, doc.hrefs), visited);
            (Crawled, CrawlState(popped.frontier + Elements(newLinks), visited, s.log + [page]))
  }

  /** The loop ends exactly when the frontier is empty, and then nothing
      changes. */
  lemma StepExhausted(env: Env, s: CrawlState)
    ensures NextState(env, s).0 == Exhausted <==> s.frontier == {}
    ensures s.frontier == {} ==> NextState(env, s).1 == s
  {
  }

  /** A failed iteration loses the popped link and changes nothing else:
      nothing is rolled back and nothing more is delivered or visited. */
  lemma StepFailed(env: Env, s: CrawlState)
    requires NextState(env, s).0.Failed?
    ensures s.frontier != {}
    ensures NextState(env, s).1 == s.(frontier := s.frontier - {Least(s.frontier)})
  {
  }

  /** A completed iteration: the smallest pending link is taken out, its
      page is delivered and marked visited, and the frontier gains exactly
      the page's resolved, non-file links that are not visited by then. */
  lemma StepCrawled(env: Env, s: CrawlState)
    requires NextState(env, s).0 == Crawled
    ensures s.frontier != {}
    ensures var link := Least(s.frontier);
      && env.parse(link).Some? && env.fetch(env.parse(link).value).Some?
      && var url := env.parse(link).value;
      && var doc := env.fetch(url).value;
      && var next := NextState(env, s).1;
      && next.log == s.log + [Page(url, doc.html)]
      && next.visited == s.visited + {url.serialization}
      && (forall l :: l in next.frontier <==>
            (l in s.frontier && l != link)
            || (l in FindAllLinks(url, doc.hrefs) && !IsFileLink(l) && l !in next.visited))
  {
  }

  /** An iteration never schedules a visited link: a link that is both
      pending and visited afterwards was already pending before, and it is
      not the link the iteration popped. */
  lemma StepNeverSchedulesVisited(env: Env, s: CrawlState)
    ensures forall l ::
      (l in NextState(env, s).1.frontier && l in NextState(env, s).1.visited ==>
        l in s.frontier && l != Least(s.frontier))
  {
  }

  /** Without faithful parsing the loop need not end: a pending link whose
      parsed form serializes differently (`https://example.com/a/../b`
      against `https://example.com/b`) is marked visited only in its
      serialized form, so when its page links back to it, the iteration
      leaves the same frontier and delivers the same page again, however
      often it is repeated. */
  lemma NonNormalizingLinkComesBack(env: Env, link: string, visited: set<string>, log: seq<Page>)
    requires env.parse(link).Some? && env.parse(link).value.serialization != link
    requires env.fetch(env.parse(link).value).Some?
    requires var url := env.parse(link).value;
      env.sinkWrite(Page(url, env.fetch(url).value.html)) == Ok
      && FindAllLinks(url, env.fetch(url).value.hrefs) == [link]
    requires !IsFileLink(link) && link !in visited
    ensures var url := env.parse(link).value;
      NextState(env, CrawlState({link}, visited, log))
        == (Crawled, CrawlState({link}, visited + {url.serialization}, log + [Page(url, env.fetch(url).value.html)]))
  {
    var url := env.parse(link).value;
    assert Least({link}) == link by {
      LeastUnique(link, Least({link}), {link});
    }
    var visitedNext := visited + {url.serialization};
    assert link !in visitedNext;
    assert FilterLinks([link], visitedNext) == [link];
    assert Elements([link]) == {link};
    assert ({link} - {link}) + {link} == {link};
  }

  /** A link to a bare host is taken for a file: `https://example.com`
      ends in a dot followed by word characters. */
  lemma BareHostIsFileLink(root: string, tld: string)
    requires 0 < |tld| && forall j :: 0 <= j < |tld| ==> IsWordChar(tld[j])
    ensures IsFileLink(root + "." + tld)
  {
    var link := root + "." + tld;
    FileLinkMatchesPattern(link);
    assert link[|root|] == '.';
    assert forall j :: |root| < j < |link| ==> IsWordChar(link[j]) by {
      forall j | |root| < j < |link| ensures IsWordChar(link[j]) {
        assert link[j] == tld[j - |root| - 1];
      }
    }
  }

  /** The bookkeeping the engine maintains: nothing pending is visited,
      everything delivered is visited, and no page was delivered twice. */
  ghost predicate Consistent(s: CrawlState)
  {
    && (forall l :: l in s.frontier ==> l !in s.visited)
    && (forall i :: 0 <= i < |s.log| ==> s.log[i].link.serialization in s.visited)
    && (forall i, j :: 0 <= i < j < |s.log| ==> s.log[i].link.serialization != s.log[j].link.serialization)
  }

  /** The start of a crawl is consistent. */
  lemma InitialConsistent(root: string)
    ensures Consistent(CrawlState({root}, {}, []))
  {
  }

  /** When parsing is faithful, every iteration keeps the bookkeeping
      consistent, so no page is ever fetched and delivered twice. */
  lemma StepKeepsConsistent(env: Env, s: CrawlState)
    requires Normalizing(env) && Consistent(s)
    ensures Consistent(NextState(env, s).1)
  {
    if NextState(env, s).0 == Crawled {
      var link := Least(s.frontier);
      var url := env.parse(link).value;
      assert url.serialization == link;
      var next := NextState(env, s).1;
      assert link !in s.visited;
      forall i, j | 0 <= i < j < |next.log|
        ensures next.log[i].link.serialization != next.log[j].link.serialization
      {
        if j == |s.log| {
          assert next.log[i] == s.log[i];
          assert next.log[j].link.serialization == link;
        } else {
          assert next.log[i] == s.log[i] && next.log[j] == s.log[j];
        }
      }
    }
  }

  /** When parsing is faithful, every completed iteration visits a page
      not visited before, so a crawl of a site with finitely many pages
      completes only finitely many iterations. */
  lemma StepGrowsVisited(env: Env, s: CrawlState)
    requires Normalizing(env) && Consistent(s)
    requires NextState(env, s).0 == Crawled
    ensures s.visited < NextState(env, s).1.visited
  {
    var link := Least(s.frontier);
    assert env.parse(link).value.serialization == link;
    assert link in NextState(env, s).1.visited && link !in s.visited;
  }

  /** Each iteration only adds to the log and to the visited set. */
  lemma StepMonotone(env: Env, s: CrawlState)
    ensures s.log <= NextState(env, s).1.log
    ensures s.visited <= NextState(env, s).1.visited
  {
  }

  // A worked iteration from the seed `https://example.com/`, whose page
  // links to `/about`, to `https://example.com/about` again, to another
  // site and to an image.

  const ExampleSeed := "https://example.com/"
  const ExampleAbout := "https://example.com/about"
  const ExampleImage := "https://example.com/img.png"
  const ExampleHome := Url("https", Some("example.com"), ExampleSeed)
  const ExampleDocument := Document("<html></html>",
    ["/about", "https://example.com/about", "https://other.com/x", "/img.png"])

  lemma ExampleLinksFound()
    ensures FindAllLinks(ExampleHome, ExampleDocument.hrefs) == [ExampleAbout, ExampleAbout, ExampleImage]
  {
    var root := "https://example.com";
    assert Root(ExampleHome) == Some(root) by {
      assert "https" + "://" + "example.com" == root;
    }
    assert root + "/about" == ExampleAbout && root + "/img.png" == ExampleImage;
    assert root <= ExampleAbout;
    assert !(root <= "https://other.com/x") by {
      assert "https://other.com/x"[8] != root[8];
    }
    assert ResolveLink(ExampleHome, "/about") == Some(ExampleAbout);
    assert !("/" <= ExampleAbout) && !("/" <= "https://other.com/x") by {
      assert ExampleAbout[0] != '/' && "https://other.com/x"[0] != '/';
    }
    assert ResolveLink(ExampleHome, ExampleAbout) == Some(ExampleAbout);
    assert ResolveLink(ExampleHome, "https://other.com/x") == None;
    assert ResolveLink(ExampleHome, "/img.png") == Some(ExampleImage);
    FoundLinksShape(ExampleHome, ExampleDocument.hrefs, ExampleAbout, ExampleImage);
  }

  /** Link discovery over four hrefs of which the third is dropped. */
  lemma FoundLinksShape(url: Url, hrefs: seq<string>, page: string, file: string)
    requires |hrefs| == 4
    requires ResolveLink(url, hrefs[0]) == Some(page) && ResolveLink(url, hrefs[1]) == Some(page)
    requires ResolveLink(url, hrefs[2]) == None && ResolveLink(url, hrefs[3]) == Some(file)
    ensures FindAllLinks(url, hrefs) == [page, page, file]
  {
    assert hrefs[3..][1..] == [];
    assert FindAllLinks(url, hrefs[3..]) == [file];
    assert hrefs[2..][1..] == hrefs[3..];
    assert FindAllLinks(url, hrefs[2..]) == [file];
    assert hrefs[1..][1..] == hrefs[2..];
    assert FindAllLinks(url, hrefs[1..]) == [page, file];
  }

  lemma ExampleFileLinks()
    ensures IsFileLink(ExampleImage) && !IsFileLink(ExampleAbout)
  {
    var image, about := ExampleImage, ExampleAbout;
    FileLinkMatchesPattern(image);
    assert image[|image| - 4] == '.';
    assert forall j :: |image| - 4 < j < |image| ==> IsWordChar(image[j]);
    var k := TrailingWordChars(about);
    assert about[|about| - 6] == '/';
    assert forall j :: |about| - 6 < j < |about| ==> IsWordChar(about[j]);
    assert k == 5;
  }

  /** One iteration from a frontier holding only `seed`, whose page links
      (after resolution) to `page` twice and to `file`. */
  lemma SeedIteration(env: Env, seed: string, url: Url, doc: Document, page: string, file: string)
    requires env.parse(seed) == Some(url) && url.serialization == seed
    requires env.fetch(url) == Some(doc) && env.sinkWrite(Page(url, doc.html)) == Ok
    requires FindAllLinks(url, doc.hrefs) == [page, page, file]
    requires !IsFileLink(page) && IsFileLink(file) && page != seed
    ensures NextState(env, CrawlState({seed}, {}, []))
      == (Crawled, CrawlState({page}, {seed}, [Page(url, doc.html)]))
  {
    assert Least({seed}) == seed;
    var visited: set<string> := {} + {seed};
    assert visited == {seed};
    var links := [page, page, file];
    assert links[1..][1..][1..] == [];
    assert FilterLinks(links[1..][1..], visited) == [];
    assert FilterLinks(links[1..], visited) == [page];
    assert FilterLinks(links, visited) == [page, page];
    assert Elements([page, page]) == {page};
    assert {seed} - {seed} + {page} == {page};
    var s := CrawlState({seed}, {}, []);
    var next := NextState(env, s);
    assert next.0 == Crawled;
    assert next.1.log == [Page(url, doc.html)];
    assert next.1.visited == {seed};
    assert next.1.frontier == {page};
  }

  /** The outside world of the example: the seed parses to its URL, every
      fetch returns the example page, and the sink accepts everything. */
  const ExampleEnv := Env(
    link => if link == ExampleSeed then Some(ExampleHome) else None,
    url => Some(ExampleDocument),
    page => Ok)

  /** Only `https://example.com/about` is scheduled (the duplicate collapses,
      the other site and the image are dropped), and the seed is visited and
      delivered. */
  lemma ExampleIteration()
    ensures NextState(ExampleEnv, CrawlState({ExampleSeed}, {}, []))
      == (Crawled, CrawlState({ExampleAbout}, {ExampleSeed}, [Page(ExampleHome, ExampleDocument.html)]))
  {
    ExampleLinksFound();
    ExampleFileLinks();
    assert ExampleAbout != ExampleSeed by {
      assert |ExampleAbout| != |ExampleSeed|;
    }
    SeedIteration(ExampleEnv, ExampleSeed, ExampleHome, ExampleDocument, ExampleAbout, ExampleImage);
  }

  datatype RunOutcome = Completed | Aborted(error: Error) | OutOfFuel

  /** `step` is one iteration of the crawl loop against `env`. The
      trigger lets a proof use this only at the iterations it already
      mentions. */
  ghost predicate IsIteration(env: Env, step: CrawlState -> (StepOutcome, CrawlState))
  {
    forall t {:trigger NextState(env, t)} :: step(t) == NextState(env, t)
  }

  /** The crawl loop from state `s`, iterating `step`, for at most `fuel`
      iterations: it completes when an iteration finds the frontier empty,
      aborts with the error of the first failed iteration, and otherwise
      goes on. The crawler's loop is `RunFrom(step, …)` for a `step` with
      `IsIteration(env, step)`, such as `s => NextState(env, s)`. */
  ghost function RunFrom(step: CrawlState -> (StepOutcome, CrawlState), s: CrawlState, fuel: nat): (RunOutcome, CrawlState)
    decreases fuel
  {
    if fuel == 0 then (OutOfFuel, s)
    else if step(s).0 == Exhausted then (Completed, step(s).1)
    else if step(s).0.Failed? then (Aborted(step(s).0.error), step(s).1)
    else RunFrom(step, step(s).1, fuel - 1)
  }

  /** The first iteration of a run, taken apart. */
  lemma RunUnfold(step: CrawlState -> (StepOutcome, CrawlState), s: CrawlState, fuel: nat)
    requires fuel > 0
    ensures step(s).0 == Exhausted ==> RunFrom(step, s, fuel) == (Completed, step(s).1)
    ensures step(s).0.Failed? ==> RunFrom(step, s, fuel) == (Aborted(step(s).0.error), step(s).1)
    ensures step(s).0 == Crawled ==> RunFrom(step, s, fuel) == RunFrom(step, step(s).1, fuel - 1)
  {
  }

  /** A run over iterations that stop only on an empty frontier completes
      only on an empty frontier. */
  lemma {:induction false} RunEndsEmpty(step: CrawlState -> (StepOutcome, CrawlState), s: CrawlState, fuel: nat)
    requires forall t: CrawlState :: step(t).0 == Exhausted ==> step(t).1.frontier == {}
    ensures RunFrom(step, s, fuel).0 == Completed ==> RunFrom(step, s, fuel).1.frontier == {}
    decreases fuel
  {
    if fuel > 0 && step(s).0 == Crawled {
      RunEndsEmpty(step, step(s).1, fuel - 1);
    }
  }

  /** A run over iterations that only add to the log and the visited set
      only adds to them. */
  lemma {:induction false} RunGrows(step: CrawlState -> (StepOutcome, CrawlState), s: CrawlState, fuel: nat)
    requires forall t: CrawlState :: t.log <= step(t).1.log && t.visited <= step(t).1.visited
    ensures s.log <= RunFrom(step, s, fuel).1.log
    ensures s.visited <= RunFrom(step, s, fuel).1.visited
    decreases fuel
  {
    if fuel > 0 && step(s).0 == Crawled {
      RunGrows(step, step(s).1, fuel - 1);
    }
  }

  /** A run over iterations that keep `Consistent` keeps it. */
  lemma {:induction false} RunPreserves(step: CrawlState -> (StepOutcome, CrawlState), s: CrawlState, fuel: nat)
    requires forall t: CrawlState :: Consistent(t) ==> Consistent(step(t).1)
    requires Consistent(s)
    ensures Consistent(RunFrom(step, s, fuel).1)
    decreases fuel
  {
    if fuel > 0 && step(s).0 == Crawled {
      RunPreserves(step, step(s).1, fuel - 1);
    }
  }

  /** A crawl that completes leaves nothing pending. */
  lemma RunCompletedEmpty(env: Env, step: CrawlState -> (StepOutcome, CrawlState), s: CrawlState, fuel: nat)
    requires IsIteration(env, step)
    ensures RunFrom(step, s, fuel).0 == Completed ==> RunFrom(step, s, fuel).1.frontier == {}
  {
    forall t: CrawlState ensures step(t).0 == Exhausted ==> step(t).1.frontier == {} {
      StepExhausted(env, t);
    }
    RunEndsEmpty(step, s, fuel);
  }

  /** A crawl never takes back a delivered page or a visited mark. */
  lemma RunMonotone(env: Env, step: CrawlState -> (StepOutcome, CrawlState), s: CrawlState, fuel: nat)
    requires IsIteration(env, step)
    ensures s.log <= RunFrom(step, s, fuel).1.log
    ensures s.visited <= RunFrom(step, s, fuel).1.visited
  {
    forall t: CrawlState ensures t.log <= step(t).1.log && t.visited <= step(t).1.visited {
      StepMonotone(env, t);
    }
    RunGrows(step, s, fuel);
  }

  /** When parsing is faithful, a whole crawl keeps the bookkeeping
      consistent, however it ends. */
  lemma RunKeepsConsistent(env: Env, step: CrawlState -> (StepOutcome, CrawlState), s: CrawlState, fuel: nat)
    requires IsIteration(env, step)
    requires Normalizing(env) && Consistent(s)
    ensures Consistent(RunFrom(step, s, fuel).1)
  {
    forall t: CrawlState | Consistent(t) ensures Consistent(step(t).1) {
      StepKeepsConsistent(env, t);
    }
    RunPreserves(step, s, fuel);
  }

  /** A crawl that meets a failed iteration aborts right there, with that
      iteration's error and the state it left. */
  lemma RunAbortsAtFirstFailure(env: Env, step: CrawlState -> (StepOutcome, CrawlState), s: CrawlState, fuel: nat, e: Error)
    requires IsIteration(env, step)
    requires fuel > 0 && NextState(env, s).0 == Failed(e)
    ensures RunFrom(step, s, fuel) == (Aborted(e), NextState(env, s).1)
  {
    assert step(s) == NextState(env, s);
  }

  /** The facts a caller of the crawl loop relies on, gathered. */
  lemma RunSummary(env: Env, step: CrawlState -> (StepOutcome, CrawlState), s: CrawlState, fuel: nat)
    requires IsIteration(env, step)
    ensures RunFrom(step, s, fuel).0 == Completed ==> RunFrom(step, s, fuel).1.frontier == {}
    ensures s.log <= RunFrom(step, s, fuel).1.log
    ensures s.visited <= RunFrom(step, s, fuel).1.visited
    ensures Normalizing(env) && Consistent(s) ==> Consistent(RunFrom(step, s, fuel).1)
  {
    RunCompletedEmpty(env, step, s, fuel);
    RunMonotone(env, step, s, fuel);
    if Normalizing(env) && Consistent(s) {
      RunKeepsConsistent(env, step, s, fuel);
    }
  }

  /** The crawler: a crawl state, and the pages its sink has accepted. */
  class Crawler {
    const state: LocalState
    ghost var log: seq<Page>

    constructor (state: LocalState)
      ensures this.state == state && log == []
    {
      this.state := state;
      log := [];
    }

    ghost function Snapshot(): CrawlState
      reads this, state
    {
      CrawlState(state.pagesToVisit, state.visitedPages, log)
    }

    /** One iteration of the crawl loop. */
    method Step(env: Env) returns (outcome: StepOutcome)
      modifies this, state
      ensures (outcome, Snapshot()) == NextState(env, old(Snapshot()))
    {
      var next := state.NextPage();
      if next.None? {
        return Exhausted;
      }
      var parsed := env.parse(next.value);
      if parsed.None? {
        return Failed(ParseError);
      }
      var pageLink := parsed.value;
      var document := env.fetch(pageLink);
      if document.None? {
        return Failed(TransportError);
      }
      var page := Page(pageLink, document.value.html);
      var written := env.sinkWrite(page);
      if written.Err? {
        return Failed(written.error);
      }
      log := log + [page];
      var marked := state.AddPageToVisited(pageLink.serialization);
      var newLinks := FilterLinks(FindAllLinks(pageLink, document.value.hrefs), state.visitedPages);
      var scheduled := state.AddPagesToVisit(newLinks);
      outcome := Crawled;
    }

    /** The crawl loop, run for at most `fuel` iterations. It ends normally
        only once the frontier is empty, stops at the first failure, and
        never takes back what the sink already accepted. `step` names the
        loop's iteration for the specification only. */
    method Run(env: Env, fuel: nat, ghost step: CrawlState -> (StepOutcome, CrawlState)) returns (outcome: RunOutcome)
      requires IsIteration(env, step)
      modifies this, state
      ensures (outcome, Snapshot()) == RunFrom(step, old(Snapshot()), fuel)
      ensures outcome == Completed ==> state.pagesToVisit == {}
      ensures old(log) <= log
      ensures old(state.visitedPages) <= state.visitedPages
      ensures Normalizing(env) && Consistent(old(Snapshot())) ==> Consistent(Snapshot())
    {
      RunSummary(env, step, Snapshot(), fuel);
      outcome := Loop(env, fuel, step);
    }

    /** `Step`, stated through `step` alone, so that the loop below reasons
        about iterations without unfolding `NextState`. */
    method Advance(env: Env, ghost step: CrawlState -> (StepOutcome, CrawlState)) returns (outcome: StepOutcome)
      requires IsIteration(env, step)
      modifies this, state
      ensures (outcome, Snapshot()) == step(old(Snapshot()))
    {
      outcome := Step(env);
    }

    /** The loop of `Run`, proved against `RunFrom`. */
    method Loop(env: Env, fuel: nat, ghost step: CrawlState -> (StepOutcome, CrawlState)) returns (outcome: RunOutcome)
      requires IsIteration(env, step)
      modifies this, state
      ensures (outcome, Snapshot()) == RunFrom(step, old(Snapshot()), fuel)
    {
      ghost var start := Snapshot();
      var iterations := 0;
      while iterations < fuel
        invariant iterations <= fuel
        invariant RunFrom(step, Snapshot(), fuel - iterations) == RunFrom(step, start, fuel)
      {
        ghost var before := Snapshot();
        var stepped := Advance(env, step);
        RunUnfold(step, before, fuel - iterations);
        match stepped
        case Exhausted => return Completed;
        case Failed(e) => return Aborted(e);
        case Crawled => iterations := iterations + 1;
      }
      return OutOfFuel;
    }
  }
}
