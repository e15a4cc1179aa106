# cli-crawler bookkeeping, modelled in Dafny

This project models the crawl bookkeeping of `cli-crawler`, a small,
single-threaded web crawler. From a seed URL it repeats one loop: take a
pending link out of the frontier, fetch the page, hand it to a sink, mark it
visited, then schedule the page's new links that lie under the page's root.
Which pending link comes next is up to the state backend. The modelled
backend, the in-process `LocalState`, hands out the smallest link in string
order (`BTreeSet::pop_first`), and so does the model. The crawl is
therefore neither breadth-first nor depth-first. The binary itself wires in the shared-store `RedisState`, whose SPOP returns an
arbitrary member; that backend is not modelled. The model covers four parts:

- **Crawl state** (`states.dfy`, module `States`). `LocalState` is a class.
  Its frontier `pagesToVisit` and its visited set `visitedPages` are `set`
  fields, which its methods change in place. `NextPage` takes out the least
  element under string order. That order (`Strings.Less`) is defined in
  `strings.dfy` and proved to be a strict total order. That file also
  proves that a least element exists and is unique, and defines the
  ascending listing of a set (`Ascending`). `states.dfy` then proves that
  draining a frontier returns its elements in ascending order: `Pops` lists
  the answers of successive `NextPage` calls, `NextPages` is proved to
  return exactly them, and `Drain` shows they are `Ascending` of the
  frontier.
  `NamespaceKey` is the `namespace:key` formatting used by the shared-store
  backend.
  `StateContractsInUse` models no function. It is a usage check: a client
  of the `LocalState` contracts concludes the visited gate and the reset
  behaviour from them.
- **Engine** (`crawlers.dfy`, module `Crawlers`). This module holds:
  - `ResolveLink`, the resolver. It keeps links whose text starts with the
    page's root `scheme://domain`. This is a text-prefix test: a host that
    merely extends the domain (`example.com.evil.org`) passes it, and the
    root carries no port, so links from a page on a non-default port are
    resolved onto the default port.
  - The `\.\w+$` file-link filter (`IsFileLink`), proved equal to the
    regular expression's language (`MatchesFilePattern`).
  - `FindAllLinks` and `FilterLinks`.
  - `NextState`, which specifies one iteration of the `run` loop as a
    transition over a frontier, a visited set and a sink log.
  - The `Crawler` class. Its `Step` method is proved to follow `NextState`,
    and `Run` repeats `Step`. `Run` is proved to follow `RunFrom`, the
    loop as repeated `NextState` transitions, and the loop-level facts
    are proved about `RunFrom`.

  Fetching, HTML parsing, URL parsing and the sink's success are supplied
  in an `Env` value.
- **Origin root** (`url.dfy`, module `UrlRoot`). `Root` yields
  `scheme://domain` for a `Url`, or nothing when the URL has no domain. A
  `Url` is modelled by its scheme, its optional domain and its
  serialization.
- **Sinks** (`sinks.dfy`, module `Sinks`). They cover:
  - the console preview and the two printed lines of `OutputPrinter`;
  - the stream key and the two-field record of `RedisSink`.

  Printed output and appended stream entries are logs that only grow.

`wrappers.dfy` holds `Option` and the `Status`/`Error` results.
`entities.dfy` holds the `Page` record.

The main proved facts about the engine are these:
- the loop ends normally only with an empty frontier;
- a failed iteration loses the popped link and rolls nothing back;
- an iteration never schedules a link that is visited afterwards: such a
  link was already pending before, and it is not the link just popped;
- if parsing a link and writing it back gives the same text, every
  iteration keeps three invariants: nothing pending is visited, everything
  delivered is visited, and no page is delivered twice.

## Model

| member | source | states |
|---|---|---|
| `UrlRoot.Root` | cli-crawler/src/tools/url.rs:8-10 | The root is absent exactly when the URL has no domain; otherwise it begins with `scheme://` |
| `UrlRoot.RootIgnoresPath` | cli-crawler/src/tools/url.rs:9 | The root depends only on scheme and domain, not on path, query or fragment |
| `UrlRoot.RootIdentifiesOrigin` | cli-crawler/src/tools/url.rs:9 | For well-formed schemes and a first URL with a domain, the two URLs have the same root iff they have the same scheme and the same domain |
| `UrlRoot.RootOfRustLangPage` | cli-crawler/src/tools/url.rs:17-22 | The root of `https://www.rust-lang.org/test/cats` is `https://www.rust-lang.org` |
| `Strings.Less` | cli-crawler/src/crawlers/states.rs:34 | The string order of the frontier's `BTreeSet`: a below-relation only between different strings, with every proper prefix below its extensions |
| `Strings.LessIrreflexive` | cli-crawler/src/crawlers/states.rs:34 | No string is below itself in the frontier's string order |
| `Strings.LessAsymmetric` | cli-crawler/src/crawlers/states.rs:34 | Two strings are never each below the other |
| `Strings.LessTransitive` | cli-crawler/src/crawlers/states.rs:34 | The string order is transitive |
| `Strings.LessTotal` | cli-crawler/src/crawlers/states.rs:34 | Any two different strings are ordered one way or the other |
| `Strings.LeastExists` | cli-crawler/src/crawlers/states.rs:64-66 | Every non-empty frontier has a least element |
| `Strings.LeastUnique` | cli-crawler/src/crawlers/states.rs:64-66 | The least element of a set is unique |
| `Strings.Least` | cli-crawler/src/crawlers/states.rs:64-66 | The element `pop_first` returns: it lies in the set and is below every other element |
| `Strings.AscendingSpec` | cli-crawler/src/crawlers/states.rs:64-66 | Taking least elements one after another lists every element of the set exactly once, in strictly increasing order |
| `Strings.DistinctElements` | cli-crawler/src/crawlers/states.rs:48-52 | Inserting N distinct links gives a set of N elements |
| `Strings.UnambiguousJoin` | cli-crawler/src/crawlers/states.rs:89-91 | Joining two parts around a separator absent from both left parts can be undone |
| `States.NamespaceKey` | cli-crawler/src/crawlers/states.rs:89-91 | The key is exactly the namespace, a `:`, then the resource name, so it begins with `namespace:` and has their combined length plus one |
| `States.NamespaceKeyInjective` | cli-crawler/src/crawlers/states.rs:89-91 | For namespaces without `:`, two keys are equal iff the namespaces and the resource names are equal, so crawl jobs never share keys |
| `States.LocalState.constructor` | cli-crawler/src/crawlers/states.rs:39-44 | A new state has exactly the root page pending and nothing visited |
| `States.LocalState.AddPageToVisit` | cli-crawler/src/crawlers/states.rs:48-52 | The frontier becomes the old frontier plus the link, so adding twice equals adding once; the visited set is unchanged; the result is Ok |
| `States.LocalState.AddPagesToVisit` | cli-crawler/src/crawlers/states.rs:12-18 | The frontier gains exactly the elements of the batch; the visited set is unchanged; the result is always Ok |
| `States.LocalState.AddPageToVisited` | cli-crawler/src/crawlers/states.rs:54-58 | The visited set becomes the old set plus the link (idempotent), and the link then counts as visited; the frontier is unchanged |
| `States.LocalState.IsPageVisited` | cli-crawler/src/crawlers/states.rs:60-62 | True iff the link is in the visited set |
| `States.LocalState.NonPageVisited` | cli-crawler/src/crawlers/states.rs:24-26 | Exactly the negation of `IsPageVisited` |
| `States.LocalState.NextPage` | cli-crawler/src/crawlers/states.rs:64-66 | On an empty frontier: returns nothing and changes nothing. Otherwise: returns the least pending link and removes it. The visited set is never touched |
| `States.LocalState.Reset` | cli-crawler/src/crawlers/states.rs:68-73 | Both the frontier and the visited set become empty; the result is Ok |
| `States.Pops` | cli-crawler/src/crawlers/states.rs:64-66 | The answers of `count` successive `NextPage` calls, built clause by clause from `NextPage`'s contract: `count` answers, each a member of the starting frontier, and the last one empty once `count` exceeds the frontier's size |
| `States.NextPages` | cli-crawler/src/crawlers/states.rs:64-66 | Calling `NextPage` `count` times returns exactly `Pops` of the starting frontier; the frontier only shrinks and is empty once `count` reaches its size; the visited set is untouched |
| `States.Drain` | cli-crawler/src/crawlers/states.rs:64-66 | In `Pops`, and so in the answers of `NextPages`, the first size-of-frontier answers are the elements in ascending order, and every later answer is nothing |
| `States.DrainInsertedLinks` | cli-crawler/src/crawlers/states.rs:48-52 | N distinct links inserted into an empty frontier come back as N strictly ascending links, each exactly once |
| `Sinks.StripNewlines` | cli-crawler/src/crawlers/sinks.rs:22 | The result has no newline, contains exactly the characters of the input other than newline (as a set), is no longer than the input, and equals the input when the input has no newline; with `StripNewlinesAppend` this fixes it as the input with each newline deleted |
| `Sinks.StripNewlinesAppend` | cli-crawler/src/crawlers/sinks.rs:22 | Removing newlines distributes over concatenation |
| `Sinks.Preview` | cli-crawler/src/crawlers/sinks.rs:22 | The preview is the first min(200, length) characters with newlines removed: at most 200 characters, no newline; content of at most 200 characters without a newline is shown unchanged, and longer content whose first 200 characters hold no newline is shown as exactly those 200 |
| `Sinks.PreviewIsPrefix` | cli-crawler/src/crawlers/sinks.rs:22 | The preview is a prefix of the content with its newlines removed, and the preview followed by the rest of the content (newlines removed) is the whole newline-free content |
| `Sinks.PreviewOfLongContent` | cli-crawler/src/crawlers/sinks.rs:20-23 | Content longer than 200 characters (for example 500) whose first 200 characters hold no newline is previewed by exactly those 200 characters |
| `Sinks.PrinterLines` | cli-crawler/src/crawlers/sinks.rs:19-23 | Exactly two lines: `Link: ` and the link, then `Content: `, the preview and ` ...`; the second line is bounded in length and has no newline |
| `Sinks.OutputPrinter.constructor` | cli-crawler/src/crawlers/sinks.rs:13 | A new printer has printed nothing |
| `Sinks.OutputPrinter.Write` | cli-crawler/src/crawlers/sinks.rs:18-26 | Appends exactly the two printer lines to the output and always returns Ok |
| `Sinks.StreamKey` | cli-crawler/src/crawlers/sinks.rs:42-44 | The stream key is the namespace, `:` and the domain, so it begins with the namespace and `:` |
| `Sinks.StreamKeySeparatesDomains` | cli-crawler/src/crawlers/sinks.rs:57 | Different domains of one namespace get different streams |
| `Sinks.StreamKeyAvoidsStateKeys` | cli-crawler/src/crawlers/sinks.rs:57 | The stream of a domain containing a dot never takes the key of the namespace's frontier set or visited set |
| `Sinks.StreamKeyOfDotlessDomain` | cli-crawler/src/crawlers/sinks.rs:57 | A single-label host named `pages-to-visit` or `visited-pages` gets exactly the key of the namespace's frontier or visited set |
| `Sinks.StreamRecord` | cli-crawler/src/crawlers/sinks.rs:52-55 | The record is exactly `("link", link)` then `("content", content)` |
| `Sinks.StreamRecordReadBack` | cli-crawler/src/crawlers/sinks.rs:52-55 | Looking up `link` and `content` in the record gives back the page's link and content |
| `Sinks.RedisSink.constructor` | cli-crawler/src/crawlers/sinks.rs:35-40 | The sink keeps its namespace and has appended nothing |
| `Sinks.RedisSink.Write` | cli-crawler/src/crawlers/sinks.rs:50-60 | For a page with a domain: if the store accepts, exactly one entry is appended (domain stream key, two-field record) and the result is Ok; otherwise nothing is appended and the store error is returned |
| `Crawlers.ResolveLink` | cli-crawler/src/crawlers.rs:59-69 | Without a root: nothing. With a root: a `/` link gives root + link, a link starting with the root is kept, anything else is dropped. Every result starts with the root |
| `Crawlers.ResolveIdempotent` | cli-crawler/src/crawlers.rs:62-65 | Resolving a resolved link again gives the same link |
| `Crawlers.ResolveKeepsLongerHost` | cli-crawler/src/crawlers.rs:64-65 | Any text that begins with the page's root (and not with `/`) is kept unchanged, so a host extending the page's domain passes the filter |
| `Crawlers.ResolveDependsOnRootOnly` | cli-crawler/src/crawlers.rs:60 | Pages with the same root resolve every href alike |
| `Crawlers.FindAllLinks` | cli-crawler/src/crawlers.rs:51-57 | The found links are exactly the successful resolutions of the page's hrefs, never more than there are hrefs, and none for a page without a domain |
| `Crawlers.TrailingWordChars` | cli-crawler/src/crawlers.rs:27 | The length of the maximal run of word characters at the end of the string |
| `Crawlers.IsFileLink` | cli-crawler/src/crawlers.rs:27 | The `file_pattern.is_match` test used by the filter at line 41: a link it accepts contains a dot and ends in a word character |
| `Crawlers.BareHostIsFileLink` | cli-crawler/src/crawlers.rs:27 | Any link ending in a dot and a non-empty run of word characters is taken for a file, including a bare host such as `https://example.com` |
| `Crawlers.FileLinkMatchesPattern` | cli-crawler/src/crawlers.rs:27 | A link is treated as a file iff it matches `\.\w+$`: a dot, then one or more word characters, up to the end |
| `Crawlers.FilterLinks` | cli-crawler/src/crawlers.rs:38-43 | Keeps exactly the links that are not files and not visited |
| `Crawlers.NextState` | cli-crawler/src/crawlers.rs:29-45 | One pass of the loop body. It ends the loop exactly on an empty frontier; an iteration that fails leaves the visited set and the sink log unchanged; a completed one delivers exactly one page more |
| `Crawlers.NonNormalizingLinkComesBack` | cli-crawler/src/crawlers.rs:29-45 | A pending link that serializes differently after parsing, on a page linking back to it, stays the only pending link after the iteration while its page is delivered again, so the loop can repeat forever |
| `Crawlers.StepExhausted` | cli-crawler/src/crawlers.rs:29 | The loop ends iff the frontier is empty, and then nothing changes |
| `Crawlers.StepFailed` | cli-crawler/src/crawlers.rs:29-34 | A failed iteration only removes the popped link: nothing is delivered, visited or rolled back |
| `Crawlers.StepCrawled` | cli-crawler/src/crawlers.rs:29-45 | A completed iteration pops the least link, appends its page to the sink log and marks it visited. The frontier gains exactly the resolved, non-file links not visited by then |
| `Crawlers.StepNeverSchedulesVisited` | cli-crawler/src/crawlers.rs:36-45 | A link both pending and visited after an iteration was already pending before it and is not the link the iteration popped, so no visited link is ever scheduled |
| `Crawlers.InitialConsistent` | cli-crawler/src/main.rs:15-16 | A crawl that starts with only the root pending satisfies the bookkeeping invariant |
| `Crawlers.StepKeepsConsistent` | cli-crawler/src/crawlers.rs:29-45 | With faithful URL parsing, every iteration keeps the invariant: nothing pending is visited, everything delivered is visited, no page is delivered twice |
| `Crawlers.StepGrowsVisited` | cli-crawler/src/crawlers.rs:34-36 | With faithful URL parsing, each completed iteration visits a page that was not visited before |
| `Crawlers.StepMonotone` | cli-crawler/src/crawlers.rs:34-36 | The sink log and the visited set only grow |
| `Crawlers.ExampleLinksFound` | cli-crawler/src/crawlers.rs:51-69 | On `https://example.com/`, the hrefs `/about`, `https://example.com/about`, `https://other.com/x` and `/img.png` resolve to the about link twice and the image link |
| `Crawlers.ExampleFileLinks` | cli-crawler/src/crawlers.rs:27 | `https://example.com/img.png` is a file link and `https://example.com/about` is not |
| `Crawlers.SeedIteration` | cli-crawler/src/crawlers.rs:29-45 | From a frontier holding only the seed, a page that links twice to a new page and once to a file schedules only the new page; the seed is visited and delivered |
| `Crawlers.ExampleIteration` | cli-crawler/src/crawlers.rs:29-45 | One iteration from `https://example.com/` leaves exactly `https://example.com/about` pending and the seed visited |
| `Crawlers.Crawler.constructor` | cli-crawler/src/crawlers.rs:22-24 | The crawler holds the given state and has delivered nothing |
| `Crawlers.Crawler.Step` | cli-crawler/src/crawlers.rs:29-45 | One loop iteration moves the state and the sink log exactly as the transition `NextState` prescribes |
| `Crawlers.RunFrom` | cli-crawler/src/crawlers.rs:26-49 | The `while let` loop as repeated iterations: it completes at the first iteration that finds the frontier empty, aborts with the error of the first failed iteration, and otherwise goes on with the state the iteration left |
| `Crawlers.RunAbortsAtFirstFailure` | cli-crawler/src/crawlers.rs:29-34 | When an iteration fails, the loop stops right there with that error and the state the failed iteration left; no later iteration runs |
| `Crawlers.RunCompletedEmpty` | cli-crawler/src/crawlers.rs:29 | A loop that ends normally leaves an empty frontier |
| `Crawlers.RunMonotone` | cli-crawler/src/crawlers.rs:34-36 | Over the whole loop the sink log and the visited set only grow, whichever way it ends |
| `Crawlers.RunKeepsConsistent` | cli-crawler/src/crawlers.rs:29-45 | With faithful URL parsing, the bookkeeping invariant that holds at the start of the loop holds wherever it stops |
| `Crawlers.RunSummary` | cli-crawler/src/crawlers.rs:26-49 | Collects the three loop facts above for one run |
| `Crawlers.Crawler.Run` | cli-crawler/src/crawlers.rs:26-49 | The outcome and the final state, frontier, visited set and sink log, are exactly those of `RunFrom` on the starting state. Hence normal completion leaves an empty frontier, the sink log and the visited set only grow so delivered pages are never rolled back, and with faithful URL parsing the bookkeeping invariant holds at the end |

## Left out

- The shared-store backend `RedisState` is not modelled. That covers its connection setup, its SADD/SPOP/SISMEMBER/DEL calls, SPOP's random choice and races between crawler processes. These are network effects. Only the pure key formatting `NamespaceKey` is kept. With `LocalState`, marking visited and scheduling links cannot fail, so the abort on those errors has no path in the model.
- `RedisSink` connection setup (`Client::open`, `get_connection`, the `RefCell` handle) is not modelled; these are network effects. The entry id chosen by the store is not modelled either.
- HTTP fetching, HTML parsing and serialization, and the `a` selector are external. They become `Env.fetch`, which yields a `Document` made of the serialized HTML and the anchors' `href` values in document order. `Crawlers.Crawler.constructor` does not hold the selector for the same reason.
- URL parsing and `to_string` normalisation are external. They become `Env.parse` and the `serialization` field. How `domain()` treats IP hosts is folded into whether `domain` is present.
- `Crawlers.StepKeepsConsistent`, `Crawlers.StepGrowsVisited` and the invariant clause of `Crawlers.Crawler.Run` assume that parsing a link and writing it back gives the same text (`Normalizing`). Without that assumption, the visited set records the normalised form while the frontier holds the raw text. A link such as `https://example.com/a/../b`, whose page links back to it, is then rescheduled and its page delivered again on every iteration, so the crawl does not end (`Crawlers.NonNormalizingLinkComesBack`).
- `Crawlers.Crawler.Run` takes an iteration bound `fuel` and can return `OutOfFuel`, which the Rust loop cannot do. It also takes a specification-only parameter `step`, required to be the iteration `s => NextState(env, s)`, so that its contract can name the loop as `RunFrom`. The frontier may grow without bound, so the loop has no termination measure. `Crawlers.StepGrowsVisited` gives the progress measure for a site with finitely many pages.
- The sink, as seen by the engine, is only whether its write succeeded (`Env.sinkWrite`) plus the ghost log of accepted pages. The two concrete sinks are modelled separately in `Sinks`.
- `\w` is modelled as ASCII letters, digits and `_`, but the Rust regex's `\w` also accepts Unicode word characters. The regex engine itself is replaced by a scan of the trailing word run.
- Page content is treated as single-byte characters. The preview's byte slice can panic when it falls inside a multi-byte character; that panic is not modelled.
- `Sinks.RedisSink.Write`: the panic through `expect` on a page without a domain is not modelled as a panic; the model makes a page with a domain a precondition of the write instead of returning an error. The store's acceptance of the append is the parameter `storeAvailable`.
- `Sinks.OutputPrinter.Write`: printing to standard output is an appended list of lines. A failed write to standard output is not modelled.
- The bootstrap in `main.rs` only wires compiled-in constants (reset, add the root, run). It is represented only by `Crawlers.InitialConsistent`.
