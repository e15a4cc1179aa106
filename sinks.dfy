/** Where fetched pages go: a console printer that shows a short preview of
    each page, and a writer that appends each page to a per-domain stream
    in the shared store. Both effects are modelled as logs that only grow. */
module Sinks {
  import opened Wrappers
  import opened UrlRoot
  import opened Entities
  import States

  /** How many characters of content the console preview keeps at most. */
  const PreviewLimit := 200

  /** `s` with every newline character removed. */
  function StripNewlines(s: string): (r: string)
    ensures '\n' !in r
    ensures |r| <= |s|
    ensures forall c :: c in r <==> c in s && c != '\n'
    ensures '\n' !in s ==> r == s
  {
    if s == [] then []
    else (if s[0] == '\n' then [] else [s[0]]) + StripNewlines(s[1..])
  }

  /** Removing newlines from two pieces separately is removing them from
      the whole. */
  lemma {:induction false} StripNewlinesAppend(a: string, b: string)
    ensures StripNewlines(a + b) == StripNewlines(a) + StripNewlines(b)
  {
    if a == [] {
      assert a + b == b;
    } else {
      var head := if a[0] == '\n' then [] else [a[0]];
      assert StripNewlines(a + b) == head + StripNewlines(a[1..] + b) by {
        assert (a + b)[0] == a[0] && (a + b)[1..] == a[1..] + b;
      }
      StripNewlinesAppend(a[1..], b);
    }
  }

  /** The console preview of a page's content: its first 200 characters
      (fewer if it is shorter), newlines removed. Content is treated as
      single-byte characters. */
  function Preview(content: string): (preview: string)
    ensures |preview| <= PreviewLimit
    ensures '\n' !in preview
    ensures |content| <= PreviewLimit ==> preview == StripNewlines(content)
    ensures |content| > PreviewLimit ==> preview == StripNewlines(content[..PreviewLimit])
    ensures |content| <= PreviewLimit && '\n' !in content ==> preview == content
    ensures |content| > PreviewLimit && '\n' !in content[..PreviewLimit] ==> preview == content[..PreviewLimit]
  {
    assert content[..|content|] == content;
    StripNewlines(content[..if |content| < PreviewLimit then |content| else PreviewLimit])
  }

  /** The preview is the beginning of the content with newlines removed:
      followed by the rest of the content, newlines removed too, it gives
      back the whole newline-free content. */
  lemma PreviewIsPrefix(content: string)
    ensures Preview(content) <= StripNewlines(content)
    ensures var n := if |content| < PreviewLimit then |content| else PreviewLimit;
      StripNewlines(content) == Preview(content) + StripNewlines(content[n..])
  {
    var n := if |content| < PreviewLimit then |content| else PreviewLimit;
    assert content == content[..n] + content[n..];
    StripNewlinesAppend(content[..n], content[n..]);
  }

  /** A long page without newlines is previewed by exactly its first 200
      characters, whatever follows them. */
  lemma {:induction false} PreviewOfLongContent(content: string, rest: string)
    requires |content| == PreviewLimit && '\n' !in content
    ensures Preview(content + rest) == content
    ensures |Preview(content + rest)| == PreviewLimit
  {
    assert (content + rest)[..PreviewLimit] == content;
    StripNewlinesAppend(content, []);
    assert content + [] == content;
  }

  /** The two lines the printer writes for a page. */
  function PrinterLines(msg: Page): (lines: seq<string>)
    ensures |lines| == 2
    ensures lines[0] == "Link: " + msg.link.serialization
    ensures lines[1] == "Content: " + Preview(msg.content) + " ..."
    ensures |lines[1]| <= |"Content: "| + PreviewLimit + |" ..."|
    ensures '\n' !in lines[1]
  {
    ["Link: " + msg.link.serialization, "Content: " + Preview(msg.content) + " ..."]
  }

  /** Console sink; `output` is everything printed so far, one line per
      entry. */
  class OutputPrinter {
    var output: seq<string>

    constructor ()
      ensures output == []
    {
      output := [];
    }

    method Write(msg: Page) returns (status: Status)
      modifies this
      ensures output == old(output) + PrinterLines(msg)
      ensures status == Ok
    {
      output := output + PrinterLines(msg);
      status := Ok;
    }
  }

  /** One appended stream entry: the stream's key and the record's fields in
      order. The entry id is chosen by the store and not modelled. */
  datatype StreamEntry = StreamEntry(key: string, fields: seq<(string, string)>)

  /** The stream a page is appended to: one per namespace and domain. */
  function StreamKey(namespace: string, domain: string): (key: string)
    ensures key == namespace + ":" + domain
    ensures namespace + ":" <= key
  {
    States.NamespaceKey(namespace, domain)
  }

  /** Pages of different domains go to different streams of a namespace. */
  lemma StreamKeySeparatesDomains(namespace: string, d1: string, d2: string)
    requires StreamKey(namespace, d1) == StreamKey(namespace, d2)
    ensures d1 == d2
  {
    var prefix := namespace + ":";
    assert StreamKey(namespace, d1) == prefix + d1 && StreamKey(namespace, d2) == prefix + d2;
    assert d1 == (prefix + d1)[|prefix|..];
    assert d2 == (prefix + d2)[|prefix|..];
  }

  /** The stream of a domain containing a dot never takes the key of the
      shared-store frontier or visited set of the same namespace. */
  lemma StreamKeyAvoidsStateKeys(namespace: string, domain: string)
    requires '.' in domain
    ensures StreamKey(namespace, domain) != States.NamespaceKey(namespace, States.FrontierResource)
    ensures StreamKey(namespace, domain) != States.NamespaceKey(namespace, States.VisitedResource)
  {
    if StreamKey(namespace, domain) == States.NamespaceKey(namespace, States.FrontierResource) {
      StreamKeySeparatesDomains(namespace, domain, States.FrontierResource);
    }
    if StreamKey(namespace, domain) == States.NamespaceKey(namespace, States.VisitedResource) {
      StreamKeySeparatesDomains(namespace, domain, States.VisitedResource);
    }
  }

  /** A single-label domain named like a state resource does take that
      key: the stream of a host `pages-to-visit` in namespace `namespace` is
      the key of the namespace's frontier set. */
  lemma StreamKeyOfDotlessDomain(namespace: string)
    ensures StreamKey(namespace, States.FrontierResource) == States.NamespaceKey(namespace, States.FrontierResource)
    ensures StreamKey(namespace, States.VisitedResource) == States.NamespaceKey(namespace, States.VisitedResource)
  {
  }

  /** The record written for a page: its link, then its content. */
  function StreamRecord(msg: Page): (fields: seq<(string, string)>)
    ensures |fields| == 2
    ensures fields[0] == ("link", msg.link.serialization)
    ensures fields[1] == ("content", msg.content)
  {
    [("link", msg.link.serialization), ("content", msg.content)]
  }

  /** The value of the first field called `name`, as a reader of the stream
      would look it up. */
  function FieldValue(fields: seq<(string, string)>, name: string): Option<string>
  {
    if fields == [] then None
    else if fields[0].0 == name then Some(fields[0].1)
    else FieldValue(fields[1..], name)
  }

  /** A reader of a stream record gets back the page's link and content. */
  lemma StreamRecordReadBack(msg: Page)
    ensures FieldValue(StreamRecord(msg), "link") == Some(msg.link.serialization)
    ensures FieldValue(StreamRecord(msg), "content") == Some(msg.content)
  {
    var fields := StreamRecord(msg);
    assert fields[0].0 == "link" && fields[1].0 == "content";
    assert "link" != "content";
    assert fields[1..][0] == fields[1];
  }

  /** Stream sink; `appended` is the store's log of appended entries, across
      all of this namespace's streams. */
  class RedisSink {
    const namespace: string
    ghost var appended: seq<StreamEntry>

    constructor (namespace: string)
      ensures this.namespace == namespace && appended == []
    {
      this.namespace := namespace;
      appended := [];
    }

    /** Appends one record for the page to its domain's stream. A page
        without a domain aborts the process before anything is appended;
        `storeAvailable` stands for whether the store accepted the append. */
    method Write(msg: Page, storeAvailable: bool) returns (status: Status)
      requires msg.link.domain.Some?
      modifies this
      ensures storeAvailable ==>
        && status == Ok
        && appended == old(appended) + [StreamEntry(StreamKey(namespace, msg.link.domain.value), StreamRecord(msg))]
      ensures !storeAvailable ==> status == Err(StoreUnavailable) && appended == old(appended)
    {
      var domain := msg.link.domain.value;
      var fields := StreamRecord(msg);
      if !storeAvailable {
        return Err(StoreUnavailable);
      }
      appended := appended + [StreamEntry(StreamKey(namespace, domain), fields)];
      status := Ok;
    }
  }
}
