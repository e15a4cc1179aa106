/** The origin root of a URL, `scheme://domain`: the boundary the crawler
    uses to decide which links are on the same site. */
module UrlRoot {
  import opened Wrappers
  import opened Strings

  /** A parsed URL as far as the crawler looks into it: its scheme, its
      domain (absent for IP hosts and URLs without a host) and its
      serialization, the text `to_string` returns (port, path, query and
      fragment live only there). */
  datatype Url = Url(scheme: string, domain: Option<string>, serialization: string)

  predicate IsAsciiLetter(c: char)
  {
    'a' <= c <= 'z' || 'A' <= c <= 'Z'
  }

  /** A scheme as section 3.1 of RFC 3986 defines it: a letter followed by
      letters, digits, `+`, `-` or `.`. A URL parser only produces these. */
  predicate ValidScheme(scheme: string)
  {
    && |scheme| > 0
    && IsAsciiLetter(scheme[0])
    && forall i :: 0 <= i < |scheme| ==>
         IsAsciiLetter(scheme[i]) || '0' <= scheme[i] <= '9' || scheme[i] in "+-."
  }

  /** `scheme://domain`, or nothing when the URL has no domain. */
  function Root(url: Url): (root: Option<string>)
    ensures root.None? <==> url.domain.None?
    ensures root.Some? ==> url.scheme + "://" <= root.value
  {
    match url.domain
    case None => None
    case Some(domain) => Some(url.scheme + "://" + domain)
  }

  /** The root is a function of the origin alone: path, query and fragment
      (all inside the serialization) play no part. */
  lemma RootIgnoresPath(url: Url, serialization: string)
    ensures Root(url.(serialization := serialization)) == Root(url)
  {
  }

  /** Two URLs with well-formed schemes have the same root exactly when they
      have the same scheme and the same domain, so comparing roots compares
      scheme and domain (the port takes no part). */
  lemma RootIdentifiesOrigin(u1: Url, u2: Url)
    requires ValidScheme(u1.scheme) && ValidScheme(u2.scheme)
    requires u1.domain.Some?
    ensures Root(u1) == Root(u2) <==> u1.scheme == u2.scheme && u1.domain == u2.domain
  {
    if u2.domain.Some? {
      var d1, d2 := u1.domain.value, u2.domain.value;
      assert ':' !in u1.scheme && ':' !in u2.scheme by {
        forall i | 0 <= i < |u1.scheme| ensures u1.scheme[i] != ':' { }
        forall i | 0 <= i < |u2.scheme| ensures u2.scheme[i] != ':' { }
      }
      assert u1.scheme + "://" + d1 == u1.scheme + [':'] + ("//" + d1);
      assert u2.scheme + "://" + d2 == u2.scheme + [':'] + ("//" + d2);
      UnambiguousJoin(u1.scheme, "//" + d1, u2.scheme, "//" + d2, ':');
      if "//" + d1 == "//" + d2 {
        assert d1 == ("//" + d1)[2..] && d2 == ("//" + d2)[2..];
      }
    }
  }

  /** The root of `https://www.rust-lang.org/test/cats`. */
  lemma RootOfRustLangPage()
    ensures Root(Url("https", Some("www.rust-lang.org"), "https://www.rust-lang.org/test/cats"))
         == Some("https://www.rust-lang.org")
  {
    assert "https" + "://" + "www.rust-lang.org" == "https://www.rust-lang.org";
  }
}
