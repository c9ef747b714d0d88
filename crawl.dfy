/** The link crawler urlextractor.py: scheme defaulting of the start URL,
    the output file name, the same-site test and extract_urls with its
    shared `visited` set.

    The network and the HTML parser are parameters: `links(url)` is the list
    of href values of the <a> tags of the page, None when requests.get raises
    or the status is an error; `hostOf(u)` is urlparse(u).hostname; `join(base,
    href)` is urljoin(base, href); `sitemapOf(url)` is the list of <loc> URLs
    of the sitemap the page links to, empty when there is none. */
module Crawl {
  import opened Wrappers
  import opened Text
  import opened Seqs

  const Http := "http://"
  const Https := "https://"
  const Www := "www."
  const DefaultOutput := "output.txt"

  /** The case-sensitive test of urlextractor.py:26. */
  predicate HasScheme(u: string)
  {
    StartsWith(u, Http) || StartsWith(u, Https)
  }

  /** The start URL with `http://` put in front unless it already starts with
      `http://` or `https://`. */
  function WithScheme(u: string): (r: string)
    ensures HasScheme(r)
    ensures EndsWith(r, u)
    ensures r == u <==> HasScheme(u)
  {
    if HasScheme(u) then u else Http + u
  }

  /** Defaulting the scheme twice is defaulting it once. */
  lemma WithSchemeIdempotent(u: string)
    ensures WithScheme(WithScheme(u)) == WithScheme(u)
  {
  }

  /** The test is case-sensitive: an upper-case scheme gets a second one. */
  lemma WithSchemeCaseSensitive()
    ensures WithScheme("HTTP://example.com") == Http + "HTTP://example.com"
  {
    var u := "HTTP://example.com";
    assert u[..|Http|][0] != Http[0];
    assert u[..|Https|][0] != Https[0];
  }

  /** `www.` occurs in `s` at position `i`. */
  predicate WwwAt(s: string, i: nat)
  {
    i + 4 <= |s| && s[i..i + 4] == Www
  }

  /** `www.` occurs somewhere in `s`. */
  ghost predicate ContainsWww(s: string)
  {
    exists i: nat :: WwwAt(s, i)
  }

  /** str.replace('www.', ''): one left-to-right pass removing every
      non-overlapping occurrence of `www.`. */
  function StripWww(s: string): (r: string)
    ensures |r| <= |s|
    ensures forall c :: c in r ==> c in s
    decreases |s|
  {
    if |s| >= 4 && s[..4] == Www then StripWww(s[4..])
    else if s == [] then []
    else [s[0]] + StripWww(s[1..])
  }

  /** The name is left alone exactly when it holds no `www.`. */
  lemma {:induction false} StripWwwUnchanged(s: string)
    ensures StripWww(s) == s <==> !ContainsWww(s)
    decreases |s|
  {
    if |s| >= 4 && s[..4] == Www {
      assert WwwAt(s, 0);
    } else if s != [] {
      StripWwwUnchanged(s[1..]);
      if ContainsWww(s[1..]) {
        var i: nat :| WwwAt(s[1..], i);
        assert s[i + 1..i + 1 + 4] == s[1..][i..i + 4];
        assert WwwAt(s, i + 1);
      }
      if ContainsWww(s) {
        var i: nat :| WwwAt(s, i);
        assert i != 0;
        assert s[1..][i - 1..i - 1 + 4] == s[i..i + 4];
        assert WwwAt(s[1..], i - 1);
      }
    }
  }

  /** One pass only: removing `www.` can join the pieces around it into a new
      `www.`, which stays. */
  lemma StripWwwSinglePass()
    ensures StripWww("wwwww.w.") == "www."
  {
    assert "wwwww.w."[..4][3] != Www[3];
    assert "wwwww.w."[1..][..4][3] != Www[3];
    assert "wwwww.w."[1..][1..][..4] == Www;
    assert "wwwww.w."[1..][1..][4..] == "w.";
  }

  /** urlextractor.py:38-42: the -o argument when it is given and non-empty;
      otherwise the host name of the start URL with `www.` removed, when it
      has a non-empty one; otherwise output.txt. */
  function OutputName(output: Option<string>, hostname: Option<string>): (r: string)
    ensures output.Some? && output.value != "" ==> r == output.value
    ensures (output.None? || output.value == "") && hostname.Some? && hostname.value != "" ==>
              |r| <= |hostname.value| && (r == hostname.value <==> !ContainsWww(hostname.value))
    ensures (output.None? || output.value == "") && (hostname.None? || hostname.value == "") ==>
              r == DefaultOutput
  {
    if output.Some? && output.value != "" then output.value
    else if hostname.Some? && hostname.value != "" then
      StripWwwUnchanged(hostname.value);
      StripWww(hostname.value)
    else DefaultOutput
  }

  /** The same-site test of urlextractor.py:120: the page's own host or a
      subdomain of it. */
  predicate InScope(host: string, pageHost: string)
    ensures InScope(host, pageHost) && host != pageHost ==>
              |host| > |pageHost| && host[|host| - |pageHost| - 1] == '.'
  {
    host == pageHost || EndsWith(host, "." + pageHost)
  }

  /** A host is in scope exactly when it is the page host, or ends with the
      page host preceded by a dot. A host that merely ends with the page
      host's text is not. */
  lemma InScopeDotBoundary(host: string, pageHost: string)
    ensures InScope(host, pageHost) <==>
              || host == pageHost
              || (&& |host| > |pageHost| && host[|host| - |pageHost| - 1] == '.'
                  && host[|host| - |pageHost|..] == pageHost)
  {
    var n := |host| - |pageHost|;
    if |host| > |pageHost| && host[n - 1] == '.' && host[n..] == pageHost {
      assert host[n - 1..] == "." + pageHost;
    }
  }

  lemma EvilExampleNotInScope()
    ensures !InScope("evilexample.com", "example.com")
    ensures InScope("api.example.com", "example.com")
  {
    InScopeDotBoundary("evilexample.com", "example.com");
    assert "api.example.com"[3..] == ".example.com";
  }

  /** An href that the loop of extract_urls looks at: it holds no '#' and it
      has a host name. */
  predicate Linkable(href: string, hostOf: string -> Option<string>)
  {
    '#' !in href && hostOf(href).Some?
  }

  /** The test an href passes to be written: linkable, in scope, and
      resolving to a URL neither seen nor in the sitemap. */
  predicate Accepts(href: string, page: string, pageHost: string, seen: set<string>, sitemap: set<string>,
                    hostOf: string -> Option<string>, join: (string, string) -> string)
  {
    && Linkable(href, hostOf) && InScope(hostOf(href).value, pageHost)
    && join(page, href) !in seen && join(page, href) !in sitemap
  }

  /** The URLs the loop of extract_urls writes for the hrefs of a page whose
      host is `pageHost`, given the URLs `seen` so far: each linkable,
      in-scope href, resolved against the page, that is neither seen nor in
      the sitemap, in href order; each one is seen from then on. */
  function Harvest(hrefs: seq<string>, page: string, pageHost: string, seen: set<string>,
                   sitemap: set<string>, hostOf: string -> Option<string>,
                   join: (string, string) -> string): (r: seq<string>)
    ensures NoDup(r)
    ensures forall k :: 0 <= k < |r| ==> r[k] !in seen && r[k] !in sitemap
    decreases |hrefs|
  {
    if hrefs == [] then []
    else
      var href := hrefs[0];
      var full := join(page, href);
      if Accepts(href, page, pageHost, seen, sitemap, hostOf, join)
      then [full] + Harvest(hrefs[1..], page, pageHost, seen + {full}, sitemap, hostOf, join)
      else Harvest(hrefs[1..], page, pageHost, seen, sitemap, hostOf, join)
  }

  /** Every URL harvested comes from an href of the page that is linkable,
      in scope, and resolves to it. */
  lemma {:induction false} HarvestSource(hrefs: seq<string>, page: string, pageHost: string, seen: set<string>,
                                         sitemap: set<string>, hostOf: string -> Option<string>,
                                         join: (string, string) -> string, u: string)
    requires u in Harvest(hrefs, page, pageHost, seen, sitemap, hostOf, join)
    ensures exists k :: && 0 <= k < |hrefs| && Linkable(hrefs[k], hostOf)
                        && InScope(hostOf(hrefs[k]).value, pageHost) && join(page, hrefs[k]) == u
    decreases |hrefs|
  {
    var href := hrefs[0];
    var full := join(page, href);
    if Accepts(href, page, pageHost, seen, sitemap, hostOf, join) {
      if u != full {
        HarvestSource(hrefs[1..], page, pageHost, seen + {full}, sitemap, hostOf, join, u);
        var k :| 0 <= k < |hrefs[1..]| && Linkable(hrefs[1..][k], hostOf)
                 && InScope(hostOf(hrefs[1..][k]).value, pageHost) && join(page, hrefs[1..][k]) == u;
        assert hrefs[k + 1] == hrefs[1..][k];
      }
    } else {
      HarvestSource(hrefs[1..], page, pageHost, seen, sitemap, hostOf, join, u);
      var k :| 0 <= k < |hrefs[1..]| && Linkable(hrefs[1..][k], hostOf)
               && InScope(hostOf(hrefs[1..][k]).value, pageHost) && join(page, hrefs[1..][k]) == u;
      assert hrefs[k + 1] == hrefs[1..][k];
    }
  }

  /** Every linkable, in-scope href of the page leads to a URL that was
      already seen, is in the sitemap, or is harvested. */
  lemma {:induction false} HarvestComplete(hrefs: seq<string>, page: string, pageHost: string, seen: set<string>,
                                           sitemap: set<string>, hostOf: string -> Option<string>,
                                           join: (string, string) -> string, k: nat)
    requires k < |hrefs| && Linkable(hrefs[k], hostOf) && InScope(hostOf(hrefs[k]).value, pageHost)
    ensures var u := join(page, hrefs[k]);
      u in seen || u in sitemap || u in Harvest(hrefs, page, pageHost, seen, sitemap, hostOf, join)
    decreases |hrefs|
  {
    var full := join(page, hrefs[0]);
    var u := join(page, hrefs[k]);
    if k > 0 {
      assert hrefs[1..][k - 1] == hrefs[k];
      if Accepts(hrefs[0], page, pageHost, seen, sitemap, hostOf, join) {
        HarvestComplete(hrefs[1..], page, pageHost, seen + {full}, sitemap, hostOf, join, k - 1);
      } else {
        HarvestComplete(hrefs[1..], page, pageHost, seen, sitemap, hostOf, join, k - 1);
      }
    }
  }

  /** One step of the loop of extract_urls, as seen from Harvest. */
  lemma HarvestStep(hrefs: seq<string>, i: nat, page: string, pageHost: string, seen: set<string>,
                    sitemap: set<string>, hostOf: string -> Option<string>, join: (string, string) -> string)
    requires i < |hrefs|
    ensures var full := join(page, hrefs[i]);
      Harvest(hrefs[i..], page, pageHost, seen, sitemap, hostOf, join)
      == if Accepts(hrefs[i], page, pageHost, seen, sitemap, hostOf, join)
         then [full] + Harvest(hrefs[i + 1..], page, pageHost, seen + {full}, sitemap, hostOf, join)
         else Harvest(hrefs[i + 1..], page, pageHost, seen, sitemap, hostOf, join)
  {
    assert hrefs[i..][1..] == hrefs[i + 1..];
  }

  /** The URLs extract_urls writes for the page `url` when `seen` is the
      visited set just after `url` has been added to it. */
  function Extracted(url: string, seen: set<string>, sitemap: set<string>, links: string -> Option<seq<string>>,
                     hostOf: string -> Option<string>, join: (string, string) -> string): (r: seq<string>)
    ensures forall k :: 0 <= k < |r| ==> r[k] !in seen && r[k] !in sitemap
  {
    match links(url)
    case None => []
    case Some(hrefs) =>
      match hostOf(url)
      case None => []
      case Some(pageHost) => Harvest(hrefs, url, pageHost, seen, sitemap, hostOf, join)
  }

  /** The page has no host name and one of its hrefs reaches the scope
      test, where '.' + None raises TypeError. */
  predicate Crashes(url: string, links: string -> Option<seq<string>>, hostOf: string -> Option<string>)
    ensures Crashes(url, links, hostOf) ==> links(url).Some? && links(url).value != []
    ensures Crashes(url, links, hostOf) ==>
              forall seen, sitemap, join :: Extracted(url, seen, sitemap, links, hostOf, join) == []
  {
    && links(url).Some? && hostOf(url).None?
    && exists k :: 0 <= k < |links(url).value| && Linkable(links(url).value[k], hostOf)
  }

  /** Writing one accepted URL keeps the crawl state consistent and moves
      that URL from what is still to be harvested to what has been written. */
  lemma AcceptStep(written: seq<string>, visited: set<string>, full: string, rest: seq<string>,
                   sitemap: set<string>)
    requires NoDup(written) && full !in visited && full !in sitemap
    requires forall k :: 0 <= k < |written| ==> written[k] in visited && written[k] !in sitemap
    ensures var w := written + [full];
      && NoDup(w)
      && (forall k :: 0 <= k < |w| ==> w[k] in visited + {full} && w[k] !in sitemap)
      && w + rest == written + ([full] + rest)
      && (visited + {full}) + Elems(rest) == visited + Elems([full] + rest)
  {
    ElemsCons(full, rest);
  }

  /** The crawl state that extract_urls threads through its calls: the set of
      visited URLs (updated in place) and the lines appended to the output
      file. */
  class Crawler {
    var visited: set<string>
    var written: seq<string>
    const sitemap: set<string>
    const deep: bool
    const links: string -> Option<seq<string>>
    const hostOf: string -> Option<string>
    const join: (string, string) -> string

    /** Every written URL has been visited and is not a sitemap URL, and no
        URL is written twice. */
    ghost predicate Valid()
      reads this
    {
      && NoDup(written)
      && forall k :: 0 <= k < |written| ==> written[k] in visited && written[k] !in sitemap
    }

    constructor (sitemap: set<string>, deep: bool, links: string -> Option<seq<string>>,
                 hostOf: string -> Option<string>, join: (string, string) -> string)
      ensures Valid() && visited == {} && written == []
      ensures this.sitemap == sitemap && this.deep == deep
      ensures this.links == links && this.hostOf == hostOf && this.join == join
    {
      this.visited := {};
      this.written := [];
      this.sitemap := sitemap;
      this.deep := deep;
      this.links := links;
      this.hostOf := hostOf;
      this.join := join;
    }

    /** extract_urls. A visited URL returns at once and changes nothing.
        Otherwise the URL is added to `visited` before the page is fetched,
        and the harvested URLs are appended to the output and added to
        `visited`, in href order. `ok` is false when the call raises. In deep
        mode the recursive call gets a URL that was added to `visited` just
        before, so it returns at once; the `decreases` clause relies on
        that. */
    method ExtractUrls(url: string) returns (ok: bool)
      requires Valid()
      modifies this
      decreases if url in visited then 0 else 1
      ensures Valid()
      ensures old(visited) <= visited
      ensures old(url in visited) ==> ok && visited == old(visited) && written == old(written)
      ensures old(url !in visited) ==>
                var extracted := Extracted(url, old(visited) + {url}, sitemap, links, hostOf, join);
                && ok == !Crashes(url, links, hostOf)
                && written == old(written) + extracted
                && visited == old(visited) + {url} + Elems(extracted)
    {
      if url in visited {
        return true;
      }
      visited := visited + {url};
      var page := links(url);
      if page.None? {
        return true;
      }
      var hrefs := page.value;
      var pageHost := hostOf(url);
      ghost var seen0 := visited;
      ghost var written0 := written;
      ghost var goal := if pageHost.Some? then Harvest(hrefs, url, pageHost.value, seen0, sitemap, hostOf, join) else [];
      var i := 0;
      while i < |hrefs|
        invariant 0 <= i <= |hrefs|
        invariant Valid() && seen0 <= visited
        invariant pageHost.None? ==>
                    visited == seen0 && written == written0
                    && forall j :: 0 <= j < i ==> !Linkable(hrefs[j], hostOf)
        invariant pageHost.Some? ==>
                    var rest := Harvest(hrefs[i..], url, pageHost.value, visited, sitemap, hostOf, join);
                    && written + rest == written0 + goal
                    && visited + Elems(rest) == seen0 + Elems(goal)
      {
        var href := hrefs[i];
        if pageHost.Some? {
          HarvestStep(hrefs, i, url, pageHost.value, visited, sitemap, hostOf, join);
          ElemsCons(join(url, href), Harvest(hrefs[i + 1..], url, pageHost.value, visited + {join(url, href)}, sitemap, hostOf, join));
        }
        if '#' in href {
          i := i + 1;
          continue;
        }
        var host := hostOf(href);
        if host.None? {
          i := i + 1;
          continue;
        }
        var full := join(url, href);
        if pageHost.None? {
          assert Linkable(hrefs[i], hostOf);
          return false;
        }
        if host.value == pageHost.value || EndsWith(host.value, "." + pageHost.value) {
          if full !in visited && full !in sitemap {
            ghost var rest := Harvest(hrefs[i + 1..], url, pageHost.value, visited + {full}, sitemap, hostOf, join);
            AcceptStep(written, visited, full, rest, sitemap);
            written := written + [full];
            visited := visited + {full};
            if deep {
              // `full` was added to `visited` just above: the call returns at once.
              var nested := ExtractUrls(full);
            }
          }
        }
        i := i + 1;
      }
      assert pageHost.Some? ==> hrefs[|hrefs|..] == [];
      ok := true;
    }
  }

  /** main of urlextractor.py from the start URL on: default the scheme,
      fetch the page (a failure stops the run before any file is named),
      choose the output name, collect the sitemap URLs and run extract_urls
      from the start URL. What is written is what extract_urls extracts
      from the start page with only the start URL visited; the start URL
      and the sitemap URLs are never written, and no URL is written twice. */
  method RunExtractor(urlArg: string, output: Option<string>, deep: bool,
                      links: string -> Option<seq<string>>, hostOf: string -> Option<string>,
                      join: (string, string) -> string, sitemapOf: string -> seq<string>)
    returns (outputName: Option<string>, written: seq<string>, ok: bool)
    ensures var base := WithScheme(urlArg);
      && (outputName.None? <==> links(base).None?)
      && (outputName.Some? ==> outputName.value == OutputName(output, hostOf(base)))
      && NoDup(written) && base !in written
      && (forall k :: 0 <= k < |written| ==> written[k] !in sitemapOf(base))
      && (links(base).None? ==> written == [] && ok)
      && (links(base).Some? ==>
            && written == Extracted(base, {base}, Elems(sitemapOf(base)), links, hostOf, join)
            && ok == !Crashes(base, links, hostOf))
  {
    var base := WithScheme(urlArg);
    if links(base).None? {
      return None, [], true;
    }
    outputName := Some(OutputName(output, hostOf(base)));
    var sitemap := Elems(sitemapOf(base));
    var crawler := new Crawler(sitemap, deep, links, hostOf, join);
    assert {} + {base} == {base};
    ok := crawler.ExtractUrls(base);
    written := crawler.written;
    assert written == [] + Extracted(base, {base}, sitemap, links, hostOf, join);
  }
}
