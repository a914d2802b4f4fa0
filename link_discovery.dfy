/** Link discovery (`_matches_whitelist` and `list_csv_links` in scripts/isp_bot.py): which
    anchors of the statistics page become download links, and with which label and URL.
    The page fetch and the HTML parser are outside the model: the anchors that carry an
    `href` arrive as a sequence, in page order, and `urljoin` against the page's base URL
    is a parameter. */
module LinkDiscovery {
  import opened Text

  /** An `<a href=...>` element: its `href` attribute and its `get_text()`. */
  datatype Anchor = Anchor(href: string, text: string)

  /** A discovered link, the `(label, url)` pair of the source. */
  datatype Link = Link(caption: string, url: string)

  /** The two patterns of the whitelist as the literal suffixes they match (the escaped dot
      written plainly); both are anchored by `$` and compiled with `re.I`. */
  const HistoricalFile: string := "BaseDPEvolucaoMensalCisp.csv"
  const CsvSuffix: string := ".csv"
  const Whitelist: seq<string> := [HistoricalFile, CsvSuffix]

  /** The character that Python's `re` compares under IGNORECASE, for a pattern made of
      ASCII characters: ASCII letters fold to lower case, and the non-ASCII characters whose
      simple lower case, or whose `re` equivalence class, is an ASCII letter fold onto it. */
  function Fold(c: char): char
  {
    if 'A' <= c <= 'Z' then (c as int + 32) as char
    else if c == '\U{17F}' then 's'        // long s, equivalent to s in `re`
    else if c == '\U{131}' || c == '\U{130}' then 'i'   // dotless i and dotted capital I
    else if c == '\U{212A}' then 'k'       // Kelvin sign
    else c
  }

  /** `name` ends with `suffix`, comparing characters as `re.I` does. */
  predicate EndsWithFolded(name: string, suffix: string)
  {
    |suffix| <= |name|
    && forall i :: 0 <= i < |suffix| ==> Fold(name[|name| - |suffix| + i]) == Fold(suffix[i])
  }

  /** `re.search(suffix + "$", name, re.I)` for a literal suffix: `$` matches at the end of
      the name or just before a final newline. */
  predicate PatternMatches(suffix: string, name: string)
  {
    || EndsWithFolded(name, suffix)
    || (name != [] && name[|name| - 1] == '\n' && EndsWithFolded(name[..|name| - 1], suffix))
  }

  /** `any(p.search(name) for p in patterns)` */
  predicate AnyMatches(patterns: seq<string>, name: string)
  {
    patterns != [] && (PatternMatches(patterns[0], name) || AnyMatches(patterns[1..], name))
  }

  /** `_matches_whitelist`: some pattern of the whitelist matches. */
  predicate MatchesWhitelist(name: string)
  {
    AnyMatches(Whitelist, name)
  }

  /** The whitelist accepts a name exactly when one of its two patterns matches it. */
  lemma WhitelistCases(name: string)
    ensures MatchesWhitelist(name) <==> PatternMatches(HistoricalFile, name) || PatternMatches(CsvSuffix, name)
  {
    var rest := Whitelist[1..];
    assert rest == [CsvSuffix];
    assert rest[1..] == [];
    assert AnyMatches(rest, name) == PatternMatches(CsvSuffix, name);
    assert Whitelist[0] == HistoricalFile;
  }

  /** `href.lower().endswith(".csv")`. */
  predicate HrefIsCsv(href: string)
  {
    EndsWith(Lower(href), CsvSuffix)
  }

  /** The URL of an anchor: an `http...` href as it is, any other joined to the base URL. */
  function Resolve(href: string, join: string -> string): string
  {
    if StartsWith(href, "http") then href else join(href)
  }

  /** Whether the loop of `list_csv_links` appends a link for this anchor. */
  predicate Kept(a: Anchor, join: string -> string)
  {
    HrefIsCsv(a.href) && MatchesWhitelist(LastSegment(Resolve(a.href, join)))
  }

  /** The link appended for a kept anchor: `(text or filename, url)`. */
  function MakeLink(a: Anchor, join: string -> string): Link
  {
    var url := Resolve(a.href, join);
    var text := Strip(a.text);
    Link(if text != [] then text else LastSegment(url), url)
  }

  /** The results of `make` on the elements of `xs` that `keep` accepts, in order. */
  function Select<T, U>(xs: seq<T>, keep: T -> bool, make: T -> U): seq<U>
  {
    if xs == [] then []
    else Select(xs[..|xs| - 1], keep, make) + (if keep(xs[|xs| - 1]) then [make(xs[|xs| - 1])] else [])
  }

  /** The positions in `xs` of the elements that `keep` accepts, in increasing order. */
  function Positions<T>(xs: seq<T>, keep: T -> bool): seq<nat>
  {
    if xs == [] then []
    else Positions(xs[..|xs| - 1], keep) + (if keep(xs[|xs| - 1]) then [|xs| - 1] else [])
  }

  /** The links `list_csv_links` returns for a page whose anchors are `anchors`. */
  function CsvLinks(anchors: seq<Anchor>, join: string -> string): seq<Link>
  {
    Select(anchors, a => Kept(a, join), a => MakeLink(a, join))
  }

  /** The positions in `anchors` of the kept anchors. */
  function KeptPositions(anchors: seq<Anchor>, join: string -> string): seq<nat>
  {
    Positions(anchors, a => Kept(a, join))
  }

  /** The filtering loop of `list_csv_links`. */
  method ListCsvLinks(anchors: seq<Anchor>, join: string -> string) returns (links: seq<Link>)
    ensures links == CsvLinks(anchors, join)
  {
    links := [];
    var i := 0;
    while i < |anchors|
      invariant 0 <= i <= |anchors|
      invariant links == CsvLinks(anchors[..i], join)
    {
      assert anchors[..i + 1][..i] == anchors[..i];
      var href := anchors[i].href;
      var text := Strip(anchors[i].text);
      if HrefIsCsv(href) {
        var url := if StartsWith(href, "http") then href else join(href);
        var filename := LastSegment(url);
        if MatchesWhitelist(filename) {
          links := links + [Link(if text != [] then text else filename, url)];
        }
      }
      i := i + 1;
    }
    assert anchors[..i] == anchors;
  }

  /** Folded suffix matching carries over to every suffix of the pattern. */
  lemma EndsWithFoldedSuffix(name: string, suffix: string, tail: string)
    requires EndsWithFolded(name, suffix) && EndsWith(suffix, tail)
    ensures EndsWithFolded(name, tail)
  {
    forall i | 0 <= i < |tail|
      ensures Fold(name[|name| - |tail| + i]) == Fold(tail[i])
    {
      var j := |suffix| - |tail| + i;
      assert suffix[j] == tail[i];
      assert Fold(name[|name| - |suffix| + j]) == Fold(suffix[j]);
    }
  }

  /** The historical pattern adds nothing: a name passes the whitelist exactly when it ends
      with `.csv` in any case, possibly followed by one newline. */
  lemma WhitelistIsCsvSuffix(name: string)
    ensures MatchesWhitelist(name) <==> PatternMatches(CsvSuffix, name)
    ensures MatchesWhitelist(name) <==>
              || EndsWithFolded(name, ".csv")
              || (name != [] && name[|name| - 1] == '\n' && EndsWithFolded(name[..|name| - 1], ".csv"))
  {
    assert EndsWith(HistoricalFile, CsvSuffix);
    if PatternMatches(HistoricalFile, name) {
      if EndsWithFolded(name, HistoricalFile) {
        EndsWithFoldedSuffix(name, HistoricalFile, CsvSuffix);
      } else {
        EndsWithFoldedSuffix(name[..|name| - 1], HistoricalFile, CsvSuffix);
      }
    }
    WhitelistCases(name);
  }

  /** An href that lowers to `... .csv` has a last segment that passes the whitelist. */
  lemma CsvHrefPassesWhitelist(url: string)
    requires HrefIsCsv(url)
    ensures MatchesWhitelist(LastSegment(url))
  {
    var name, tail := LastSegment(url), url[|url| - 4..];
    forall j | 0 <= j < 4
      ensures tail[j] != '/'
    {
      CsvTailChar(url, j);
    }
    LastSegmentKeepsTail(url, 4);
    assert EndsWithFolded(name, CsvSuffix) by {
      forall i | 0 <= i < 4
        ensures Fold(name[|name| - 4 + i]) == Fold(CsvSuffix[i])
      {
        CsvTailChar(url, i);
        assert name[|name| - 4 + i] == name[|name| - 4..][i] == tail[i];
      }
    }
    WhitelistCases(name);
  }

  /** When the last `n` characters of `s` hold no slash, its last segment ends with them. */
  lemma LastSegmentKeepsTail(s: string, n: nat)
    requires n <= |s| && '/' !in s[|s| - n..]
    ensures n <= |LastSegment(s)| && LastSegment(s)[|LastSegment(s)| - n..] == s[|s| - n..]
  {
    var r := LastSegment(s);
    assert r == s[|s| - |r|..];
    assert r[|r| - n..] == s[|s| - n..];
  }

  /** Each of the last four characters of a `.csv` href is not a slash and folds as the
      corresponding character of `.csv`. */
  lemma CsvTailChar(url: string, i: int)
    requires HrefIsCsv(url) && 0 <= i < 4
    ensures url[|url| - 4 + i] != '/' && Fold(url[|url| - 4 + i]) == Fold(CsvSuffix[i])
  {
    assert LowerChar(url[|url| - 4 + i]) == CsvSuffix[i] by {
      assert Lower(url)[|url| - 4 + i] == Lower(url)[|url| - 4..][i];
    }
    assert CsvSuffix[i] in {'.', 'c', 's', 'v'};
  }

  /** For an absolute `http...` href the whitelist decides nothing: the anchor is kept exactly
      when its href ends with `.csv` in any case, and its URL is the href unchanged. */
  lemma HttpAnchor(a: Anchor, join: string -> string)
    requires StartsWith(a.href, "http")
    ensures Kept(a, join) <==> HrefIsCsv(a.href)
    ensures MakeLink(a, join).url == a.href
  {
    if HrefIsCsv(a.href) {
      CsvHrefPassesWhitelist(a.href);
    }
  }

  /** What each link says: its URL is the resolved href, and its caption (the label) is the stripped
      anchor text, or the last `/` segment of the URL when that text is empty. */
  lemma LinkFields(a: Anchor, join: string -> string)
    ensures MakeLink(a, join).url == (if StartsWith(a.href, "http") then a.href else join(a.href))
    ensures Strip(a.text) != [] ==> MakeLink(a, join).caption == Strip(a.text)
    ensures Strip(a.text) == [] ==> MakeLink(a, join).caption == LastSegment(MakeLink(a, join).url)
    ensures '/' !in MakeLink(a, join).caption || Strip(a.text) != []
  {
  }

  /** There is one selected result per accepted position. */
  lemma {:induction false} SelectCount<T, U>(xs: seq<T>, keep: T -> bool, make: T -> U)
    ensures |Select(xs, keep, make)| == |Positions(xs, keep)|
  {
    if xs != [] {
      SelectCount(xs[..|xs| - 1], keep, make);
    }
  }

  /** The accepted positions lie inside `xs`, strictly increase and are accepted. */
  lemma {:induction false} PositionsSound<T>(xs: seq<T>, keep: T -> bool)
    ensures var ps := Positions(xs, keep);
      && |ps| <= |xs|
      && (forall k :: 0 <= k < |ps| ==> ps[k] < |xs| && keep(xs[ps[k]]))
      && (forall k, m :: 0 <= k < m < |ps| ==> ps[k] < ps[m])
  {
    if xs != [] {
      var init := xs[..|xs| - 1];
      PositionsSound(init, keep);
      var ps0 := Positions(init, keep);
      forall k | 0 <= k < |ps0|
        ensures xs[ps0[k]] == init[ps0[k]]
      {
      }
    }
  }

  /** Every accepted element's position is among the accepted positions. */
  lemma {:induction false} PositionsComplete<T>(xs: seq<T>, keep: T -> bool, i: nat)
    requires i < |xs| && keep(xs[i])
    ensures i in Positions(xs, keep)
  {
    var init := xs[..|xs| - 1];
    if i < |init| {
      assert init[i] == xs[i];
      PositionsComplete(init, keep, i);
    }
  }

  /** The k-th selected result is `make` of the element at the k-th accepted position. */
  lemma {:induction false} SelectAt<T, U>(xs: seq<T>, keep: T -> bool, make: T -> U, k: nat)
    requires k < |Positions(xs, keep)|
    ensures Positions(xs, keep)[k] < |xs|
    ensures k < |Select(xs, keep, make)|
    ensures Select(xs, keep, make)[k] == make(xs[Positions(xs, keep)[k]])
  {
    PositionsSound(xs, keep);
    SelectCount(xs, keep, make);
    var init := xs[..|xs| - 1];
    PositionsSound(init, keep);
    SelectCount(init, keep, make);
    if k < |Positions(init, keep)| {
      SelectAt(init, keep, make, k);
    }
  }

  /** The links are the kept anchors' links in page order: one per kept anchor, none for any
      other, with strictly increasing positions. */
  lemma CsvLinksInPageOrder(anchors: seq<Anchor>, join: string -> string)
    ensures var links, ps := CsvLinks(anchors, join), KeptPositions(anchors, join);
      && |links| == |ps| <= |anchors|
      && (forall k :: 0 <= k < |ps| ==>
            ps[k] < |anchors| && Kept(anchors[ps[k]], join) && links[k] == MakeLink(anchors[ps[k]], join))
      && (forall k, m :: 0 <= k < m < |ps| ==> ps[k] < ps[m])
      && (forall i :: 0 <= i < |anchors| && Kept(anchors[i], join) ==> i in ps)
  {
    var keep, make := a => Kept(a, join), a => MakeLink(a, join);
    PositionsSound(anchors, keep);
    SelectCount(anchors, keep, make);
    forall i | 0 <= i < |anchors| && Kept(anchors[i], join)
      ensures i in KeptPositions(anchors, join)
    {
      PositionsComplete(anchors, keep, i);
    }
    forall k | 0 <= k < |KeptPositions(anchors, join)|
      ensures CsvLinks(anchors, join)[k] == MakeLink(anchors[KeptPositions(anchors, join)[k]], join)
    {
      SelectAt(anchors, keep, make, k);
    }
  }

  /** Every link comes from an anchor whose href ends with `.csv` in some case, and the last
      segment of its URL passes the whitelist. */
  lemma CsvLinksAreCsv(anchors: seq<Anchor>, join: string -> string, k: nat)
    requires k < |KeptPositions(anchors, join)|
    ensures KeptPositions(anchors, join)[k] < |anchors| && k < |CsvLinks(anchors, join)|
    ensures HrefIsCsv(anchors[KeptPositions(anchors, join)[k]].href)
    ensures MatchesWhitelist(LastSegment(CsvLinks(anchors, join)[k].url))
  {
    CsvLinksInPageOrder(anchors, join);
    var a := anchors[KeptPositions(anchors, join)[k]];
    assert Kept(a, join);
    assert CsvLinks(anchors, join)[k].url == Resolve(a.href, join);
  }

  /** Links are not deduplicated: the same anchor twice gives the same link twice. */
  lemma DuplicatesKept(a: Anchor, join: string -> string)
    requires Kept(a, join)
    ensures CsvLinks([a, a], join) == [MakeLink(a, join), MakeLink(a, join)]
  {
    var keep, make := a => Kept(a, join), a => MakeLink(a, join);
    assert Select([a], keep, make) == [MakeLink(a, join)] by {
      assert [a][..0] == [];
    }
    assert [a, a][..1] == [a];
  }
}
