/** Sitemap generation: every menu item of a site's decoration model becomes
    one record of a Sitemaps protocol 0.9 document (its `<loc>`, `<lastmod>`
    and `<changefreq>` tags), handed one by one to a sitemap generator.

    Two things the program gets from its environment are parameters here:
    `now`, the instant stamped as last-modified, and `valid`, the URL
    parser's verdict on whether a location string is a well-formed URL.
    A location the parser refuses aborts the whole walk with a malformed-URL
    outcome; records handed over before it stay with the generator. */
module SitemapPlugin {
  import opened Menus

  datatype Option<T> = None | Some(value: T)

  /** The `<changefreq>` values of the Sitemaps protocol. */
  datatype ChangeFreq = Always | Hourly | Daily | Weekly | Monthly | Yearly | Never

  /** An instant, in milliseconds since the epoch. */
  type Timestamp = nat

  /** One sitemap record: `<loc>`, `<lastmod>`, `<changefreq>`. */
  datatype Url = Url(loc: string, lastMod: Timestamp, changeFreq: ChangeFreq)

  /** How a run ends: normally, on the first location the URL parser
      refuses, or on a missing argument. */
  datatype Outcome = Completed | MalformedUrl(spec: string) | IllegalArgument(message: string)

  /** The translation service the plugin carries along; extraction never uses it. */
  type I18n

  const ModelNullMessage := "Argument 'model' must not be null."
  const GeneratorNullMessage := "Argument 'generator' must not be null."
  const ChangeFreqNullMessage := "Argument 'changeFreq' must not be null."

  predicate StartsWithSlash(s: string)
  {
    |s| > 0 && s[0] == '/'
  }

  /** An href as it is appended to the project URL: a site-root href
      ("/x") is made relative to the current directory ("./x"); every other
      href is kept. The result never starts with a slash. */
  function RelativePath(href: string): (r: string)
    ensures !StartsWithSlash(r)
  {
    if StartsWithSlash(href) then "." + href else href
  }

  /** Only a site-root href is changed, and then only by one leading '.'
      put in front of the whole href. */
  lemma RelativePathShape(href: string)
    ensures var r := RelativePath(href);
      |href| <= |r| <= |href| + 1 && r[|r| - |href|..] == href &&
      (r == href <==> !StartsWithSlash(href)) &&
      (r != href ==> r[0] == '.')
  {
  }

  /** Normalising twice is normalising once: "./x" is left as it is. */
  lemma RelativePathIdempotent(href: string)
    ensures RelativePath(RelativePath(href)) == RelativePath(href)
  {
  }

  /** Two hrefs that name the same file from the site root and from the
      current directory end up as the same location. */
  lemma RelativePathMerges(path: string)
    ensures RelativePath("/" + path) == RelativePath("./" + path)
  {
    assert "./" + path == "." + ("/" + path);
  }

  /** The record for one menu item: the project URL joined by plain
      concatenation to the item's own normalised href. */
  function ToUrl(projectUrl: string, item: MenuItem, now: Timestamp, changeFreq: ChangeFreq): Url
  {
    Url(projectUrl + RelativePath(item.href), now, changeFreq)
  }

  /** One record per item, in the items' order, each built from that item
      alone and carrying the run's instant and change frequency. */
  function ToUrls(projectUrl: string, nodes: seq<MenuItem>, now: Timestamp, changeFreq: ChangeFreq): (r: seq<Url>)
    ensures |r| == |nodes|
  {
    if nodes == [] then [] else [ToUrl(projectUrl, nodes[0], now, changeFreq)] + ToUrls(projectUrl, nodes[1..], now, changeFreq)
  }

  /** The k-th record is built from the k-th item alone and carries the
      run's instant and change frequency. */
  lemma {:induction false} ToUrlsAt(projectUrl: string, nodes: seq<MenuItem>, now: Timestamp, changeFreq: ChangeFreq, k: nat)
    requires k < |nodes|
    ensures ToUrls(projectUrl, nodes, now, changeFreq)[k] == Url(projectUrl + RelativePath(nodes[k].href), now, changeFreq)
    decreases k
  {
    if k > 0 {
      ToUrlsAt(projectUrl, nodes[1..], now, changeFreq, k - 1);
    }
  }

  lemma {:induction false} ToUrlsAppend(projectUrl: string, a: seq<MenuItem>, b: seq<MenuItem>, now: Timestamp, changeFreq: ChangeFreq)
    ensures ToUrls(projectUrl, a + b, now, changeFreq) == ToUrls(projectUrl, a, now, changeFreq) + ToUrls(projectUrl, b, now, changeFreq)
    decreases |a|
  {
    if a == [] {
      assert a + b == b;
    } else {
      assert (a + b)[0] == a[0];
      assert (a + b)[1..] == a[1..] + b;
      ToUrlsAppend(projectUrl, a[1..], b, now, changeFreq);
    }
  }

  /** The records a forest of menu items yields, in the order they reach
      the generator. */
  function Entries(projectUrl: string, items: seq<MenuItem>, now: Timestamp, changeFreq: ChangeFreq): seq<Url>
  {
    ToUrls(projectUrl, Flatten(items), now, changeFreq)
  }

  /** The records a whole decoration model yields. */
  function ModelEntries(projectUrl: string, model: DecorationModel, now: Timestamp, changeFreq: ChangeFreq): seq<Url>
  {
    Entries(projectUrl, MenuItems(model.menus), now, changeFreq)
  }

  /** One record per item of the forest, the k-th for the k-th item in
      pre-order, its location built from that item's own href only. */
  lemma EntriesShape(projectUrl: string, items: seq<MenuItem>, now: Timestamp, changeFreq: ChangeFreq)
    ensures |Entries(projectUrl, items, now, changeFreq)| == NodeCount(items)
    ensures forall k :: 0 <= k < |Entries(projectUrl, items, now, changeFreq)| ==>
      Entries(projectUrl, items, now, changeFreq)[k] == Url(projectUrl + RelativePath(Flatten(items)[k].href), now, changeFreq)
  {
    FlattenLength(items);
    forall k | 0 <= k < |Entries(projectUrl, items, now, changeFreq)|
      ensures Entries(projectUrl, items, now, changeFreq)[k] == Url(projectUrl + RelativePath(Flatten(items)[k].href), now, changeFreq)
    {
      ToUrlsAt(projectUrl, Flatten(items), now, changeFreq, k);
    }
  }

  /** Every item of the forest, at any depth, has its record. */
  lemma EntriesCover(projectUrl: string, items: seq<MenuItem>, now: Timestamp, changeFreq: ChangeFreq, x: MenuItem)
    requires InForest(x, items)
    ensures ToUrl(projectUrl, x, now, changeFreq) in Entries(projectUrl, items, now, changeFreq)
  {
    FlattenMembers(x, items);
    var k :| 0 <= k < |Flatten(items)| && Flatten(items)[k] == x;
    ToUrlsAt(projectUrl, Flatten(items), now, changeFreq, k);
    assert Entries(projectUrl, items, now, changeFreq)[k] == ToUrl(projectUrl, x, now, changeFreq);
  }

  /** A child's location is not nested under its parent's href: with project
      URL "https://example.org/", "/docs" with child "team.html" gives
      ".../docs" and ".../team.html", not ".../docs/team.html". */
  lemma ChildNotNested(now: Timestamp, changeFreq: ChangeFreq)
    ensures var es := Entries("https://example.org/", [MenuItem("/docs", [MenuItem("team.html", [])])], now, changeFreq);
      |es| == 2 && es[0].loc == "https://example.org/./docs" && es[1].loc == "https://example.org/team.html"
  {
    var team := MenuItem("team.html", []);
    var docs := MenuItem("/docs", [team]);
    assert Flatten([team]) == [team] by {
      assert [team][1..] == [];
    }
    assert Flatten([docs]) == [docs, team] by {
      assert [docs][1..] == [];
    }
    ToUrlsAt("https://example.org/", [docs, team], now, changeFreq, 0);
    ToUrlsAt("https://example.org/", [docs, team], now, changeFreq, 1);
  }

  /** Menus are walked in model order: the records of a model are each
      menu's records, menu after menu. */
  lemma ModelEntriesConcat(projectUrl: string, menus: seq<Menu>, now: Timestamp, changeFreq: ChangeFreq)
    ensures ModelEntries(projectUrl, DecorationModel(menus), now, changeFreq) ==
      if menus == [] then []
      else Entries(projectUrl, menus[0].items, now, changeFreq) + ModelEntries(projectUrl, DecorationModel(menus[1..]), now, changeFreq)
  {
    FlattenMenus(menus);
    if menus != [] {
      ToUrlsAppend(projectUrl, Flatten(menus[0].items), Flatten(MenuItems(menus[1..])), now, changeFreq);
    }
  }

  /** The records that reach the generator when they are handed over in
      order and the first one whose location the parser refuses stops the
      run: the longest prefix of well-formed records. */
  function ValidPrefix(us: seq<Url>, valid: string -> bool): (r: seq<Url>)
    ensures |r| <= |us|
  {
    if us == [] then []
    else if valid(us[0].loc) then [us[0]] + ValidPrefix(us[1..], valid)
    else []
  }

  /** The run hands over a prefix of the records, every one of them
      well-formed, and stops only at a refused one. */
  lemma {:induction false} ValidPrefixSpec(us: seq<Url>, valid: string -> bool)
    ensures ValidPrefix(us, valid) <= us
    ensures forall k :: 0 <= k < |ValidPrefix(us, valid)| ==> valid(ValidPrefix(us, valid)[k].loc)
    ensures |ValidPrefix(us, valid)| < |us| ==> !valid(us[|ValidPrefix(us, valid)|].loc)
    decreases |us|
  {
    if us != [] && valid(us[0].loc) {
      ValidPrefixSpec(us[1..], valid);
      var r := ValidPrefix(us[1..], valid);
      assert ValidPrefix(us, valid) == [us[0]] + r;
      forall k | 0 <= k < |r| + 1
        ensures valid(([us[0]] + r)[k].loc)
      {
        if k > 0 {
          assert ([us[0]] + r)[k] == r[k - 1];
        }
      }
      assert [us[0]] + us[1..] == us;
    }
  }

  /** How a run over these records ends. */
  function FirstFailure(us: seq<Url>, valid: string -> bool): (r: Outcome)
    ensures r == Completed <==> ValidPrefix(us, valid) == us
    ensures r.MalformedUrl? ==> !valid(r.spec)
    ensures !r.IllegalArgument?
  {
    ValidPrefixSpec(us, valid);
    var done := ValidPrefix(us, valid);
    if |done| == |us| then Completed else MalformedUrl(us[|done|].loc)
  }

  /** A run over `a + b` is a run over `a` followed, if that completed,
      by a run over `b`. */
  lemma {:induction false} ValidPrefixAppend(a: seq<Url>, b: seq<Url>, valid: string -> bool)
    ensures ValidPrefix(a + b, valid) ==
      if ValidPrefix(a, valid) == a then a + ValidPrefix(b, valid) else ValidPrefix(a, valid)
    decreases |a|
  {
    if a == [] {
      assert a + b == b;
    } else if valid(a[0].loc) {
      var x, tail := a[0], a[1..];
      assert a == [x] + tail;
      assert a + b == [x] + (tail + b);
      ValidPrefixAppend(tail, b, valid);
      assert ValidPrefix(a, valid) == [x] + ValidPrefix(tail, valid);
      assert ValidPrefix(a + b, valid) == [x] + ValidPrefix(tail + b, valid);
      if ValidPrefix(tail, valid) == tail {
        assert [x] + (tail + ValidPrefix(b, valid)) == a + ValidPrefix(b, valid);
      } else {
        assert ValidPrefix(a, valid) != a by {
          assert ([x] + ValidPrefix(tail, valid))[1..] == ValidPrefix(tail, valid);
        }
      }
    } else {
      assert (a + b)[0] == a[0];
    }
  }

  lemma FirstFailureAppend(a: seq<Url>, b: seq<Url>, valid: string -> bool)
    ensures FirstFailure(a + b, valid) ==
      if ValidPrefix(a, valid) == a then FirstFailure(b, valid) else FirstFailure(a, valid)
  {
    ValidPrefixAppend(a, b, valid);
    var pa := ValidPrefix(a, valid);
    if pa == a {
      var pb := ValidPrefix(b, valid);
      if |pb| < |b| {
        assert (a + b)[|a| + |pb|] == b[|pb|];
      }
    } else {
      assert |pa| < |a|;
      assert (a + b)[|pa|] == a[|pa|];
    }
  }

  /** The walk stops at an item whose own location is refused: everything
      before it reached the generator, nothing after it did. */
  lemma StopAtItem(done: seq<Url>, u: Url, rest: seq<Url>, valid: string -> bool)
    requires ValidPrefix(done, valid) == done
    requires !valid(u.loc)
    ensures ValidPrefix(done + [u] + rest, valid) == done
    ensures FirstFailure(done + [u] + rest, valid) == MalformedUrl(u.loc)
  {
    assert done + [u] + rest == done + ([u] + rest);
    ValidPrefixAppend(done, [u] + rest, valid);
    FirstFailureAppend(done, [u] + rest, valid);
  }

  /** The walk stops inside a subtree: the records before the subtree and
      the subtree's own well-formed prefix reached the generator. */
  lemma StopInSubtree(done: seq<Url>, sub: seq<Url>, rest: seq<Url>, valid: string -> bool)
    requires ValidPrefix(done, valid) == done
    requires ValidPrefix(sub, valid) != sub
    ensures ValidPrefix(done + sub + rest, valid) == done + ValidPrefix(sub, valid)
    ensures FirstFailure(done + sub + rest, valid) == FirstFailure(sub, valid)
  {
    assert done + sub + rest == done + (sub + rest);
    ValidPrefixAppend(done, sub + rest, valid);
    ValidPrefixAppend(sub, rest, valid);
    FirstFailureAppend(done, sub + rest, valid);
    FirstFailureAppend(sub, rest, valid);
  }

  /** Records that were all accepted, followed by more that were all
      accepted, were all accepted. */
  lemma AllAccepted(done: seq<Url>, more: seq<Url>, valid: string -> bool)
    requires ValidPrefix(done, valid) == done
    requires ValidPrefix(more, valid) == more
    ensures ValidPrefix(done + more, valid) == done + more
  {
    ValidPrefixAppend(done, more, valid);
  }

  lemma AppendAssoc(a: seq<Url>, b: seq<Url>, c: seq<Url>)
    ensures a + b + c == a + (b + c)
  {
  }

  /** The sitemap generator as the walk sees it: a sink collecting records
      in the order they are added. Writing the XML files is left to it. */
  class SitemapGenerator {
    var urls: seq<Url>

    constructor ()
      ensures urls == []
    {
      urls := [];
    }

    method AddUrl(url: Url)
      modifies this
      ensures urls == old(urls) + [url]
    {
      urls := urls + [url];
    }
  }

  class Sitemap {
    var encoding: string
    var i18n: I18n

    constructor (encoding: string, i18n: I18n)
      ensures this.encoding == encoding && this.i18n == i18n
    {
      this.encoding := encoding;
      this.i18n := i18n;
    }

    function GetEncoding(): string
      reads this
    {
      encoding
    }

    function GetI18n(): I18n
      reads this
    {
      i18n
    }

    method SetEncoding(enc: string)
      modifies this
      ensures GetEncoding() == enc && GetI18n() == old(GetI18n())
    {
      encoding := enc;
    }

    method SetI18n(i18n: I18n)
      modifies this
      ensures GetI18n() == i18n && GetEncoding() == old(GetEncoding())
    {
      this.i18n := i18n;
    }

    /** Hands the records of a forest of menu items to the generator, item
        by item in pre-order, and stops at the first location the URL
        parser refuses. */
    static method ExtractItems(projectUrl: string, items: seq<MenuItem>, generator: SitemapGenerator,
                               changeFreq: ChangeFreq, now: Timestamp, valid: string -> bool)
      returns (outcome: Outcome)
      modifies generator
      ensures generator.urls == old(generator.urls) + ValidPrefix(Entries(projectUrl, items, now, changeFreq), valid)
      ensures outcome == FirstFailure(Entries(projectUrl, items, now, changeFreq), valid)
      decreases items
    {
      if items == [] {
        return Completed;
      }
      for i := 0 to |items|
        invariant generator.urls == old(generator.urls) + Entries(projectUrl, items[..i], now, changeFreq)
        invariant ValidPrefix(Entries(projectUrl, items[..i], now, changeFreq), valid) == Entries(projectUrl, items[..i], now, changeFreq)
      {
        var item := items[i];
        var spec := projectUrl + RelativePath(item.href);
        if !valid(spec) {
          ItemRefused(projectUrl, items, i, now, changeFreq, valid);
          return MalformedUrl(spec);
        }
        ghost var done := Entries(projectUrl, items[..i], now, changeFreq) + [Url(spec, now, changeFreq)];
        ghost var sub := Entries(projectUrl, item.items, now, changeFreq);
        generator.AddUrl(Url(spec, now, changeFreq));
        AppendAssoc(old(generator.urls), Entries(projectUrl, items[..i], now, changeFreq), [Url(spec, now, changeFreq)]);
        outcome := ExtractItems(projectUrl, item.items, generator, changeFreq, now, valid);
        if outcome != Completed {
          SubtreeStopped(projectUrl, items, i, now, changeFreq, valid);
          AppendAssoc(old(generator.urls), done, ValidPrefix(sub, valid));
          return;
        }
        SubtreeCompleted(projectUrl, items, i, now, changeFreq, valid);
        AppendAssoc(old(generator.urls), done, sub);
      }
      assert items[..|items|] == items;
      return Completed;
    }

    /** Hands the records of every menu of the model to the generator, menu
        after menu, stopping at the first refused location. */
    method Extract(projectUrl: string, decoration: DecorationModel, generator: SitemapGenerator,
                   changeFreq: ChangeFreq, now: Timestamp, valid: string -> bool)
      returns (outcome: Outcome)
      modifies generator
      ensures generator.urls == old(generator.urls) + ValidPrefix(ModelEntries(projectUrl, decoration, now, changeFreq), valid)
      ensures outcome == FirstFailure(ModelEntries(projectUrl, decoration, now, changeFreq), valid)
    {
      var menus := decoration.menus;
      for j := 0 to |menus|
        invariant generator.urls == old(generator.urls) + ModelEntries(projectUrl, DecorationModel(menus[..j]), now, changeFreq)
        invariant ValidPrefix(ModelEntries(projectUrl, DecorationModel(menus[..j]), now, changeFreq), valid)
               == ModelEntries(projectUrl, DecorationModel(menus[..j]), now, changeFreq)
      {
        ghost var done := ModelEntries(projectUrl, DecorationModel(menus[..j]), now, changeFreq);
        ghost var sub := Entries(projectUrl, menus[j].items, now, changeFreq);
        outcome := ExtractItems(projectUrl, menus[j].items, generator, changeFreq, now, valid);
        if outcome != Completed {
          MenuStopped(projectUrl, menus, j, now, changeFreq, valid);
          AppendAssoc(old(generator.urls), done, ValidPrefix(sub, valid));
          return;
        }
        MenuCompleted(projectUrl, menus, j, now, changeFreq, valid);
        AppendAssoc(old(generator.urls), done, sub);
      }
      assert menus[..|menus|] == menus;
      return Completed;
    }

    /** Checks that model, generator and change frequency are all present,
        in that order, before anything reaches the generator; then extracts. */
    method Generate(projectUrl: string, model: Option<DecorationModel>, generator: SitemapGenerator?,
                    changeFreq: Option<ChangeFreq>, now: Timestamp, valid: string -> bool)
      returns (outcome: Outcome)
      modifies generator
      ensures model.None? ==> outcome == IllegalArgument(ModelNullMessage)
      ensures model.Some? && generator == null ==> outcome == IllegalArgument(GeneratorNullMessage)
      ensures model.Some? && generator != null && changeFreq.None? ==> outcome == IllegalArgument(ChangeFreqNullMessage)
      ensures outcome.IllegalArgument? && generator != null ==> generator.urls == old(generator.urls)
      ensures model.Some? && generator != null && changeFreq.Some? ==>
        generator.urls == old(generator.urls) + ValidPrefix(ModelEntries(projectUrl, model.value, now, changeFreq.value), valid) &&
        outcome == FirstFailure(ModelEntries(projectUrl, model.value, now, changeFreq.value), valid)
    {
      if model.None? {
        return IllegalArgument(ModelNullMessage);
      }
      if generator == null {
        return IllegalArgument(GeneratorNullMessage);
      }
      if changeFreq.None? {
        return IllegalArgument(ChangeFreqNullMessage);
      }
      outcome := Extract(projectUrl, model.value, generator, changeFreq.value, now, valid);
    }
  }

  /** The records of a forest around its i-th top-level item. */
  lemma EntriesAround(projectUrl: string, items: seq<MenuItem>, i: nat, now: Timestamp, changeFreq: ChangeFreq)
    requires i < |items|
    ensures Entries(projectUrl, items, now, changeFreq) ==
      Entries(projectUrl, items[..i], now, changeFreq) + [ToUrl(projectUrl, items[i], now, changeFreq)]
      + Entries(projectUrl, items[i].items, now, changeFreq) + Entries(projectUrl, items[i + 1..], now, changeFreq)
  {
    FlattenAround(items, i);
    var a, b, c := Flatten(items[..i]), Flatten(items[i].items), Flatten(items[i + 1..]);
    ToUrlsAppend(projectUrl, a + [items[i]] + b, c, now, changeFreq);
    ToUrlsAppend(projectUrl, a + [items[i]], b, now, changeFreq);
    ToUrlsAppend(projectUrl, a, [items[i]], now, changeFreq);
  }

  /** The records of the first i + 1 top-level items of a forest. */
  lemma EntriesPrefix(projectUrl: string, items: seq<MenuItem>, i: nat, now: Timestamp, changeFreq: ChangeFreq)
    requires i < |items|
    ensures Entries(projectUrl, items[..i + 1], now, changeFreq) ==
      Entries(projectUrl, items[..i], now, changeFreq) + [ToUrl(projectUrl, items[i], now, changeFreq)]
      + Entries(projectUrl, items[i].items, now, changeFreq)
  {
    FlattenPrefix(items, i);
    var a, b := Flatten(items[..i]), Flatten(items[i].items);
    ToUrlsAppend(projectUrl, a + [items[i]], b, now, changeFreq);
    ToUrlsAppend(projectUrl, a, [items[i]], now, changeFreq);
  }

  /** The records of a model around its j-th menu. */
  lemma ModelEntriesAround(projectUrl: string, menus: seq<Menu>, j: nat, now: Timestamp, changeFreq: ChangeFreq)
    requires j < |menus|
    ensures ModelEntries(projectUrl, DecorationModel(menus), now, changeFreq) ==
      ModelEntries(projectUrl, DecorationModel(menus[..j]), now, changeFreq) + Entries(projectUrl, menus[j].items, now, changeFreq)
      + ModelEntries(projectUrl, DecorationModel(menus[j + 1..]), now, changeFreq)
    ensures ModelEntries(projectUrl, DecorationModel(menus[..j + 1]), now, changeFreq) ==
      ModelEntries(projectUrl, DecorationModel(menus[..j]), now, changeFreq) + Entries(projectUrl, menus[j].items, now, changeFreq)
  {
    var front, back := menus[..j], menus[j + 1..];
    assert menus[..j + 1] == front + [menus[j]];
    MenuItemsAppend(front, [menus[j]]);
    assert MenuItems([menus[j]]) == menus[j].items by {
      assert [menus[j]][1..] == [];
    }
    FlattenAppend(MenuItems(front), menus[j].items);
    ToUrlsAppend(projectUrl, Flatten(MenuItems(front)), Flatten(menus[j].items), now, changeFreq);
    MenuItemsAppend(front + [menus[j]], back);
    assert front + [menus[j]] + back == menus;
    FlattenAppend(MenuItems(front) + menus[j].items, MenuItems(back));
    ToUrlsAppend(projectUrl, Flatten(MenuItems(front) + menus[j].items), Flatten(MenuItems(back)), now, changeFreq);
  }

  /** The walk meets an item whose own location is refused after every
      earlier record was accepted: the earlier records are all that reached
      the generator, and the run ends on that item's location. */
  lemma ItemRefused(projectUrl: string, items: seq<MenuItem>, i: nat, now: Timestamp, changeFreq: ChangeFreq, valid: string -> bool)
    requires i < |items|
    requires ValidPrefix(Entries(projectUrl, items[..i], now, changeFreq), valid) == Entries(projectUrl, items[..i], now, changeFreq)
    requires !valid(ToUrl(projectUrl, items[i], now, changeFreq).loc)
    ensures ValidPrefix(Entries(projectUrl, items, now, changeFreq), valid) == Entries(projectUrl, items[..i], now, changeFreq)
    ensures FirstFailure(Entries(projectUrl, items, now, changeFreq), valid) == MalformedUrl(ToUrl(projectUrl, items[i], now, changeFreq).loc)
  {
    var done := Entries(projectUrl, items[..i], now, changeFreq);
    var u := ToUrl(projectUrl, items[i], now, changeFreq);
    var sub := Entries(projectUrl, items[i].items, now, changeFreq);
    var rest := Entries(projectUrl, items[i + 1..], now, changeFreq);
    EntriesAround(projectUrl, items, i, now, changeFreq);
    assert done + [u] + sub + rest == done + [u] + (sub + rest);
    StopAtItem(done, u, sub + rest, valid);
  }

  /** The walk accepts an item's own location and then every location of
      its subtree: the records so far grow by the item's record and its
      subtree's, all of them accepted. */
  lemma SubtreeCompleted(projectUrl: string, items: seq<MenuItem>, i: nat, now: Timestamp, changeFreq: ChangeFreq, valid: string -> bool)
    requires i < |items|
    requires ValidPrefix(Entries(projectUrl, items[..i], now, changeFreq), valid) == Entries(projectUrl, items[..i], now, changeFreq)
    requires valid(ToUrl(projectUrl, items[i], now, changeFreq).loc)
    requires ValidPrefix(Entries(projectUrl, items[i].items, now, changeFreq), valid) == Entries(projectUrl, items[i].items, now, changeFreq)
    ensures Entries(projectUrl, items[..i + 1], now, changeFreq) ==
      Entries(projectUrl, items[..i], now, changeFreq) + [ToUrl(projectUrl, items[i], now, changeFreq)] + Entries(projectUrl, items[i].items, now, changeFreq)
    ensures ValidPrefix(Entries(projectUrl, items[..i + 1], now, changeFreq), valid) == Entries(projectUrl, items[..i + 1], now, changeFreq)
  {
    var u := ToUrl(projectUrl, items[i], now, changeFreq);
    var done := Entries(projectUrl, items[..i], now, changeFreq);
    var sub := Entries(projectUrl, items[i].items, now, changeFreq);
    assert ValidPrefix([u], valid) == [u] by {
      assert [u][1..] == [];
    }
    AllAccepted(done, [u], valid);
    EntriesPrefix(projectUrl, items, i, now, changeFreq);
    AllAccepted(done + [u], sub, valid);
  }

  /** The walk accepts an item's own location and then stops inside its
      subtree: the whole walk stops there too, at the same location. */
  lemma SubtreeStopped(projectUrl: string, items: seq<MenuItem>, i: nat, now: Timestamp, changeFreq: ChangeFreq, valid: string -> bool)
    requires i < |items|
    requires ValidPrefix(Entries(projectUrl, items[..i], now, changeFreq), valid) == Entries(projectUrl, items[..i], now, changeFreq)
    requires valid(ToUrl(projectUrl, items[i], now, changeFreq).loc)
    requires ValidPrefix(Entries(projectUrl, items[i].items, now, changeFreq), valid) != Entries(projectUrl, items[i].items, now, changeFreq)
    ensures ValidPrefix(Entries(projectUrl, items, now, changeFreq), valid) ==
      Entries(projectUrl, items[..i], now, changeFreq) + [ToUrl(projectUrl, items[i], now, changeFreq)]
      + ValidPrefix(Entries(projectUrl, items[i].items, now, changeFreq), valid)
    ensures FirstFailure(Entries(projectUrl, items, now, changeFreq), valid) == FirstFailure(Entries(projectUrl, items[i].items, now, changeFreq), valid)
  {
    var u := ToUrl(projectUrl, items[i], now, changeFreq);
    var done := Entries(projectUrl, items[..i], now, changeFreq);
    var sub := Entries(projectUrl, items[i].items, now, changeFreq);
    var rest := Entries(projectUrl, items[i + 1..], now, changeFreq);
    assert ValidPrefix([u], valid) == [u] by {
      assert [u][1..] == [];
    }
    AllAccepted(done, [u], valid);
    EntriesAround(projectUrl, items, i, now, changeFreq);
    StopInSubtree(done + [u], sub, rest, valid);
  }

  /** Every record of the j-th menu is accepted after every earlier menu's
      were. */
  lemma MenuCompleted(projectUrl: string, menus: seq<Menu>, j: nat, now: Timestamp, changeFreq: ChangeFreq, valid: string -> bool)
    requires j < |menus|
    requires ValidPrefix(ModelEntries(projectUrl, DecorationModel(menus[..j]), now, changeFreq), valid)
          == ModelEntries(projectUrl, DecorationModel(menus[..j]), now, changeFreq)
    requires ValidPrefix(Entries(projectUrl, menus[j].items, now, changeFreq), valid) == Entries(projectUrl, menus[j].items, now, changeFreq)
    ensures ModelEntries(projectUrl, DecorationModel(menus[..j + 1]), now, changeFreq) ==
      ModelEntries(projectUrl, DecorationModel(menus[..j]), now, changeFreq) + Entries(projectUrl, menus[j].items, now, changeFreq)
    ensures ValidPrefix(ModelEntries(projectUrl, DecorationModel(menus[..j + 1]), now, changeFreq), valid)
          == ModelEntries(projectUrl, DecorationModel(menus[..j + 1]), now, changeFreq)
  {
    ModelEntriesAround(projectUrl, menus, j, now, changeFreq);
    AllAccepted(ModelEntries(projectUrl, DecorationModel(menus[..j]), now, changeFreq), Entries(projectUrl, menus[j].items, now, changeFreq), valid);
  }

  /** The walk stops inside the j-th menu: the whole walk stops there too. */
  lemma MenuStopped(projectUrl: string, menus: seq<Menu>, j: nat, now: Timestamp, changeFreq: ChangeFreq, valid: string -> bool)
    requires j < |menus|
    requires ValidPrefix(ModelEntries(projectUrl, DecorationModel(menus[..j]), now, changeFreq), valid)
          == ModelEntries(projectUrl, DecorationModel(menus[..j]), now, changeFreq)
    requires ValidPrefix(Entries(projectUrl, menus[j].items, now, changeFreq), valid) != Entries(projectUrl, menus[j].items, now, changeFreq)
    ensures ValidPrefix(ModelEntries(projectUrl, DecorationModel(menus), now, changeFreq), valid) ==
      ModelEntries(projectUrl, DecorationModel(menus[..j]), now, changeFreq) + ValidPrefix(Entries(projectUrl, menus[j].items, now, changeFreq), valid)
    ensures FirstFailure(ModelEntries(projectUrl, DecorationModel(menus), now, changeFreq), valid)
          == FirstFailure(Entries(projectUrl, menus[j].items, now, changeFreq), valid)
  {
    ModelEntriesAround(projectUrl, menus, j, now, changeFreq);
    StopInSubtree(ModelEntries(projectUrl, DecorationModel(menus[..j]), now, changeFreq), Entries(projectUrl, menus[j].items, now, changeFreq),
                  ModelEntries(projectUrl, DecorationModel(menus[j + 1..]), now, changeFreq), valid);
  }
}
