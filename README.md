# Sitemap plugin: menu-tree-to-sitemap extraction

This project models the core of a Maven site plugin that writes a sitemap
following the Sitemaps protocol 0.9 (sitemaps.org). The plugin walks the
menus of a site's decoration model. Each menu item becomes one URL record
with `<loc>`, `<lastmod>` and `<changefreq>`, and each record goes to a
sitemap generator through `addUrl`. The modelled class is `Sitemap`:

- `relativePath` turns a site-root href `/x` into `./x` and leaves every other href as it is.
- `extractItems` walks a list of menu items depth-first in pre-order. It builds each location as `projectUrl + relativePath(href)` and stamps it with the last-modified instant and the run's single change frequency. It hands the record to the generator and then walks the item's sub-items.
- `extract` does this for every menu of the decoration model, in model order.
- `generate` rejects a missing model, generator or change frequency in that order, with the same messages as the source. Only then does it extract.
- The `encoding` and `i18n` fields are set by the constructor and by their setters.

Files:

- `menu.dfy` (module `Menus`) holds the menu tree. It defines `Flatten`, the pre-order list of a forest's items, and proves its properties.
- `sitemap.dfy` (module `SitemapPlugin`) holds the rest:
  - `RelativePath`;
  - the record datatype `Url`;
  - `Entries` / `ModelEntries`, the records a forest or a model yields;
  - `ValidPrefix` / `FirstFailure`, how far a run gets when a location is refused;
  - the generator sink `SitemapGenerator`;
  - the `Sitemap` class with `ExtractItems`, `Extract` and `Generate`.

The methods keep the source's imperative shape. A `for` loop runs over the items, with a recursive call for the sub-items. The generator is an object whose `urls` sequence `AddUrl` appends to. Each method's postcondition ties the generator's new contents to the specification functions. The lemmas prove the specification functions' properties.

Three things from the environment are parameters:

- `now: Timestamp` stands for `new Date()`.
- `valid: string -> bool` stands for the URL parser inside the library's `Options` constructor. A location it refuses is the `MalformedURLException` case. The walk stops there and returns `MalformedUrl(spec)`. Records handed over before that point stay with the generator, as in the source.
- Java's `null` is `Option.None` for the model and the change frequency, and a null reference (`SitemapGenerator?`) for the generator.

A null item list is represented by the empty sequence. Lines 40-42 of `Sitemap.java` handle both the same way.

Two behaviours of the code that a reader might expect otherwise are modelled as the code has them:

- The code has no href filter. An item with an empty href still gets a record, `projectUrl + ""`. So the number of records is the number of items (`Menus.FlattenLength`, `SitemapPlugin.EntriesShape`), not the number of items with a non-empty href.
- The project URL and the href are joined by plain string concatenation; no `/` is inserted. With project URL `https://example.org/`, the items `/docs` and its child `team.html` give `https://example.org/./docs` and `https://example.org/team.html` (`SitemapPlugin.ChildNotNested`). With `https://example.org` (no trailing slash) they would give `https://example.org./docs` and `https://example.orgteam.html`.

## Model

| member | source | states |
|---|---|---|
| `SitemapPlugin.RelativePath` | src/main/java/net/sf/sitemapplugin/Sitemap.java:53-55 | the normalised href never starts with `/` |
| `SitemapPlugin.RelativePathShape` | src/main/java/net/sf/sitemapplugin/Sitemap.java:54 | the result ends with the whole href and is at most one character longer; it differs from the href exactly when the href starts with `/`, and then it starts with `.` |
| `SitemapPlugin.RelativePathIdempotent` | src/main/java/net/sf/sitemapplugin/Sitemap.java:54 | normalising twice equals normalising once (`./x` is not prefixed again) |
| `SitemapPlugin.RelativePathMerges` | src/main/java/net/sf/sitemapplugin/Sitemap.java:54 | `/p` and `./p` give the same location |
| `SitemapPlugin.ToUrls` | src/main/java/net/sf/sitemapplugin/Sitemap.java:44-48 | one record per listed item |
| `SitemapPlugin.ToUrlsAt` | src/main/java/net/sf/sitemapplugin/Sitemap.java:45-47 | the k-th record's location is the project URL followed by the normalised href of the k-th item; it carries the run's instant and change frequency |
| `Menus.FlattenAppend` | src/main/java/net/sf/sitemapplugin/Sitemap.java:44 | flattening distributes over concatenation: siblings keep list order |
| `Menus.FlattenAround` | src/main/java/net/sf/sitemapplugin/Sitemap.java:44-50 | pre-order: around the i-th item, the output is the items before it, then the item, then its whole subtree, then the items after it |
| `Menus.FlattenLength` | src/main/java/net/sf/sitemapplugin/Sitemap.java:44-50 | the flattening has exactly as many entries as the forest has nodes |
| `Menus.FlattenMembers` | src/main/java/net/sf/sitemapplugin/Sitemap.java:44-50 | an item is in the flattening if and only if it is a node of the forest at some depth (no filter, nothing added) |
| `Menus.FlattenMenus` | src/main/java/net/sf/sitemapplugin/Sitemap.java:76-78 | flattening the merged top-level items of all menus is flattening the first menu, then the rest |
| `Menus.MenuItemsAppend` | src/main/java/net/sf/sitemapplugin/Sitemap.java:76-78 | the top-level items of consecutive groups of menus are consecutive |
| `SitemapPlugin.EntriesShape` | src/main/java/net/sf/sitemapplugin/Sitemap.java:40-50 | a forest yields exactly `NodeCount` records, and the k-th record is built from the k-th item in pre-order |
| `SitemapPlugin.EntriesCover` | src/main/java/net/sf/sitemapplugin/Sitemap.java:44-49 | every node of the forest, at any depth, has its record among the forest's records |
| `SitemapPlugin.ChildNotNested` | src/main/java/net/sf/sitemapplugin/Sitemap.java:45 | a child's location is built from the project URL and its own href only, not nested under its parent's href |
| `SitemapPlugin.ModelEntriesConcat` | src/main/java/net/sf/sitemapplugin/Sitemap.java:74-79 | a model's records are each menu's records, menu after menu in model order; no menus gives no records |
| `SitemapPlugin.ValidPrefixSpec` | src/main/java/net/sf/sitemapplugin/Sitemap.java:45-48 | what reaches the generator is a prefix of the records, all of them well-formed, cut only at a refused location |
| `SitemapPlugin.ValidPrefix` | src/main/java/net/sf/sitemapplugin/Sitemap.java:45-48 | the records handed over are never more than the records there are |
| `SitemapPlugin.FirstFailure` | src/main/java/net/sf/sitemapplugin/Sitemap.java:38-50 | the run completes if and only if every record was handed over; otherwise it fails with a malformed URL whose location the parser refuses, never with an argument error |
| `SitemapPlugin.ValidPrefixAppend` | src/main/java/net/sf/sitemapplugin/Sitemap.java:44-50 | a run over two consecutive groups of records is a run over the first, followed by a run over the second only if the first completed |
| `SitemapPlugin.FirstFailureAppend` | src/main/java/net/sf/sitemapplugin/Sitemap.java:44-50 | the outcome of a run over two groups is the first group's failure if it failed, otherwise the second group's outcome |
| `SitemapPlugin.ItemRefused` | src/main/java/net/sf/sitemapplugin/Sitemap.java:45-48 | when an item's own location is refused, only the records before it were handed over, and the run fails on that location |
| `SitemapPlugin.SubtreeStopped` | src/main/java/net/sf/sitemapplugin/Sitemap.java:48-49 | a failure inside an item's subtree ends the whole walk there with the same outcome |
| `SitemapPlugin.MenuStopped` | src/main/java/net/sf/sitemapplugin/Sitemap.java:76-78 | a failure inside one menu ends the walk over the model; later menus are not visited |
| `SitemapPlugin.SitemapGenerator.AddUrl` | src/main/java/net/sf/sitemapplugin/Sitemap.java:48 | the generator's records grow by exactly the record added, at the end |
| `SitemapPlugin.Sitemap.ExtractItems` | src/main/java/net/sf/sitemapplugin/Sitemap.java:38-51 | the generator's records become the old ones followed by the well-formed prefix of the forest's pre-order records; the outcome is `FirstFailure` of those records |
| `SitemapPlugin.Sitemap.Extract` | src/main/java/net/sf/sitemapplugin/Sitemap.java:74-79 | the same for all menus of the model, in order |
| `SitemapPlugin.Sitemap.Generate` | src/main/java/net/sf/sitemapplugin/Sitemap.java:93-106 | a missing model, generator or change frequency fails with the source's message for the first missing one, checked in that order, and the generator is unchanged; otherwise it behaves as `Extract` |
| `SitemapPlugin.Sitemap.constructor` | src/main/java/net/sf/sitemapplugin/Sitemap.java:69-72 | the new object carries the given encoding and i18n |
| `SitemapPlugin.Sitemap.SetEncoding` | src/main/java/net/sf/sitemapplugin/Sitemap.java:113-134 | after setting, the encoding getter returns the new value and i18n is unchanged |
| `SitemapPlugin.Sitemap.SetI18n` | src/main/java/net/sf/sitemapplugin/Sitemap.java:122-144 | after setting, the i18n getter returns the new value and the encoding is unchanged |

## Left out

- `new Date()` is read once per item in the source (line 46). The model stamps every record of a run with the single instant `now`. Wall-clock time is not part of the model.
- URL parsing in the library's `Options` constructor (line 45) is the parameter `valid`. Which strings are well-formed URLs is not modelled.
- The library generator's own behaviour is not modelled. `SitemapGenerator` only collects records. This leaves out its base-URL check in `addUrl`, `write()`, date formatting, XML serialisation, splitting into several files and the sitemap index.
- A null href would throw `NullPointerException` at line 54. Hrefs are non-null strings here.
- A null `project` or `decoration.getMenus()`, and a null `project.getUrl()`, are not modelled. Java would throw for the first two and concatenate the text `null` for the third. The project URL is a string parameter.
- Java exceptions are outcome values. `IllegalArgument(message)` stands for `IllegalArgumentException` and `MalformedUrl(spec)` for `MalformedURLException`.
- `I18n` is an opaque type. Extraction never reads it or `encoding`.
- Cyclic menu graphs and recursion deep enough to overflow the stack are not modelled. Menu items are finite datatype values, so every tree is finite and acyclic.
- `SitemapMojo.java` is not part of this model. It covers the skip flag, locale resolution and the global default locale, creating the output directory, parsing the change frequency with `ChangeFreq.valueOf`, and building and writing the generator. All of it is build-tool orchestration and file I/O.
- `AbstractSiteRenderingMojo.java` and `AbstractSiteMojo.java` are not part of this model. They resolve the decoration model, the skin and the templates through the site tools, and default the encodings.
- The test sources only look up the plugin and read a POM. They make no statement about sitemap contents.
