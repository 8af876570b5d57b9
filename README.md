# mdblog in Dafny

mdblog is a Markdown blog. Its articles live on disk as
`<articles>/<category>/<slug>.md`. At start-up, `updateDb` (db.js) brings
the Riak bucket `blog` in line with the files. Every article is stored under
the key `category_slug_mtime`:

- malformed keys are purged;
- duplicate versions of one article are collapsed;
- keys whose version no longer matches the file are removed;
- every file the bucket lacks is loaded, rendered and saved.

The request handlers in routes.js answer from the bucket:

- the per-category counts, memoised;
- the articles of a month, newest first;
- the articles of one category;
- a single article.

The older reader in model.js reads articles straight from disk through a
cache. app.js routes requests to the handlers and redirects paths without
a trailing slash.

The model has one module per concern:

- `Text`: JavaScript's `split`, `join`, `parseInt`, number rendering and `trim`.
- `KeyCodec`: the `category_slug_mtime` key, and the validity test the sanitising filter applies to it.
- `Reconciler`: the four stages of `updateDb` as pure functions of the filesystem inventory and the bucket's key listing. These are the inventory merge, the sanitising filter, the de-duplicating reduce, and the stale and missing tests. It also holds the convergence results.
- `Scanner`: the directory and `.md` filters that build the inventory, over directory listings and stats that may each be an error.
- `ArticleText`: the title pattern, the excerpt search and the two HTML rewrites. Markdown rendering (`marked`) is a function parameter.
- `Store`: the bucket as a class whose `docs` map the operations update in place. `UpdateDb` runs the stages with loops that remove and load keys, and is proved equal to the reconciler's plan.
- `Reader`: `readArticle` and its cache, as a class.
- `DateUtc`, `Routes`: `Date.UTC` after ECMAScript 5.1 section 15.9, and the route handlers. The store's map/reduce answers are inputs.
- `App`: the URL prefix mount, `appendSlashRedirect` and the route table.

The doc comment of `updateDb` (db.js:16) promises that outdated articles
are updated. The code does not keep that promise in one run:

- A stored key whose version differs from the file is removed in a run.
- The file is not loaded again in the same run, because the reduced store map still holds the identity.

The model follows the code. `Reconciler.NoReinsertOnMismatch` states the
gap, and `Reconciler.Converges` proves that, from a store whose valid keys
are canonical, a second run reaches the target. Without that condition the
code need not converge: `Reconciler.NonCanonicalStalePersists` shows a
stale key with extra parts that no run removes.
`Reconciler.ReconcileIntended` also loads the stale identities again, and
`Reconciler.ConvergesIntended` proves that it reaches the target in one run
(see "## Findings").
The tie between two keys of equal version is resolved as the code resolves
it: the key rebuilt from the later entry is removed.

## Model

| member | source | states |
|---|---|---|
| Text.SplitJoin | db.js:60-62 | Splitting the join of separator-free parts on `_` gives those parts back |
| Text.JoinSplit | db.js:60-62 | Joining the pieces of a split restores the string |
| Text.ParseIntToString | db.js:72-74 | `parseInt` reads back the version that `'' + mtime` writes into a key |
| Text.TrimSlice | db.js:199 | The trimmed excerpt is the source text with only its leading and trailing white space (ECMAScript 5.1 white space and line terminators) cut off |
| KeyCodec.DecodeEncode | db.js:59-75 | A key encoded from a category and slug without `_` passes the filter and decodes to its three components |
| KeyCodec.DecodePrefix | db.js:59-67 | A key passes only with non-empty category and slug free of `_`, and it starts with their identity and a separator |
| KeyCodec.DecodeIgnoresExtraParts | db.js:60-63 | A valid key with extra `_` parts decodes like the key without them, and it is not canonical |
| KeyCodec.DecodeIgnoresLeadingZeros | db.js:63 | A zero-padded version passes the filter, and the rebuilt key drops the padding |
| KeyCodec.DecodeRejects | db.js:64-66 | A zero version, a missing version and a version without leading digits fail the `!mtime` test |
| KeyCodec.DecodeRebuilt | db.js:83 | A key rebuilt from a two-part identity and a version decodes back to both |
| KeyCodec.RebuiltInjective | db.js:83 | Rebuilt keys of different identities or versions differ |
| Reconciler.ExtendKeys | db.js:56 | The merged inventory holds exactly the names of the scanned entries |
| Reconciler.ExtendLast | db.js:56 | The last entry carrying a name decides its version in the merged inventory |
| Reconciler.SurvivorsMembers | db.js:59-75 | The survivors of the sanitising filter are exactly the decodings of the keys that decode |
| Reconciler.CollapseCovers | db.js:76-91 | Every identity seen is kept, at a version no older than any of its entries |
| Reconciler.CollapseWitness | db.js:76-91 | Every kept identity has a first newest entry whose version it holds |
| Reconciler.FirstMaxIsLatest | db.js:79-88 | A first newest entry holds the version that the reduce keeps |
| Reconciler.CollapseDups | db.js:76-91 | The reduce removes exactly the rebuilt keys of the entries that are not the first newest of their identity: older versions, and on a tie the later ones |
| Reconciler.CollapseEmpty | db.js:76-91 | The reduced map is empty exactly when no key survived the filter |
| Reconciler.ReconcileOutcome | db.js:56-97 | A run fails exactly when the filesystem gives no entry while some key survives, and every malformed key is removed in either case |
| Reconciler.StaleIff | db.js:94-97 | A kept store entry is removed exactly when the filesystem lacks its identity or holds another version |
| Reconciler.InsertsIff | db.js:100-103 | A load starts exactly for the filesystem identities the reduced map lacks |
| Reconciler.NoReinsertOnMismatch | db.js:94-103 | An identity whose stored version differs is removed and not loaded in the same run |
| Reconciler.MatchingRun | db.js:59-103 | A store of distinct canonical keys at the filesystem versions loses nothing, and it loads exactly the identities it lacks |
| Reconciler.Idempotent | db.js:59-103 | A store holding one key per identity at the filesystem version is left unchanged |
| Reconciler.FirstRunWithinTarget | db.js:56-103 | After one run, a store whose valid keys are canonical holds only keys that the inventory asks for |
| Reconciler.TargetKey | db.js:100-102 | A key the inventory asks for decodes to its identity at the filesystem version |
| Reconciler.SecondRunReachesTarget | db.js:56-103 | A second run on distinct keys the inventory asks for removes nothing, and it loads the rest |
| Reconciler.Converges | db.js:56-103 | From a store whose valid keys are canonical, two runs on a well-formed inventory leave exactly one key per identity, at its filesystem version |
| Reconciler.StaleNotReloaded | db.js:94-103 | One run from a canonical key at another version than the file leaves the store empty, while the inventory asks for the file's key |
| Reconciler.InsertsIntendedIff | db.js:16 | With the intended load set, a load starts exactly for the identities the store lacks or holds at another version |
| Reconciler.SurvivorsUnique | db.js:59-75 | With distinct store keys, valid keys canonical, no two survivors of the filter are equal |
| Reconciler.MatchingKeyKept | db.js:76-97 | With distinct store keys, an identity whose newest stored version matches the file keeps its canonical key through the run |
| Reconciler.ConvergesIntended | db.js:16 | With stale identities loaded again, one run from a store of distinct keys whose valid keys are canonical, on a well-formed inventory, leaves exactly one key per identity, at its filesystem version |
| Reconciler.CollapseTie | db.js:86-88 | Of two entries with equal identity and version, the second one's rebuilt key is removed |
| Reconciler.TieRemovesCanonical | db.js:82-88 | When a zero-padded twin comes first, the canonical key is removed and the padded key is kept |
| Reconciler.NonCanonicalStalePersists | db.js:94-97 | A stale valid key with extra parts is never removed, because the rebuilt key that is removed differs from it |
| Reconciler.ThreePartKeyPurged | db.js:64-66 | A key rebuilt from a name whose third `_` part starts with neither a sign nor a digit fails the filter |
| Reconciler.ThreePartNameChurns | db.js:100-103 | A file name with a non-numeric `_` part is purged and loaded again on every run |
| Scanner.DirectoriesMembers | db.js:129-131 | The categories are exactly the entries whose stat says directory |
| Scanner.ExtNameMarkdown | db.js:158 | `path.extname` is `.md` exactly for names of four or more characters ending in `.md` |
| Scanner.MarkdownFilesMembers | db.js:157-158 | The entries kept are exactly the regular `.md` files of the listing |
| Scanner.SlugOf | db.js:161 | A markdown file's slug is non-empty, and the slug followed by `.md` is its name |
| Scanner.ArticleSlugsFrom | model.js:50-53 | A listed slug names a regular file `<slug>.md` of the category |
| Scanner.ArticleSlugsOf | model.js:50-53 | Every regular file `<slug>.md` gives its slug |
| Scanner.CategorySlugsFrom | db.js:157-163 | Every inventory entry names a markdown file of the category, with that file's mtime |
| Scanner.ReadStatsSpec | db.js:116-127 | The stats of a listing are read exactly when every `fs.stat` succeeded, and then each name is paired with its own stats |
| Scanner.ScanCategoriesMembers | db.js:29-35 | The scan of the categories succeeds exactly when every category's listing and all of its stats are read, and it then holds exactly the entries of those categories |
| Scanner.ScanOk | db.js:25-35 | The scan succeeds exactly when the articles directory, its stats, and every category's listing and stats are read: a failed `readdir` or `stat` anywhere fails it |
| Scanner.ScanWellFormed | db.js:113-167 | Categories and slugs without `_` and with non-zero mtimes give the well-formed inventory that convergence needs |
| ArticleText.MatchTitleLine | db.js:190-194 | A file opening with `# <title>\n` yields that title, and the match ends after the newline |
| ArticleText.MatchTitleShape | db.js:190-194 | Every title match is the file's first line after `# ` |
| ArticleText.SearchHeading | db.js:196 | The search finds the first position where a `## ` heading line starts, or reports that there is none |
| ArticleText.FirstHeadingAfter | db.js:196 | After an introduction free of `#`, the first heading is the heading line that follows it |
| ArticleText.ExcerptBeforeHeading | db.js:196-200 | The excerpt source is the trimmed text between the title line and the first heading |
| ArticleText.ExcerptWithoutHeading | db.js:197-202 | Without a heading after the title, the excerpt is empty |
| ArticleText.RewriteLangTag | db.js:206 | Every `<code class="lang-x">` becomes `<code class="brush: x">` |
| ArticleText.RewriteLangPlain | db.js:206 | Text without `<` passes through the class rewrite unchanged |
| ArticleText.RewriteImgTag | db.js:207 | Every `<img src="X"` gets the article's path prefixed to X |
| ArticleText.RewriteImgPlain | db.js:207 | Text without `<` passes through the image rewrite unchanged |
| Store.LoadParts | db.js:170-207 | For any key of two or more parts, even one that fails the sanitising test, the load reads `<part 0>/<part 1>.md` from the file map: it fails exactly when that file is missing or lacks a title line, and otherwise carries parts 0 and 1 and `parseInt` of part 2 |
| Store.LoadEncoded | db.js:170-207 | A load under an encoded key reads that identity's file and carries its category, slug and version |
| Store.LoadSplitsSlug | db.js:171-175 | A name whose slug holds `_` is loaded from the file of its first two parts, with a NaN version |
| Store.LoadedAdd | db.js:100-103 | One more load adds the article when it succeeds, and otherwise leaves the bucket unchanged |
| Store.SyncedKeys | db.js:45-103 | The bucket after a run holds the keys not removed plus the keys whose load succeeded, which is the plan's result when every load succeeds |
| Store.StoreConverges | db.js:21-110 | From a bucket whose valid keys are canonical, two runs with succeeding loads on a well-formed inventory leave the bucket holding exactly one key per identity, at its filesystem version |
| Store.BlogStore.Remove | db.js:46-51 | Removal deletes the key; an absent key is no error |
| Store.BlogStore.Save | db.js:209 | The key now holds the article |
| Store.BlogStore.UpdateArticle | db.js:170-212 | A successful load saves the article under the key; an error is reported and leaves the bucket unchanged |
| Store.BlogStore.Sanitise | db.js:59-67 | The filter's survivors and purged keys are the reconciler's, and the purged keys are removed from the bucket |
| Store.BlogStore.Dedup | db.js:76-91 | The in-place reduce gives the reconciler's collapsed map and removes exactly its duplicate keys |
| Store.BlogStore.RemoveStale | db.js:94-97 | Exactly the stale keys are removed |
| Store.BlogStore.LoadOne | db.js:102 | One `updateArticle` extends the loaded set and reports an error exactly when the load fails |
| Store.VisitedInvariant | db.js:100-103 | One iteration of the load loop keeps the account of the loads started and failed |
| Store.BlogStore.LoadMissing | db.js:99-103 | The loop starts exactly the reconciler's inserts, and the bucket gains each article whose load succeeds |
| Store.BlogStore.UpdateDb | db.js:21-110 | A failed scan changes nothing; otherwise the outcome is the reconciler's and the bucket is the synced one |
| Reader.ParseTitle | model.js:93-97 | A readable file is refused exactly when it lacks a title line; otherwise the article carries its identity, mtime and first-line title |
| Reader.ParseTitleLine | model.js:93-97 | A file opening with `# <title>\n` is accepted with that title |
| Reader.ParseIgnoresIdentity | model.js:99-107 | The reader applies no image rewrite: the same file read under another identity parses the same |
| Reader.ReadTwice | model.js:80-82 | After a read that parsed a file, a second read replies the cached article first exactly when the file's mtime has not moved past it, and it parses the file again in any case |
| Reader.ArticleReader.ReadArticle | model.js:68-113 | Stat errors and non-files fail; a cache hit replies first and the file is still read; only a parsed article updates the cache |
| DateUtc.DayFromYearNext | routes.js:50-55 | The closed day-from-year formula advances by the length of each year |
| DateUtc.DayFromYearCounts | routes.js:50-55 | From 1970 on, the formula counts the days of the years before |
| DateUtc.MakeDayNext | routes.js:50-55 | Consecutive months start as many days apart as the first one has, and December rolls into the next year |
| Routes.MonthInterval | routes.js:48-57 | `start` is midnight UTC on the first of the month, and `end` is one millisecond before the next month starts, with December rolling into January |
| Routes.MonthWithoutDash | routes.js:48-57 | A query without `-` gives NaN for both ends |
| Routes.FirstComponentShape | routes.js:24 | The map emits for a key a value free of `_`: the whole key, or the part before its first `_` |
| Routes.CountedCategories | routes.js:23-31 | On keys that pass the sanitising test, the counts hold exactly the keys' categories, each with the number of keys in it |
| Routes.CategoryMultiplicity | routes.js:23-24 | On keys that pass the sanitising test, each category is emitted once per key in it |
| Routes.CountsMultiplicity | routes.js:25-31 | Exactly the categories that occur are counted, each by its multiplicity |
| Routes.CountsTotal | routes.js:25-31 | The counts add up to the number of keys |
| Routes.CountCategories | routes.js:27-30 | The in-place loop computes the counts |
| Routes.CategoryMemo.GetCategories | routes.js:16-42 | A memoised result is returned without a query; otherwise the counts are computed and stored, and a failed query leaves the memo unset |
| Routes.IndexResponseSpec | routes.js:96-106 | The month's list is sent exactly when the query succeeds, never as a 404; it holds the matches without content, each as often as matched, newest first |
| Routes.SortByMtimeSpec | routes.js:99-102 | The sorted list is newest first and a permutation of its input |
| Routes.ListArticlesSpec | routes.js:137-140 | The listed summaries are the matches without content, each as often as matched, newest first |
| Routes.CategoryResponseNotFound | routes.js:123-125 | With the corrected gate, and both queries answered, the category list is a 404 exactly when the category has no counted article |
| Routes.ConstructorListed | routes.js:125 | The handler as written answers `constructor` with an empty list where a 404 is intended |
| Routes.NewestIsLastMax | routes.js:177-178 | `_.max` picks a largest mtime, and the last one among equals |
| Routes.ArticleResponseAsWrittenSpec | routes.js:161-183 | As written, the lookup is a 404 exactly for a name the `in` test rejects (inherited names pass) or no match; otherwise it sends a match that no other match is newer than |
| Routes.ConstructorArticleQueried | routes.js:163 | As written, `constructor` passes the gate: a failed query reaches `next` and a match is sent where the corrected gate gives a 404 |
| Routes.ArticleResponseSpec | routes.js:161-183 | With the corrected gate, the lookup is a 404 exactly for an uncounted category or no match; otherwise it sends a match that no other match is newer than |
| App.PathNameSplit | app.js:40-41 | A URL is its pathname, which holds neither `?` nor `#`, followed by its query string or fragment if it has one |
| App.AppendSlashCases | app.js:34-46 | The middleware passes a request on exactly when its path ends in `/`, except for the root reached without the slash; every redirect stays under the prefix |
| App.RedirectSettles | app.js:34-46 | The URL a redirect names is mounted, and its request is passed on without a second redirect |
| App.BareRootRedirects | app.js:35-36 | `/blog` is redirected to `/blog/` |
| App.SlashedRootServed | app.js:48 | `/blog/` is served the page |
| App.MatchCategoryIff | app.js:53 | The category route matches `/api/articles/<segment>`, with or without a trailing slash, and nothing else |
| App.MatchArticleIff | app.js:54 | The article route matches `/api/article/<segment>/<segment>`, with or without a trailing slash, and nothing else |
| App.MatchAttachmentIff | app.js:55 | The attachment route matches `/api/article/<c>/<s>/<file>.<ext>`, and nothing else |
| App.DispatchCategory | app.js:51-53 | A path under `/api/articles/` reaches the category handler exactly when the rest is one segment |
| App.DispatchArticle | app.js:51-55 | A path under `/api/article/` reaches the article handler exactly when the rest is two segments |
| App.SegmentIsComponent | app.js:53-54 | Route segments hold neither the key separator `_` nor `/` |
| App.ArticleRouteKey | app.js:54 | The category and slug of a route form a key that decodes back to them |
| App.ConstructorRoute | app.js:53 | `/api/articles/constructor` reaches the category handler |
| App.DispatchSlash | app.js:48-57 | Appending the slash the middleware asks for keeps the route |
| App.MovedThenServed | app.js:34-63 | A 301 names a URL under the prefix, and that URL is then served by the handler of the first request |

## Left out

- Filesystem, Riak and HTTP I/O. Directory listings, stat results, file contents, the bucket's key listing and the store's map/reduce answers are inputs. Riak key filters, the map/reduce execution and re-reduce are not modelled.
- The `step` library's concurrency: its parallel and group fan-out, and which of several errors a group reports. The loads of a run are applied in one order. Each removal and save is taken to succeed, and logging is not modelled.
- `marked`, the Markdown renderer, is a function parameter.
- `$` patterns in the rewrite replacement strings are taken literally.
- Store.BlogStore.UpdateDb: returns the keys whose load failed as a set. The source passes an error of the group to its callback instead.
- KeyCodec.Decode: versions are unbounded integers. JavaScript numbers are IEEE doubles, so a version of 2^53 or more is rounded by `parseInt` and `'' + mtime` may render it differently; for such a key the source rebuilds, and removes, a different key than the model does.
- Text.ParseInt: leading whitespace and the `0x` prefix are not accepted. So a key such as `a_b_ 5`, which the source keeps, is purged in the model.
- `path.join` normalisation: the model reads `<category>/<slug>.md` verbatim. Node's normalisation of empty, `.` and `..` segments is not modelled. A file `...md` has the slug `..` and a file `..md` the slug `.`, and an empty `_` part of a key gives an empty segment; for these the source reads another path than the model.
- The app.js:11 call passes no articles directory. It is modelled as `updateDb` over the given tree.
- The `categories` handler at routes.js:65-76 is not modelled. Its sort comparator returns a boolean, so the order depends on the engine, and the handler ignores errors.
- The default month of routes.js:85-86 is not modelled: it depends on the clock.
- The `Expires` and `Last-Modified` headers are not modelled.
- `res.sendfile` for the page and for attachments, and `express.static`, are not modelled; only the route they are reached by is.
- `delete article.content` is modelled as building a summary without content, not as mutation of the store's objects.
- Routes.SortByMtimeSpec: the result is one stable newest-first order. V8's unstable sort for longer arrays may order equal mtimes differently.
- Routes.NewestIsLastMax: describes the `_.max` loop with `>=`. Other underscore versions keep the first maximum.
- Routes.CountsMultiplicity: the counts treat every category as an own key of the result object. In the source, `v in result` is already true for a prototype name such as `constructor`, so that category's count is not a number.
- `readCategoryArticles` (model.js:31-62): its slug filter is modelled by `Scanner.ArticleSlugs`, and each read by `Reader.ArticleReader.ReadArticle`. The group collecting the articles is not modelled.
- `readCategories` of model.js:6-29 is the same directory filter as db.js:113-134, modelled once by `Scanner.Directories`.
- Connect's case-insensitive prefix match at mount time is not modelled: the prefix is matched exactly.
- Regex routes are matched case-sensitively, as registered.
- A prefix holding `?` or `#` is outside the model.
- App.PathName: route captures are taken from the pathname as raw text. Express passes the attachment route's capture (app.js:55) through `decodeURIComponent`, so an escape such as `%2F` is decoded and a malformed one such as `%zz` throws a `URIError` that reaches the error handler. The model serves the raw capture in both cases.
- The error handler and the logger middleware are not modelled.

## Findings

| source | as written | input that shows it | evidently intended | confidence | as-written member | corrected member |
|---|---|---|---|---|---|---|
| db.js:94-102 | an identity removed as stale is not loaded again in the same run, because the load test at db.js:101 asks only whether the reduced store map holds the identity; the doc comment at db.js:16 promises that outdated articles are updated | a store holding `a_b_1` and a file `a/b.md` with mtime 2: the run removes `a_b_1` and loads nothing, so the store is empty until the next run | the stale identity is loaded at its filesystem version in the same run | not executed | Reconciler.NoReinsertOnMismatch, Reconciler.StaleNotReloaded | Reconciler.ReconcileIntended, Reconciler.ConvergesIntended |
| routes.js:125 | `category in categories` tests the counts object, so inherited names such as `constructor` pass the category gate | `GET /blog/api/articles/constructor/` with no category named `constructor`: the answer is 200 with an empty list | a 404 for every category without counted articles | not executed | Routes.CategoryResponseAsWritten, Routes.ConstructorListed | Routes.CategoryResponse, Routes.CategoryResponseNotFound |
| routes.js:163 | the same `category in categories` gate in the `article` handler lets inherited names such as `constructor` through to the store query | `GET /blog/api/article/constructor/x/` with no category named `constructor` while the store query fails: the error reaches `next` instead of a 404 | a 404 for every category without counted articles | not executed | Routes.ArticleResponseAsWritten, Routes.ConstructorArticleQueried | Routes.ArticleResponse, Routes.ArticleResponseSpec |
