/**
 * The filesystem scan: which directory entries are categories, which files
 * are articles and what their slugs are, and the inventory of
 * `{category + '_' + slug: mtime}` entries that `updateDb` builds from them.
 * Directory listings and stat results, each of which may be an error, are
 * inputs; reading them is not modelled.
 */
module Scanner {
  import opened Text
  import opened KeyCodec
  import opened Reconciler

  /** The parts of an `fs.Stats` the scan looks at; `mtime` is `getTime()`, in milliseconds. */
  datatype Stat = Stat(isDirectory: bool, isFile: bool, mtime: int)

  /** A name returned by `fs.readdir`, paired with the stat of that entry. */
  datatype DirEntry = DirEntry(name: string, stat: Stat)

  /** A name returned by `fs.readdir`, paired with what `fs.stat` reported for it: the stats or an error. */
  datatype RawEntry = RawEntry(name: string, stat: Result<Stat>)

  /**
   * The group of `fs.stat` calls over a listing: the names zipped with their
   * stats, or an error when some stat failed. The model reports the first
   * failure in listing order; which error the group reports is not modelled.
   */
  function ReadStats(raw: seq<RawEntry>): Result<seq<DirEntry>>
  {
    if raw == [] then Ok([])
    else
      var r := raw[|raw| - 1];
      match ReadStats(raw[..|raw| - 1])
      case Err(m) => Err(m)
      case Ok(rest) =>
        match r.stat
        case Err(m) => Err(m)
        case Ok(st) => Ok(rest + [DirEntry(r.name, st)])
  }

  /** The stats are read exactly when every stat succeeded, and then pair each name with its stats. */
  lemma {:induction false} ReadStatsSpec(raw: seq<RawEntry>)
    ensures ReadStats(raw).Ok? <==> forall i :: 0 <= i < |raw| ==> raw[i].stat.Ok?
    ensures ReadStats(raw).Ok? ==>
      |ReadStats(raw).value| == |raw|
      && forall i :: 0 <= i < |raw| ==> ReadStats(raw).value[i] == DirEntry(raw[i].name, raw[i].stat.value)
  {
    if raw != [] {
      var prefix := raw[..|raw| - 1];
      ReadStatsSpec(prefix);
      assert forall i :: 0 <= i < |prefix| ==> prefix[i] == raw[i];
    }
  }

  /** `fs.readdir` followed by the stats of its entries; an error of either is passed on. */
  function ReadListing(listing: Result<seq<RawEntry>>): Result<seq<DirEntry>>
  {
    match listing
    case Err(m) => Err(m)
    case Ok(raw) => ReadStats(raw)
  }

  /** `readCategories` (db.js:113-134): the directories of the articles directory. */
  function ReadCategories(root: Result<seq<RawEntry>>): Result<seq<string>>
  {
    match ReadListing(root)
    case Err(m) => Err(m)
    case Ok(entries) => Ok(Directories(entries))
  }

  /** `files.filter((file, i) => stats[i].isDirectory())`: the category names, in listing order. */
  function Directories(entries: seq<DirEntry>): seq<string>
  {
    if entries == [] then []
    else
      var e := entries[|entries| - 1];
      var rest := Directories(entries[..|entries| - 1]);
      if e.stat.isDirectory then rest + [e.name] else rest
  }

  /** The categories are exactly the entries whose stat says directory. */
  lemma {:induction false} DirectoriesMembers(entries: seq<DirEntry>, name: string)
    ensures name in Directories(entries) <==>
      exists i :: 0 <= i < |entries| && entries[i].name == name && entries[i].stat.isDirectory
  {
    if entries != [] {
      var prefix := entries[..|entries| - 1];
      DirectoriesMembers(prefix, name);
      assert forall i :: 0 <= i < |prefix| ==> prefix[i] == entries[i];
      if name in Directories(prefix) {
        var i :| 0 <= i < |prefix| && prefix[i].name == name && prefix[i].stat.isDirectory;
        assert entries[i] == prefix[i];
      }
    }
  }

  /** Index of the last occurrence of `c` in `s`. */
  function LastIndexOf(s: string, c: char): (r: Option<nat>)
    ensures r.None? <==> c !in s
    ensures r.Some? ==> r.value < |s| && s[r.value] == c && c !in s[r.value + 1..]
  {
    if s == [] then None
    else if s[|s| - 1] == c then Some(|s| - 1)
    else
      match LastIndexOf(s[..|s| - 1], c)
      case None => None
      case Some(i) =>
        assert s[i + 1..] == s[..|s| - 1][i + 1..] + [s[|s| - 1]];
        Some(i)
  }

  /**
   * `path.extname(name)` for a bare file name: from the last `.` to the end,
   * except that a name whose only leading part is that dot (`.md`), a name
   * without a dot, and `..` have no extension.
   */
  function ExtName(name: string): string
  {
    if name == ".." then ""
    else
      match LastIndexOf(name, '.')
      case None => ""
      case Some(i) => if i == 0 then "" else name[i..]
  }

  const Markdown: string := ".md"

  predicate EndsWith(s: string, suffix: string)
  {
    |suffix| <= |s| && s[|s| - |suffix|..] == suffix
  }

  /** A name has the extension `.md` exactly when it ends in `.md` after at least one other character. */
  lemma ExtNameMarkdown(name: string)
    ensures ExtName(name) == Markdown <==> |name| >= 4 && EndsWith(name, Markdown)
  {
    if |name| >= 4 && EndsWith(name, Markdown) {
      var i := |name| - 3;
      assert name[i] == '.' && name[i + 1] == 'm' && name[i + 2] == 'd';
      assert name != "..";
      match LastIndexOf(name, '.')
      case None =>
      case Some(j) =>
        if j != i {
          assert false;
        }
    }
    if ExtName(name) == Markdown {
      var i := LastIndexOf(name, '.').value;
      assert name[i..] == Markdown;
    }
  }

  /** `path.basename(name, ext)`: the name without `ext` when it ends with it. */
  function Basename(name: string, ext: string): string
  {
    if |ext| > 0 && EndsWith(name, ext) then name[..|name| - |ext|] else name
  }

  /** `path.join(articlesDir, category, slug) + '.md'`, relative to the articles directory. */
  function ArticlePath(category: string, slug: string): string
  {
    category + "/" + slug + Markdown
  }

  /** The entries the article filters keep: regular files whose extension is `.md`. */
  predicate IsMarkdownFile(e: DirEntry)
  {
    e.stat.isFile && ExtName(e.name) == Markdown
  }

  function MarkdownFiles(entries: seq<DirEntry>): seq<DirEntry>
  {
    if entries == [] then []
    else
      var e := entries[|entries| - 1];
      var rest := MarkdownFiles(entries[..|entries| - 1]);
      if IsMarkdownFile(e) then rest + [e] else rest
  }

  /** The files kept are exactly the markdown files of the listing. */
  lemma {:induction false} MarkdownFilesMembers(entries: seq<DirEntry>, e: DirEntry)
    ensures e in MarkdownFiles(entries) <==> e in entries && IsMarkdownFile(e)
  {
    if entries != [] {
      var prefix := entries[..|entries| - 1];
      MarkdownFilesMembers(prefix, e);
      assert entries == prefix + [entries[|entries| - 1]];
    }
  }

  /** The slug of a markdown file: its name without `.md`, never empty. */
  lemma SlugOf(e: DirEntry)
    requires IsMarkdownFile(e)
    ensures var slug := Basename(e.name, Markdown); |slug| >= 1 && e.name == slug + Markdown
  {
    ExtNameMarkdown(e.name);
    assert e.name == e.name[..|e.name| - 3] + e.name[|e.name| - 3..];
  }

  /** `readCategoryArticles`: the slugs of the markdown files of a category, in listing order. */
  function ArticleSlugs(entries: seq<DirEntry>): seq<string>
  {
    var files := MarkdownFiles(entries);
    seq(|files|, i requires 0 <= i < |files| => Basename(files[i].name, Markdown))
  }

  /** A listed slug is the name of a regular file of the listing without its `.md`, and is not empty. */
  lemma ArticleSlugsFrom(entries: seq<DirEntry>, slug: string)
    requires slug in ArticleSlugs(entries)
    ensures exists i :: 0 <= i < |entries| && entries[i].stat.isFile && entries[i].name == slug + Markdown && slug != []
  {
    var files := MarkdownFiles(entries);
    var j :| 0 <= j < |files| && ArticleSlugs(entries)[j] == slug;
    MarkdownFilesMembers(entries, files[j]);
    SlugOf(files[j]);
    var i :| 0 <= i < |entries| && entries[i] == files[j];
  }

  /** Every regular file named `<slug>.md` with a non-empty slug gives that slug. */
  lemma ArticleSlugsOf(entries: seq<DirEntry>, i: nat, slug: string)
    requires i < |entries| && entries[i].stat.isFile && entries[i].name == slug + Markdown && slug != []
    ensures slug in ArticleSlugs(entries)
  {
    var files := MarkdownFiles(entries);
    var name := slug + Markdown;
    assert name[|name| - 3..] == Markdown;
    ExtNameMarkdown(name);
    MarkdownFilesMembers(entries, entries[i]);
    var j :| 0 <= j < |files| && files[j] == entries[i];
    assert Basename(name, Markdown) == slug;
    assert ArticleSlugs(entries)[j] == slug;
  }

  /** `readCategorySlugs`: one `{category + '_' + slug: mtime}` entry per markdown file, in listing order. */
  function CategorySlugs(category: string, entries: seq<DirEntry>): seq<FsEntry>
  {
    var files := MarkdownFiles(entries);
    seq(|files|, i requires 0 <= i < |files| =>
      FsEntry(Name(category, Basename(files[i].name, Markdown)), files[i].stat.mtime))
  }

  /** Every inventory entry of a category names a markdown file of it, with that file's mtime. */
  lemma CategorySlugsFrom(category: string, entries: seq<DirEntry>, fe: FsEntry)
    requires fe in CategorySlugs(category, entries)
    ensures exists i :: (0 <= i < |entries| && IsMarkdownFile(entries[i])
      && fe == FsEntry(Name(category, Basename(entries[i].name, Markdown)), entries[i].stat.mtime))
  {
    var files := MarkdownFiles(entries);
    var j :| 0 <= j < |files| && CategorySlugs(category, entries)[j] == fe;
    MarkdownFilesMembers(entries, files[j]);
    var i :| 0 <= i < |entries| && entries[i] == files[j];
  }

  /** The listing of category `c`; a category whose directory is gone reads as `ENOENT`. */
  function ListingOf(dirs: map<string, Result<seq<RawEntry>>>, c: string): Result<seq<RawEntry>>
  {
    if c in dirs then dirs[c] else Err("ENOENT")
  }

  /** `readCategorySlugs` (db.js:137-167): the inventory entries of one category, or the error met. */
  function ReadCategorySlugs(c: string, dirs: map<string, Result<seq<RawEntry>>>): Result<seq<FsEntry>>
  {
    match ReadListing(ListingOf(dirs, c))
    case Err(m) => Err(m)
    case Ok(entries) => Ok(CategorySlugs(c, entries))
  }

  /**
   * The second step of `updateDb`: the slugs of every category, flattened in
   * category order; an error reading any category fails the scan.
   */
  function ScanCategories(categories: seq<string>, dirs: map<string, Result<seq<RawEntry>>>): Result<seq<FsEntry>>
  {
    if categories == [] then Ok([])
    else
      var c := categories[|categories| - 1];
      match ScanCategories(categories[..|categories| - 1], dirs)
      case Err(m) => Err(m)
      case Ok(rest) =>
        match ReadCategorySlugs(c, dirs)
        case Err(m) => Err(m)
        case Ok(slugs) => Ok(rest + slugs)
  }

  /** The inventory entries of the whole tree: `readCategories`, then `readCategorySlugs` for each category. */
  function Scan(root: Result<seq<RawEntry>>, dirs: map<string, Result<seq<RawEntry>>>): Result<seq<FsEntry>>
  {
    match ReadCategories(root)
    case Err(m) => Err(m)
    case Ok(categories) => ScanCategories(categories, dirs)
  }

  /**
   * The scan of the categories succeeds exactly when every category's
   * listing and every stat in it are read, and then holds exactly the
   * entries of the categories.
   */
  lemma {:induction false} ScanCategoriesMembers(categories: seq<string>, dirs: map<string, Result<seq<RawEntry>>>, fe: FsEntry)
    ensures ScanCategories(categories, dirs).Ok? <==> forall c :: c in categories ==> ReadListing(ListingOf(dirs, c)).Ok?
    ensures ScanCategories(categories, dirs).Ok? ==>
      (fe in ScanCategories(categories, dirs).value <==>
       exists c :: c in categories && ReadListing(ListingOf(dirs, c)).Ok?
         && fe in CategorySlugs(c, ReadListing(ListingOf(dirs, c)).value))
  {
    if categories != [] {
      var prefix := categories[..|categories| - 1];
      var c := categories[|categories| - 1];
      assert categories == prefix + [c];
      assert forall c' :: c' in categories <==> c' in prefix || c' == c;
      ScanCategoriesMembers(prefix, dirs, fe);
    }
  }

  /**
   * The scan succeeds exactly when the articles directory, every stat in
   * it, and every category's listing and stats are read: a failed `readdir`
   * or `stat` anywhere fails it.
   */
  lemma ScanOk(root: Result<seq<RawEntry>>, dirs: map<string, Result<seq<RawEntry>>>)
    ensures ReadListing(root).Ok? <==> root.Ok? && forall i :: 0 <= i < |root.value| ==> root.value[i].stat.Ok?
    ensures Scan(root, dirs).Ok? <==>
      (ReadListing(root).Ok? && forall c :: c in Directories(ReadListing(root).value) ==> ReadListing(ListingOf(dirs, c)).Ok?)
  {
    if root.Ok? {
      ReadStatsSpec(root.value);
      if ReadListing(root).Ok? {
        ScanCategoriesMembers(Directories(ReadListing(root).value), dirs, FsEntry([], 0));
      }
    }
  }

  /**
   * Categories and slugs without `_` and non-zero mtimes give an inventory of
   * two-part identities with versions that pass the `!mtime` test: the
   * condition under which two runs converge.
   */
  lemma ScanWellFormed(root: Result<seq<RawEntry>>, dirs: map<string, Result<seq<RawEntry>>>)
    requires Scan(root, dirs).Ok?
    requires ReadListing(root).Ok? && forall c :: c in Directories(ReadListing(root).value) ==> IsComponent(c)
    requires forall c, e ::
      (c in Directories(ReadListing(root).value) && ReadListing(ListingOf(dirs, c)).Ok?
       && e in ReadListing(ListingOf(dirs, c)).value && IsMarkdownFile(e)) ==>
      IsComponent(Basename(e.name, Markdown)) && e.stat.mtime != 0
    ensures WellFormed(Extend(Scan(root, dirs).value))
  {
    var entries := Scan(root, dirs).value;
    var categories := Directories(ReadListing(root).value);
    forall n | n in Extend(entries) ensures IsIdentity(n) && Extend(entries)[n] != 0 {
      ExtendKeys(entries, n);
      var i :| 0 <= i < |entries| && entries[i].name == n;
      var w := LastWith(entries, n, i);
      ExtendLast(entries, w);
      ScanCategoriesMembers(categories, dirs, entries[w]);
      var c :| c in categories && ReadListing(ListingOf(dirs, c)).Ok?
        && entries[w] in CategorySlugs(c, ReadListing(ListingOf(dirs, c)).value);
      var listing := ReadListing(ListingOf(dirs, c)).value;
      CategorySlugsFrom(c, listing, entries[w]);
      var j :| 0 <= j < |listing| && IsMarkdownFile(listing[j])
        && entries[w] == FsEntry(Name(c, Basename(listing[j].name, Markdown)), listing[j].stat.mtime);
      assert listing[j] in listing;
      NameIsIdentity(c, Basename(listing[j].name, Markdown));
    }
  }

  /** The last entry carrying the name of entry `i`. */
  lemma {:induction false} LastWith(entries: seq<FsEntry>, n: string, i: nat) returns (w: nat)
    requires i < |entries| && entries[i].name == n
    ensures w < |entries| && entries[w].name == n && LastOf(entries, w)
    decreases |entries| - i
  {
    if LastOf(entries, i) {
      w := i;
    } else {
      var j :| i < j < |entries| && entries[j].name == entries[i].name;
      w := LastWith(entries, n, j);
    }
  }

  lemma NameIsIdentity(c: string, sl: string)
    requires IsComponent(c) && IsComponent(sl)
    ensures IsIdentity(Name(c, sl))
  {
    JoinCons(c, [sl]);
    assert [c] + [sl] == [c, sl];
    SplitJoin([c, sl], Separator);
  }
}
