/**
 * The `blog` bucket and the two operations of db.js that change it:
 * `updateArticle`, which loads one article file and saves it under its key,
 * and `updateDb`, which scans the filesystem, reconciles the bucket's keys
 * against the inventory and then issues the removals and the loads.
 * Removals are applied before loads, in the order the source issues them.
 */
module Store {
  import opened Text
  import opened KeyCodec
  import opened Reconciler
  import opened ArticleText
  import opened Scanner

  /**
   * The document `updateArticle` saves. `mtime` is `parseInt` of the key's
   * third part; `None` stands for NaN, which the store keeps as `null`.
   */
  datatype Article = Article(category: string, slug: string, mtime: Option<int>, title: string, excerpt: string, content: string)

  /**
   * What `updateArticle` saves under `key`, or the error it reports: the key
   * is split again, the file of its first two parts is read, and a file
   * without a title line is refused. `files` holds the readable files.
   */
  function Load(key: string, files: map<string, string>, render: string -> string): Result<Article>
  {
    var parts := Split(key, Separator);
    if |parts| < 2 then Err("Arguments to path.join must be strings")
    else
      var category, slug := parts[0], parts[1];
      var mtime := if |parts| >= 3 then ParseInt(parts[2]) else None;
      var path := ArticlePath(category, slug);
      if path !in files then Err("ENOENT")
      else
        var content := files[path];
        match MatchTitle(content)
        case None => Err("Article title absent")
        case Some(m) =>
          Ok(Article(category, slug, mtime, m.title, Excerpt(content, m.lastIndex, render),
                     StoredContent(content, category, slug, render)))
  }

  /**
   * Loading a key built from a category, a slug and a version reads that
   * article's file and stores that identity and version with it; a readable
   * file without a title line is refused with 'Article title absent'.
   */
  /** What a load of a key with at least two parts depends on: its first three parts and the file they name. */
  lemma LoadParts(key: string, files: map<string, string>, render: string -> string)
    ensures var parts := Split(key, Separator); var r := Load(key, files, render);
      |parts| >= 2 ==>
        (r.Err? <==> ArticlePath(parts[0], parts[1]) !in files || MatchTitle(files[ArticlePath(parts[0], parts[1])]).None?)
        && (r.Err? && ArticlePath(parts[0], parts[1]) in files ==> r.message == "Article title absent")
        && (r.Ok? ==> r.value.category == parts[0] && r.value.slug == parts[1]
                      && r.value.mtime == (if |parts| >= 3 then ParseInt(parts[2]) else None)
                      && r.value.title == MatchTitle(files[ArticlePath(parts[0], parts[1])]).value.title)
  {
  }

  lemma LoadEncoded(category: string, slug: string, v: Version, files: map<string, string>, render: string -> string)
    requires IsComponent(category) && IsComponent(slug)
    ensures var r := Load(Encode(category, slug, v), files, render);
      (r.Err? <==> ArticlePath(category, slug) !in files || MatchTitle(files[ArticlePath(category, slug)]).None?)
      && (r.Err? && ArticlePath(category, slug) in files ==> r.message == "Article title absent")
      && (r.Ok? ==> r.value.category == category && r.value.slug == slug && r.value.mtime == Some(v as int)
                    && r.value.title == MatchTitle(files[ArticlePath(category, slug)]).value.title)
  {
    var t := IntToString(v);
    SplitKey(category, slug, t);
    IntToStringChars(v);
    assert Separator !in t;
    assert IndexOf(t, Separator).None?;
    ParseIntToString(v);
    LoadParts(Encode(category, slug, v), files, render);
  }

  /**
   * An inventory name whose slug holds `_` is loaded from the wrong file: the
   * key is split again, so the file of the name's first two parts is read
   * and the version is NaN.
   */
  lemma LoadSplitsSlug(category: string, slug: string, t: string, v: Version, files: map<string, string>, render: string -> string)
    requires IsComponent(category) && IsComponent(slug) && IsComponent(t) && !IsDigit(t[0]) && t[0] != '-' && t[0] != '+'
    ensures var r := Load(Rebuilt(Name(category, slug + [Separator] + t), v), files, render);
      r.Ok? ==> r.value.slug == slug && r.value.mtime == None
  {
    var key := Rebuilt(Name(category, slug + [Separator] + t), v);
    SplitSuffixed(category, slug, t, IntToString(v));
    ParseIntNoDigit(t);
    LoadParts(key, files, render);
  }

  lemma ParseIntNoDigit(t: string)
    requires t != [] && !IsDigit(t[0]) && t[0] != '-' && t[0] != '+'
    ensures ParseInt(t) == None
  {
    assert LeadingDigits(t) == [];
  }

  lemma SplitSuffixed(category: string, slug: string, t: string, tail: string)
    requires IsComponent(category) && IsComponent(slug) && IsComponent(t)
    ensures var parts := Split(Name(category, slug + [Separator] + t) + [Separator] + tail, Separator);
      |parts| >= 3 && parts[0] == category && parts[1] == slug && parts[2] == t
  {
    assert Name(category, slug + [Separator] + t) + [Separator] + tail
      == Name(category, slug) + [Separator] + (t + [Separator] + tail);
    SplitKey(category, slug, t + [Separator] + tail);
    SplitCons(t, tail, Separator);
  }

  /** `Load` over one filesystem and renderer, as a function of the key. */
  function Loader(files: map<string, string>, render: string -> string): string -> Result<Article>
  {
    k => Load(k, files, render)
  }

  /** The bucket after loads of `keys` into `base`: a successful load replaces or adds its key, a failed one leaves it. */
  function Loaded(base: map<string, Article>, keys: set<string>, load: string -> Result<Article>): map<string, Article>
  {
    map k | k in base.Keys + keys && (k in base || load(k).Ok?) ::
      if k in keys && load(k).Ok? then load(k).value else base[k]
  }

  /** The bucket after a run: the removals first, then the loads that succeed. */
  function Synced(base: map<string, Article>, r: Outcome, files: map<string, string>, render: string -> string): map<string, Article>
  {
    Loaded(base - r.Removals(), r.Inserted(), Loader(files, render))
  }

  lemma LoadedEmpty(base: map<string, Article>, load: string -> Result<Article>)
    ensures Loaded(base, {}, load) == base
  {
  }

  /** One more load: the bucket gains the article when the load succeeds and is unchanged otherwise. */
  lemma LoadedAdd(base: map<string, Article>, keys: set<string>, k: string, load: string -> Result<Article>)
    ensures Loaded(base, keys + {k}, load) ==
      if load(k).Ok? then Loaded(base, keys, load)[k := load(k).value] else Loaded(base, keys, load)
  {
    var before, after := Loaded(base, keys, load), Loaded(base, keys + {k}, load);
    var r := load(k);
    if r.Ok? {
      var expected := before[k := r.value];
      assert after.Keys == expected.Keys;
      forall x | x in after
        ensures after[x] == expected[x]
      {
      }
    } else {
      assert after.Keys == before.Keys;
      forall x | x in after
        ensures after[x] == before[x]
      {
      }
    }
  }

  /**
   * The keys of the bucket after a run are the keys not removed and the keys
   * whose load succeeded; when every load succeeds they are the keys the
   * reconciler's plan leads to.
   */
  lemma SyncedKeys(base: map<string, Article>, r: Outcome, files: map<string, string>, render: string -> string)
    ensures Synced(base, r, files, render).Keys ==
      (base.Keys - r.Removals()) + (r.Inserted() - Failures(r.Inserted(), Loader(files, render)))
    ensures (forall k :: k in r.Inserted() ==> Load(k, files, render).Ok?) ==>
      Synced(base, r, files, render).Keys == Apply(base.Keys, r)
  {
  }

  /**
   * Two runs over the same inventory, each listing the bucket's keys once,
   * with every load succeeding: starting from a bucket whose valid keys are
   * canonical, the bucket ends up holding exactly one key per filesystem
   * identity, at its filesystem version.
   */
  lemma StoreConverges(entries: seq<FsEntry>, docs: map<string, Article>, first: seq<string>, second: seq<string>,
                       files: map<string, string>, render: string -> string)
    requires entries != [] && WellFormed(Extend(entries))
    requires Keys(first) == docs.Keys && forall k :: k in first ==> Decode(k).None? || Canonical(k)
    requires forall k :: k in Reconcile(entries, first).Inserted() ==> Load(k, files, render).Ok?
    requires forall k :: k in Reconcile(entries, second).Inserted() ==> Load(k, files, render).Ok?
    requires Keys(second) == Synced(docs, Reconcile(entries, first), files, render).Keys
    requires forall i, j :: 0 <= i < j < |second| ==> second[i] != second[j]
    ensures Synced(Synced(docs, Reconcile(entries, first), files, render), Reconcile(entries, second), files, render).Keys
      == Target(Extend(entries))
  {
    var docs1 := Synced(docs, Reconcile(entries, first), files, render);
    SyncedKeys(docs, Reconcile(entries, first), files, render);
    SyncedKeys(docs1, Reconcile(entries, second), files, render);
    Converges(entries, first, second);
  }

  /** The `blog` bucket of the store, as a map from key to document. */
  class BlogStore {
    var docs: map<string, Article>

    constructor()
      ensures docs == map[]
    {
      docs := map[];
    }

    /** `db.remove('blog', key)`: removing an absent key changes nothing. */
    method Remove(key: string)
      modifies this
      ensures docs == old(docs) - {key}
    {
      docs := docs - {key};
    }

    /** `db.save('blog', key, article)`: the key now holds the article. */
    method Save(key: string, article: Article)
      modifies this
      ensures docs == old(docs)[key := article]
    {
      docs := docs[key := article];
    }

    /**
     * `updateArticle`: split the key, read the article file, fill in the
     * article field by field and save it; an error leaves the bucket as it was.
     */
    method UpdateArticle(key: string, files: map<string, string>, render: string -> string) returns (err: Option<string>)
      modifies this
      ensures Load(key, files, render).Ok? ==> err == None && docs == old(docs)[key := Load(key, files, render).value]
      ensures Load(key, files, render).Err? ==> err == Some(Load(key, files, render).message) && docs == old(docs)
    {
      var parts := Split(key, Separator);
      if |parts| < 2 {
        return Some("Arguments to path.join must be strings");
      }
      var category, slug := parts[0], parts[1];
      var mtime := if |parts| >= 3 then ParseInt(parts[2]) else None;
      var path := ArticlePath(category, slug);
      if path !in files {
        return Some("ENOENT");
      }
      var content := files[path];
      var article := Article(category, slug, mtime, "", "", "");
      var titleMatch := MatchTitle(content);
      if titleMatch.None? {
        return Some("Article title absent");
      }
      article := article.(title := titleMatch.value.title);
      article := article.(excerpt := Excerpt(content, titleMatch.value.lastIndex, render));
      article := article.(content := StoredContent(content, category, slug, render));
      Save(key, article);
      return None;
    }

    /** db.js:59-67: the sanitising filter removes every key that does not decode and keeps the others' entries. */
    method Sanitise(listing: seq<string>) returns (survivors: seq<Entry>, purged: set<string>)
      modifies this
      ensures survivors == Survivors(listing) && purged == Purged(listing)
      ensures docs == old(docs) - purged
    {
      survivors, purged := [], {};
      var i := 0;
      while i < |listing|
        invariant 0 <= i <= |listing|
        invariant survivors == Survivors(listing[..i])
        invariant purged == Purged(listing[..i])
        invariant docs == old(docs) - purged
      {
        var key := listing[i];
        assert listing[..i + 1] == listing[..i] + [key];
        PurgedSnoc(listing[..i], key);
        match Decode(key) {
          case None =>
            Remove(key);
            RemoveMore(old(docs), purged, key);
            purged := purged + {key};
          case Some(d) =>
            survivors := survivors + [EntryOf(d)];
        }
        i := i + 1;
      }
      assert listing[..i] == listing;
    }

    /**
     * db.js:76-91: the reduce, with its accumulator `latest` updated in place;
     * it removes the rebuilt key of every version it does not keep.
     */
    method Dedup(survivors: seq<Entry>) returns (latest: map<string, Version>, dups: set<string>)
      modifies this
      ensures Versions(latest, dups) == Collapse(survivors)
      ensures docs == old(docs) - dups
    {
      latest, dups := map[], {};
      var j := 0;
      while j < |survivors|
        invariant 0 <= j <= |survivors|
        invariant Versions(latest, dups) == Collapse(survivors[..j])
        invariant docs == old(docs) - dups
      {
        var e := survivors[j];
        assert survivors[..j + 1][..j] == survivors[..j];
        var n := e.name;
        if n !in latest {
          latest := latest[n := e.mtime];
        } else if latest[n] < e.mtime {
          var k := Rebuilt(n, latest[n]);
          Remove(k);
          RemoveMore(old(docs), dups, k);
          dups := dups + {k};
          latest := latest[n := e.mtime];
        } else {
          var k := Rebuilt(n, e.mtime);
          Remove(k);
          RemoveMore(old(docs), dups, k);
          dups := dups + {k};
        }
        j := j + 1;
      }
      assert survivors[..j] == survivors;
    }

    /** db.js:94-97: remove the rebuilt key of every collapsed entry that is stale. */
    method RemoveStale(latest: map<string, Version>, fs: map<string, int>) returns (stale: set<string>)
      modifies this
      ensures stale == Stale(latest, fs)
      ensures docs == old(docs) - stale
    {
      var todo := latest.Keys;
      stale := {};
      while todo != {}
        invariant todo <= latest.Keys
        invariant stale == StaleAmong(latest, fs, latest.Keys - todo)
        invariant docs == old(docs) - stale
        decreases |todo|
      {
        var n :| n in todo;
        StaleAmongAdd(latest, fs, latest.Keys - todo, n);
        if IsStale(latest, fs, n) {
          var k := Rebuilt(n, latest[n]);
          Remove(k);
          RemoveMore(old(docs), stale, k);
          stale := stale + {k};
        }
        SetMinusShrink(latest.Keys, todo, n);
        todo := todo - {n};
      }
      StaleAmongAll(latest, fs, latest.Keys - todo);
    }

    /** `updateArticle` on one more key, stated on the loads started so far. */
    method LoadOne(ghost base: map<string, Article>, ghost started: set<string>, k: string,
                   files: map<string, string>, render: string -> string) returns (err: Option<string>)
      requires docs == Loaded(base, started, Loader(files, render))
      modifies this
      ensures docs == Loaded(base, started + {k}, Loader(files, render))
      ensures err.Some? <==> Loader(files, render)(k).Err?
    {
      assert Loader(files, render)(k) == Load(k, files, render);
      LoadedAdd(base, started, k, Loader(files, render));
      err := UpdateArticle(k, files, render);
    }

    /**
     * One iteration of the loop below: take an identity not yet visited and,
     * when the collapsed map lacks it, run `updateArticle` on its rebuilt key.
     */
    method LoadNext(ghost base: map<string, Article>, latest: map<string, Version>, fs: map<string, int>,
                    files: map<string, string>, render: string -> string,
                    pending: set<string>, started: set<string>, failed: set<string>)
      returns (pending': set<string>, started': set<string>, failed': set<string>)
      requires pending != {} && pending <= fs.Keys
      requires started == InsertsAmong(latest, fs, fs.Keys - pending)
      requires failed == Failures(started, Loader(files, render))
      requires docs == Loaded(base, started, Loader(files, render))
      modifies this
      ensures pending' <= pending && |pending'| < |pending|
      ensures started' == InsertsAmong(latest, fs, fs.Keys - pending')
      ensures failed' == Failures(started', Loader(files, render))
      ensures docs == Loaded(base, started', Loader(files, render))
    {
      var n :| n in pending;
      pending' := pending - {n};
      var err := None;
      if n !in latest {
        err := LoadOne(base, started, Rebuilt(n, fs[n]), files, render);
      }
      var visited := Visited(latest, fs, n, started, failed, err);
      started', failed' := visited.0, visited.1;
      VisitedInvariant(latest, fs, Loader(files, render), pending, n, started, failed, err);
    }

    /** db.js:100-103: load every filesystem identity the collapsed map lacks. */
    method LoadMissing(latest: map<string, Version>, fs: map<string, int>, files: map<string, string>, render: string -> string)
      returns (started: set<string>, failed: set<string>)
      modifies this
      ensures started == Inserts(latest, fs)
      ensures failed == Failures(started, Loader(files, render))
      ensures docs == Loaded(old(docs), started, Loader(files, render))
    {
      ghost var base := docs;
      var pending := fs.Keys;
      started, failed := {}, {};
      LoadedEmpty(docs, Loader(files, render));
      while pending != {}
        invariant pending <= fs.Keys
        invariant started == InsertsAmong(latest, fs, fs.Keys - pending)
        invariant failed == Failures(started, Loader(files, render))
        invariant docs == Loaded(base, started, Loader(files, render))
        decreases |pending|
      {
        pending, started, failed := LoadNext(base, latest, fs, files, render, pending, started, failed);
      }
      InsertsAmongAll(latest, fs, fs.Keys - pending);
    }

    /**
     * `updateDb`: scan the filesystem, then run the four stages on the
     * bucket's key stream `listing`. A failed scan changes nothing;
     * otherwise the outcome is the reconciler's and the bucket is the synced
     * one. `failed` holds the keys whose load reported an error.
     */
    method UpdateDb(root: Result<seq<RawEntry>>, dirs: map<string, Result<seq<RawEntry>>>, listing: seq<string>,
                    files: map<string, string>, render: string -> string)
      returns (result: Option<Outcome>, failed: set<string>)
      modifies this
      ensures Scan(root, dirs).Err? ==> result == None && failed == {} && docs == old(docs)
      ensures Scan(root, dirs).Ok? ==> result == Some(Reconcile(Scan(root, dirs).value, listing))
      ensures Scan(root, dirs).Ok? ==> docs == Synced(old(docs), result.value, files, render)
      ensures Scan(root, dirs).Ok? ==> failed == Failures(result.value.Inserted(), Loader(files, render))
    {
      var scanned := Scan(root, dirs);
      if scanned.Err? {
        return None, {};
      }
      var entries := scanned.value;
      var survivors, purged := Sanitise(listing);
      var latest, dups := Dedup(survivors);
      MinusUnion(old(docs), purged, dups);
      if entries == [] {
        // `_.extend.apply(null, [])` is undefined: db.js:95 throws on the first collapsed entry.
        result := if latest == map[] then Some(Completed(Plan(purged + dups, {}))) else Some(Failed(purged + dups));
        LoadedEmpty(docs, Loader(files, render));
        return result, {};
      }
      var fs := Extend(entries);
      var stale := RemoveStale(latest, fs);
      MinusUnion(old(docs), purged + dups, stale);
      var started;
      started, failed := LoadMissing(latest, fs, files, render);
      result := Some(Completed(Plan(purged + dups + stale, started)));
    }
  }

  /**
   * The bookkeeping of one visit to identity `n`: its rebuilt key joins the
   * started loads when the collapsed map lacks `n`, and the failures when
   * the load reported `err`.
   */
  function Visited(latest: map<string, Version>, fs: map<string, int>, n: string,
                   started: set<string>, failed: set<string>, err: Option<string>): (set<string>, set<string>)
    requires n in fs
  {
    if n in latest then (started, failed)
    else (started + {Rebuilt(n, fs[n])}, if err.Some? then failed + {Rebuilt(n, fs[n])} else failed)
  }

  /** One visit keeps the loop's account of started and failed loads. */
  lemma VisitedInvariant(latest: map<string, Version>, fs: map<string, int>, load: string -> Result<Article>,
                         pending: set<string>, n: string, started: set<string>, failed: set<string>, err: Option<string>)
    requires n in pending && pending <= fs.Keys
    requires started == InsertsAmong(latest, fs, fs.Keys - pending)
    requires failed == Failures(started, load)
    requires n !in latest ==> (err.Some? <==> load(Rebuilt(n, fs[n])).Err?)
    ensures var (started', failed') := Visited(latest, fs, n, started, failed, err);
      started' == InsertsAmong(latest, fs, fs.Keys - (pending - {n}))
      && failed' == Failures(started', load)
  {
    InsertsAmongNext(latest, fs, pending, n);
    if n !in latest {
      FailuresAdd(started, Rebuilt(n, fs[n]), load);
    }
  }

  /** The started loads that report an error. */
  function Failures(started: set<string>, load: string -> Result<Article>): set<string>
  {
    set k | k in started && load(k).Err?
  }

  lemma FailuresAdd(started: set<string>, k: string, load: string -> Result<Article>)
    ensures Failures(started + {k}, load) == Failures(started, load) + (if load(k).Err? then {k} else {})
  {
  }

  lemma MinusUnion<K, V>(m: map<K, V>, a: set<K>, b: set<K>)
    ensures (m - a) - b == m - (a + b)
  {
  }

  lemma RemoveMore<K, V>(m: map<K, V>, removed: set<K>, k: K)
    ensures (m - removed) - {k} == m - (removed + {k})
  {
  }

  lemma SetMinusShrink<K>(all: set<K>, todo: set<K>, n: K)
    requires n in todo
    ensures all - (todo - {n}) == (all - todo) + (if n in all then {n} else {})
  {
  }

  /** Appending a key to the listing adds it to the purged keys exactly when it does not decode. */
  lemma PurgedSnoc(listing: seq<string>, k: string)
    ensures Purged(listing + [k]) == Purged(listing) + (if Decode(k).None? then {k} else {})
  {
    assert forall k' :: k' in listing + [k] <==> k' in listing || k' == k;
  }

  /** The stale keys among the collapsed entries named in `names`. */
  function StaleAmong(latest: map<string, Version>, fs: map<string, int>, names: set<string>): set<string>
  {
    set n | n in latest && n in names && IsStale(latest, fs, n) :: Rebuilt(n, latest[n])
  }

  lemma StaleAmongAdd(latest: map<string, Version>, fs: map<string, int>, names: set<string>, n: string)
    requires n in latest
    ensures StaleAmong(latest, fs, names + {n}) ==
      StaleAmong(latest, fs, names) + (if IsStale(latest, fs, n) then {Rebuilt(n, latest[n])} else {})
  {
  }

  lemma StaleAmongAll(latest: map<string, Version>, fs: map<string, int>, names: set<string>)
    requires latest.Keys <= names
    ensures StaleAmong(latest, fs, names) == Stale(latest, fs)
  {
  }

  /** The loads started for the filesystem identities named in `names`. */
  function InsertsAmong(latest: map<string, Version>, fs: map<string, int>, names: set<string>): set<string>
  {
    set n | n in fs && n in names && n !in latest :: Rebuilt(n, fs[n])
  }

  lemma InsertsAmongAdd(latest: map<string, Version>, fs: map<string, int>, names: set<string>, n: string)
    requires n in fs
    ensures InsertsAmong(latest, fs, names + {n}) ==
      InsertsAmong(latest, fs, names) + (if n !in latest then {Rebuilt(n, fs[n])} else {})
  {
  }

  lemma InsertsAmongNext(latest: map<string, Version>, fs: map<string, int>, pending: set<string>, n: string)
    requires n in pending && pending <= fs.Keys
    ensures InsertsAmong(latest, fs, fs.Keys - (pending - {n})) ==
      InsertsAmong(latest, fs, fs.Keys - pending) + (if n !in latest then {Rebuilt(n, fs[n])} else {})
  {
    SetMinusShrink(fs.Keys, pending, n);
    InsertsAmongAdd(latest, fs, fs.Keys - pending, n);
  }

  lemma InsertsAmongAll(latest: map<string, Version>, fs: map<string, int>, names: set<string>)
    requires fs.Keys <= names
    ensures InsertsAmong(latest, fs, names) == Inserts(latest, fs)
  {
  }
}
