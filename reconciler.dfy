/**
 * The reconciliation step of `updateDb`: given the filesystem inventory
 * and the list of keys in the `blog` bucket, decide which keys to remove
 * and which articles to load. The four stages are the merge of the
 * inventory, the sanitising filter, the de-duplicating reduce and the
 * stale/insert scan. Removals are collected as a set of keys: the store
 * removes by key and removing an absent key does nothing, so the order in
 * which the source issues them does not matter.
 */
module Reconciler {
  import opened Text
  import opened KeyCodec

  /** One entry of the filesystem inventory: `{category + '_' + slug: mtime}`. */
  datatype FsEntry = FsEntry(name: string, mtime: int)

  /** No later entry has the same name as entry `i`. */
  predicate LastOf(entries: seq<FsEntry>, i: nat)
    requires i < |entries|
  {
    forall j :: i < j < |entries| ==> entries[j].name != entries[i].name
  }

  /** `_.extend(e1, e2, ...)`: entries merged left to right, a later entry overriding an earlier one. */
  function Extend(entries: seq<FsEntry>): map<string, int>
  {
    if entries == [] then map[]
    else
      var e := entries[|entries| - 1];
      Extend(entries[..|entries| - 1])[e.name := e.mtime]
  }

  /** The merged inventory holds exactly the names of the entries. */
  lemma {:induction false} ExtendKeys(entries: seq<FsEntry>, n: string)
    ensures n in Extend(entries) <==> exists i :: 0 <= i < |entries| && entries[i].name == n
  {
    if entries != [] {
      var prefix := entries[..|entries| - 1];
      ExtendKeys(prefix, n);
      assert forall i :: 0 <= i < |prefix| ==> prefix[i] == entries[i];
      if n in Extend(prefix) {
        var i :| 0 <= i < |prefix| && prefix[i].name == n;
        assert entries[i].name == n;
      }
    }
  }

  /** The last entry carrying a name decides its value. */
  lemma {:induction false} ExtendLast(entries: seq<FsEntry>, i: nat)
    requires i < |entries| && LastOf(entries, i)
    ensures entries[i].name in Extend(entries) && Extend(entries)[entries[i].name] == entries[i].mtime
  {
    var prefix := entries[..|entries| - 1];
    if i < |prefix| {
      assert prefix[i] == entries[i];
      assert LastOf(prefix, i) by {
        forall j | i < j < |prefix| ensures prefix[j].name != prefix[i].name {
          assert prefix[j] == entries[j];
        }
      }
      ExtendLast(prefix, i);
    }
  }

  /**
   * `_.extend.apply(null, entries)`: with no entries at all the call yields
   * `undefined`, which is `None` here.
   */
  function Inventory(entries: seq<FsEntry>): (fs: Option<map<string, int>>)
    ensures fs.None? <==> entries == []
  {
    if entries == [] then None else Some(Extend(entries))
  }

  /** The keys the sanitising filter throws away. */
  function Purged(listing: seq<string>): set<string>
  {
    set k | k in listing && Decode(k).None?
  }

  /** The `{categorySlug: mtime}` object the map stage builds from a decoded key. */
  datatype Entry = Entry(name: string, mtime: Version)

  function EntryOf(d: Decoded): Entry { Entry(NameOf(d), d.mtime) }

  /** The entries of the keys that pass the sanitising filter, in listing order. */
  function Survivors(listing: seq<string>): seq<Entry>
  {
    if listing == [] then []
    else
      var prefix := listing[..|listing| - 1];
      match Decode(listing[|listing| - 1])
      case None => Survivors(prefix)
      case Some(d) => Survivors(prefix) + [EntryOf(d)]
  }

  /** The survivors are exactly the decodings of the keys that decode. */
  lemma {:induction false} SurvivorsMembers(listing: seq<string>, e: Entry)
    ensures e in Survivors(listing) <==> exists k :: k in listing && Decode(k).Some? && EntryOf(Decode(k).value) == e
  {
    if listing != [] {
      var prefix := listing[..|listing| - 1];
      var k := listing[|listing| - 1];
      assert forall k' :: k' in listing <==> k' in prefix || k' == k;
      SurvivorsMembers(prefix, e);
    }
  }

  /** The accumulator of the reduce: newest version per identity, and the keys it removed. */
  datatype Versions = Versions(latest: map<string, Version>, dups: set<string>)

  function RebuiltOf(e: Entry): string { Rebuilt(e.name, e.mtime) }

  /** One step of the reduce: extend, or keep the newer and remove the other (rebuilt) key. */
  function CollapseStep(acc: Versions, d: Entry): Versions
  {
    var n := d.name;
    if n !in acc.latest then Versions(acc.latest[n := d.mtime], acc.dups)
    else if acc.latest[n] < d.mtime then Versions(acc.latest[n := d.mtime], acc.dups + {Rebuilt(n, acc.latest[n])})
    else Versions(acc.latest, acc.dups + {Rebuilt(n, d.mtime)})
  }

  /** The reduce over the decoded keys, left to right, starting from `{}`. */
  function Collapse(ds: seq<Entry>): Versions
  {
    if ds == [] then Versions(map[], {})
    else CollapseStep(Collapse(ds[..|ds| - 1]), ds[|ds| - 1])
  }

  /**
   * Entry `i` is the first one carrying the newest version of its identity:
   * every other entry of the same identity is older, or equal and later.
   */
  predicate FirstMax(ds: seq<Entry>, i: nat)
    requires i < |ds|
  {
    forall j :: 0 <= j < |ds| && j != i && ds[j].name == ds[i].name ==>
      if j < i then ds[j].mtime < ds[i].mtime else ds[j].mtime <= ds[i].mtime
  }

  /** The reduce removes the rebuilt key of `k` for some entry that is not kept. */
  predicate Superseded(ds: seq<Entry>, k: string)
  {
    exists i {:trigger RebuiltOf(ds[i])} :: 0 <= i < |ds| && !FirstMax(ds, i) && RebuiltOf(ds[i]) == k
  }

  /** Every identity seen is in the collapsed map, at a version no older than any of its entries. */
  lemma {:induction false} CollapseCovers(ds: seq<Entry>, i: nat)
    requires i < |ds|
    ensures ds[i].name in Collapse(ds).latest
    ensures ds[i].mtime <= Collapse(ds).latest[ds[i].name]
  {
    var prefix := ds[..|ds| - 1];
    if i < |prefix| {
      assert prefix[i] == ds[i];
      CollapseCovers(prefix, i);
    }
  }

  /** How adding one entry at the end changes which earlier entry is the first newest. */
  lemma FirstMaxSnoc(ds: seq<Entry>, i: nat)
    requires i < |ds| - 1
    ensures var d := ds[|ds| - 1];
      FirstMax(ds, i) <==> FirstMax(ds[..|ds| - 1], i) && (ds[i].name != d.name || d.mtime <= ds[i].mtime)
  {
    var prefix := ds[..|ds| - 1];
    assert forall j :: 0 <= j < |prefix| ==> prefix[j] == ds[j];
  }

  /** Every identity in the collapsed map has a first newest entry whose version it holds. */
  lemma {:induction false} CollapseWitness(ds: seq<Entry>, n: string)
    requires n in Collapse(ds).latest
    ensures exists w :: 0 <= w < |ds| && ds[w].name == n && ds[w].mtime == Collapse(ds).latest[n] && FirstMax(ds, w)
  {
    var m := |ds| - 1;
    var prefix, d := ds[..m], ds[m];
    var acc := Collapse(prefix);
    if d.name == n && (n !in acc.latest || acc.latest[n] < d.mtime) {
      forall j | 0 <= j < m && ds[j].name == n ensures ds[j].mtime < d.mtime {
        assert prefix[j] == ds[j];
        CollapseCovers(prefix, j);
      }
      assert FirstMax(ds, m);
    } else {
      CollapseWitness(prefix, n);
      var w :| 0 <= w < m && prefix[w].name == n && prefix[w].mtime == acc.latest[n] && FirstMax(prefix, w);
      assert prefix[w] == ds[w];
      FirstMaxSnoc(ds, w);
    }
  }

  /** A first newest entry holds the version the collapsed map keeps. */
  lemma FirstMaxIsLatest(ds: seq<Entry>, i: nat)
    requires i < |ds| && FirstMax(ds, i)
    ensures ds[i].name in Collapse(ds).latest
    ensures ds[i].mtime == Collapse(ds).latest[ds[i].name]
  {
    CollapseCovers(ds, i);
    CollapseWitness(ds, ds[i].name);
  }

  /**
   * The de-duplicating reduce removes exactly the keys rebuilt from the
   * entries that are not the first newest of their identity: every older
   * version, and on a tie every version after the first seen.
   */
  lemma {:induction false} CollapseDups(ds: seq<Entry>, k: string)
    ensures k in Collapse(ds).dups <==> Superseded(ds, k)
  {
    if ds != [] {
      var m := |ds| - 1;
      var n := ds[m].name;
      var acc := Collapse(ds[..m]);
      CollapseDups(ds[..m], k);
      if n !in acc.latest {
        DupsFirstSeen(ds, k);
      } else if acc.latest[n] < ds[m].mtime {
        DupsNewer(ds, k);
      } else {
        DupsNotNewer(ds, k);
      }
    }
  }

  /**
   * When the entries before the last keep their status, and the last entry
   * adds `extra` (if anything), the superseded keys grow by `extra` only.
   */
  lemma SupersededSnoc(ds: seq<Entry>, k: string, lastKept: bool, extra: set<string>)
    requires ds != []
    requires lastKept == FirstMax(ds, |ds| - 1)
    requires forall i {:trigger FirstMax(ds, i)} :: 0 <= i < |ds| - 1 ==> (FirstMax(ds, i) <==> FirstMax(ds[..|ds| - 1], i))
    requires extra == if lastKept then {} else {RebuiltOf(ds[|ds| - 1])}
    ensures Superseded(ds, k) <==> Superseded(ds[..|ds| - 1], k) || k in extra
  {
    var m := |ds| - 1;
    var prefix := ds[..m];
    if Superseded(ds, k) {
      var i :| 0 <= i < |ds| && !FirstMax(ds, i) && RebuiltOf(ds[i]) == k;
      if i < m {
        assert prefix[i] == ds[i];
        assert Superseded(prefix, k);
      }
    }
    if Superseded(prefix, k) {
      var i :| 0 <= i < m && !FirstMax(prefix, i) && RebuiltOf(prefix[i]) == k;
      assert prefix[i] == ds[i];
      assert !FirstMax(ds, i);
    }
    if k in extra {
      assert !FirstMax(ds, m);
    }
  }

  /** The last entry is the first of its identity: nothing is removed. */
  lemma DupsFirstSeen(ds: seq<Entry>, k: string)
    requires ds != [] && ds[|ds| - 1].name !in Collapse(ds[..|ds| - 1]).latest
    requires k in Collapse(ds[..|ds| - 1]).dups <==> Superseded(ds[..|ds| - 1], k)
    ensures k in Collapse(ds).dups <==> Superseded(ds, k)
  {
    var m := |ds| - 1;
    var prefix, d := ds[..m], ds[m];
    var n := d.name;
    assert FirstMax(ds, m) by {
      forall j | 0 <= j < m ensures ds[j].name != n {
        assert prefix[j] == ds[j];
        CollapseCovers(prefix, j);
      }
    }
    forall i | 0 <= i < m ensures FirstMax(ds, i) <==> FirstMax(prefix, i) {
      assert prefix[i] == ds[i];
      CollapseCovers(prefix, i);
      FirstMaxSnoc(ds, i);
    }
    SupersededSnoc(ds, k, true, {});
  }

  /**
   * When the last entry is the new first newest of identity `n`, the earlier
   * first newest of `n` (at version `l`) becomes superseded as well.
   */
  lemma SupersededTakeover(ds: seq<Entry>, k: string, n: string, l: int, w: nat)
    requires ds != [] && ds[|ds| - 1].name == n && FirstMax(ds, |ds| - 1)
    requires forall i {:trigger FirstMax(ds, i)} :: 0 <= i < |ds| - 1 ==>
      (FirstMax(ds, i) <==> FirstMax(ds[..|ds| - 1], i) && ds[i].name != n)
    requires forall i {:trigger FirstMax(ds[..|ds| - 1], i)} :: 0 <= i < |ds| - 1 && FirstMax(ds[..|ds| - 1], i) && ds[i].name == n ==> ds[i].mtime == l
    requires w < |ds| - 1 && ds[w].name == n && ds[w].mtime == l
    ensures Superseded(ds, k) <==> Superseded(ds[..|ds| - 1], k) || k == Rebuilt(n, l)
  {
    TakeoverOnlyAdds(ds, k, n, l);
    var m := |ds| - 1;
    var prefix := ds[..m];
    if Superseded(prefix, k) {
      var i :| 0 <= i < m && !FirstMax(prefix, i) && RebuiltOf(prefix[i]) == k;
      assert prefix[i] == ds[i];
      assert !FirstMax(ds, i);
    }
    if k == Rebuilt(n, l) {
      assert !FirstMax(ds, w) && RebuiltOf(ds[w]) == k;
    }
  }

  lemma TakeoverOnlyAdds(ds: seq<Entry>, k: string, n: string, l: int)
    requires ds != [] && ds[|ds| - 1].name == n && FirstMax(ds, |ds| - 1)
    requires forall i {:trigger FirstMax(ds, i)} :: 0 <= i < |ds| - 1 ==>
      (FirstMax(ds, i) <==> FirstMax(ds[..|ds| - 1], i) && ds[i].name != n)
    requires forall i {:trigger FirstMax(ds[..|ds| - 1], i)} :: 0 <= i < |ds| - 1 && FirstMax(ds[..|ds| - 1], i) && ds[i].name == n ==> ds[i].mtime == l
    ensures Superseded(ds, k) ==> Superseded(ds[..|ds| - 1], k) || k == Rebuilt(n, l)
  {
    var m := |ds| - 1;
    var prefix := ds[..m];
    if Superseded(ds, k) {
      var i :| 0 <= i < |ds| && !FirstMax(ds, i) && RebuiltOf(ds[i]) == k;
      assert i < m;
      assert prefix[i] == ds[i];
      if !FirstMax(prefix, i) {
        assert Superseded(prefix, k);
      } else {
        assert ds[i].name == n && ds[i].mtime == l;
        assert k == Rebuilt(n, l);
      }
    }
  }

  /** The last entry is newer than the map's version: the key rebuilt from that version is removed. */
  lemma DupsNewer(ds: seq<Entry>, k: string)
    requires ds != [] && ds[|ds| - 1].name in Collapse(ds[..|ds| - 1]).latest
    requires Collapse(ds[..|ds| - 1]).latest[ds[|ds| - 1].name] < ds[|ds| - 1].mtime
    requires k in Collapse(ds[..|ds| - 1]).dups <==> Superseded(ds[..|ds| - 1], k)
    ensures k in Collapse(ds).dups <==> Superseded(ds, k)
  {
    var m := |ds| - 1;
    var prefix, d := ds[..m], ds[m];
    var n := d.name;
    var acc := Collapse(prefix);
    var l := acc.latest[n];
    CollapseWitness(prefix, n);
    var w :| 0 <= w < m && prefix[w].name == n && prefix[w].mtime == l && FirstMax(prefix, w);
    assert prefix[w] == ds[w];
    assert Collapse(ds).dups == acc.dups + {Rebuilt(n, l)};
    assert FirstMax(ds, m) by {
      forall j | 0 <= j < m && ds[j].name == n ensures ds[j].mtime < d.mtime {
        assert prefix[j] == ds[j];
        CollapseCovers(prefix, j);
      }
    }
    forall i | 0 <= i < m
      ensures FirstMax(ds, i) <==> FirstMax(prefix, i) && ds[i].name != n
    {
      assert prefix[i] == ds[i];
      CollapseCovers(prefix, i);
      FirstMaxSnoc(ds, i);
    }
    forall i | 0 <= i < m && FirstMax(prefix, i) && ds[i].name == n ensures ds[i].mtime == l {
      assert prefix[i] == ds[i];
      FirstMaxIsLatest(prefix, i);
    }
    SupersededTakeover(ds, k, n, l, w);
  }

  /** The last entry is not newer: its own rebuilt key is removed. */
  lemma DupsNotNewer(ds: seq<Entry>, k: string)
    requires ds != [] && ds[|ds| - 1].name in Collapse(ds[..|ds| - 1]).latest
    requires ds[|ds| - 1].mtime <= Collapse(ds[..|ds| - 1]).latest[ds[|ds| - 1].name]
    requires k in Collapse(ds[..|ds| - 1]).dups <==> Superseded(ds[..|ds| - 1], k)
    ensures k in Collapse(ds).dups <==> Superseded(ds, k)
  {
    var m := |ds| - 1;
    var prefix, d := ds[..m], ds[m];
    var n := d.name;
    var acc := Collapse(prefix);
    CollapseWitness(prefix, n);
    var w :| 0 <= w < m && prefix[w].name == n && prefix[w].mtime == acc.latest[n] && FirstMax(prefix, w);
    assert prefix[w] == ds[w];
    assert Collapse(ds).dups == acc.dups + {RebuiltOf(d)};
    assert !FirstMax(ds, m) by {
      assert ds[w].name == n && w < m && !(ds[w].mtime < d.mtime);
    }
    forall i | 0 <= i < m ensures FirstMax(ds, i) <==> FirstMax(prefix, i) {
      assert prefix[i] == ds[i];
      FirstMaxSnoc(ds, i);
      if FirstMax(prefix, i) && ds[i].name == n {
        FirstMaxIsLatest(prefix, i);
      }
    }
    SupersededSnoc(ds, k, false, {RebuiltOf(d)});
  }

  /** The test at db.js:95: the filesystem version of `n` is missing, falsy or different. */
  predicate IsStale(latest: map<string, Version>, fs: map<string, int>, n: string)
    requires n in latest
  {
    n !in fs || fs[n] == 0 || fs[n] != latest[n]
  }

  /** db.js:94-97: the rebuilt keys of the collapsed entries that are stale. */
  function Stale(latest: map<string, Version>, fs: map<string, int>): set<string>
  {
    set n | n in latest && IsStale(latest, fs, n) :: Rebuilt(n, latest[n])
  }

  /** db.js:100-103: the filesystem entries the collapsed store map does not hold. */
  function Inserts(latest: map<string, Version>, fs: map<string, int>): set<string>
  {
    set n | n in fs && n !in latest :: Rebuilt(n, fs[n])
  }

  datatype Plan = Plan(removals: set<string>, inserts: set<string>)

  /**
   * The result of the third step: a plan, or the TypeError thrown at
   * db.js:95 when the inventory is `undefined` and the store map is not
   * empty; the removals issued before the throw have happened.
   */
  datatype Outcome = Completed(plan: Plan) | Failed(issued: set<string>)
  {
    function Removals(): set<string>
    {
      match this
      case Completed(p) => p.removals
      case Failed(issued) => issued
    }

    function Inserted(): set<string>
    {
      match this
      case Completed(p) => p.inserts
      case Failed(_) => {}
    }
  }

  /** The third step of `updateDb`, from the inventory entries and the bucket's key listing. */
  function Reconcile(entries: seq<FsEntry>, listing: seq<string>): Outcome
  {
    var v := Collapse(Survivors(listing));
    var early := Purged(listing) + v.dups;
    match Inventory(entries)
    case None =>
      if v.latest == map[] then Completed(Plan(early, {})) else Failed(early)
    case Some(fs) =>
      Completed(Plan(early + Stale(v.latest, fs), Inserts(v.latest, fs)))
  }

  /** The collapsed map is empty exactly when no key survived the sanitising filter. */
  lemma CollapseEmpty(ds: seq<Entry>)
    ensures Collapse(ds).latest == map[] <==> ds == []
  {
    if ds != [] {
      CollapseCovers(ds, |ds| - 1);
    }
  }

  /**
   * The run fails exactly when the filesystem yields no entry while some
   * store key survives the sanitising filter; every malformed key is removed
   * in either case.
   */
  lemma ReconcileOutcome(entries: seq<FsEntry>, listing: seq<string>)
    ensures Reconcile(entries, listing).Failed? <==> entries == [] && Survivors(listing) != []
    ensures forall k :: k in listing && Decode(k).None? ==> k in Reconcile(entries, listing).Removals()
  {
    CollapseEmpty(Survivors(listing));
  }

  /** Apply a plan to the key set of the store, every load succeeding. */
  function Apply(store: set<string>, r: Outcome): (after: set<string>)
    ensures after <= store + r.Inserted()
    ensures forall k :: k in store && k !in r.Removals() ==> k in after
  {
    (store - r.Removals()) + r.Inserted()
  }

  /** The collapsed store map of a listing. */
  function Latest(listing: seq<string>): map<string, Version>
  {
    Collapse(Survivors(listing)).latest
  }

  /**
   * A collapsed store entry is removed exactly when the filesystem lacks its
   * identity or has another version; an entry whose version matches stays.
   */
  lemma StaleIff(latest: map<string, Version>, fs: map<string, int>, n: string)
    requires n in latest
    ensures Rebuilt(n, latest[n]) in Stale(latest, fs) <==> n !in fs || fs[n] != latest[n]
  {
    if Rebuilt(n, latest[n]) in Stale(latest, fs) {
      var n' :| n' in latest && IsStale(latest, fs, n')
        && Rebuilt(n', latest[n']) == Rebuilt(n, latest[n]);
      RebuiltInjective(n', latest[n'], n, latest[n]);
    }
  }

  /**
   * A load is started exactly for the filesystem identities the collapsed
   * store map lacks; an identity whose stored version differs is removed and
   * not loaded in the same run.
   */
  lemma InsertsIff(latest: map<string, Version>, fs: map<string, int>, n: string)
    requires n in fs
    ensures Rebuilt(n, fs[n]) in Inserts(latest, fs) <==> n !in latest
  {
    if Rebuilt(n, fs[n]) in Inserts(latest, fs) {
      var n' :| n' in fs && n' !in latest && Rebuilt(n', fs[n']) == Rebuilt(n, fs[n]);
      RebuiltInjective(n', fs[n'], n, fs[n]);
    }
  }

  lemma NoReinsertOnMismatch(entries: seq<FsEntry>, listing: seq<string>, n: string)
    requires entries != []
    requires n in Extend(entries) && n in Latest(listing)
    requires Extend(entries)[n] != Latest(listing)[n]
    ensures Rebuilt(n, Latest(listing)[n]) in Reconcile(entries, listing).Removals()
    ensures Rebuilt(n, Extend(entries)[n]) !in Reconcile(entries, listing).Inserted()
  {
    var fs := Extend(entries);
    StaleIff(Latest(listing), fs, n);
    InsertsIff(Latest(listing), fs, n);
  }

  /** Every key decodes, to an identity the inventory holds at that very version. */
  predicate AllMatch(fs: map<string, int>, listing: seq<string>)
  {
    forall k :: k in listing ==>
      Decode(k).Some? && NameOf(Decode(k).value) in fs && fs[NameOf(Decode(k).value)] == Decode(k).value.mtime
  }

  /** No two keys of the listing decode to the same identity. */
  predicate DistinctNames(listing: seq<string>)
  {
    forall i, j :: 0 <= i < j < |listing| && Decode(listing[i]).Some? && Decode(listing[j]).Some? ==>
      NameOf(Decode(listing[i]).value) != NameOf(Decode(listing[j]).value)
  }

  /** Some key of the listing decodes to identity `n`. */
  predicate Holds(listing: seq<string>, n: string)
  {
    exists k :: k in listing && Decode(k).Some? && NameOf(Decode(k).value) == n
  }

  /** When every key decodes, the survivors are the decoded keys, one for one. */
  lemma {:induction false} SurvivorsAll(listing: seq<string>)
    requires forall k :: k in listing ==> Decode(k).Some?
    ensures |Survivors(listing)| == |listing|
    ensures forall i :: 0 <= i < |listing| ==> Survivors(listing)[i] == EntryOf(Decode(listing[i]).value)
  {
    if listing != [] {
      var prefix := listing[..|listing| - 1];
      var k := listing[|listing| - 1];
      assert k in listing;
      assert forall i :: 0 <= i < |prefix| ==> prefix[i] == listing[i];
      SurvivorsAll(prefix);
      var ds, d := Survivors(prefix), EntryOf(Decode(k).value);
      assert Survivors(listing) == ds + [d];
      assert forall i :: 0 <= i < |prefix| ==> (ds + [d])[i] == ds[i];
    }
  }

  /** Entries of distinct identities are all kept, each at its own version. */
  lemma CollapseDistinct(ds: seq<Entry>)
    requires forall i, j :: 0 <= i < j < |ds| ==> ds[i].name != ds[j].name
    ensures Collapse(ds).dups == {}
    ensures forall i :: 0 <= i < |ds| ==>
      ds[i].name in Collapse(ds).latest && Collapse(ds).latest[ds[i].name] == ds[i].mtime
  {
    forall i | 0 <= i < |ds| ensures ds[i].name in Collapse(ds).latest && Collapse(ds).latest[ds[i].name] == ds[i].mtime {
      assert FirstMax(ds, i);
      FirstMaxIsLatest(ds, i);
    }
    forall k ensures k !in Collapse(ds).dups {
      CollapseDups(ds, k);
    }
  }

  /** The collapsed map of a listing holds exactly the identities its keys decode to. */
  lemma LatestKeys(listing: seq<string>, n: string)
    ensures n in Latest(listing) <==> Holds(listing, n)
  {
    var ds := Survivors(listing);
    if n in Latest(listing) {
      CollapseWitness(ds, n);
      var w :| 0 <= w < |ds| && ds[w].name == n && ds[w].mtime == Latest(listing)[n] && FirstMax(ds, w);
      SurvivorsMembers(listing, ds[w]);
    }
    if Holds(listing, n) {
      var k :| k in listing && Decode(k).Some? && NameOf(Decode(k).value) == n;
      SurvivorsMembers(listing, EntryOf(Decode(k).value));
      var i :| 0 <= i < |ds| && ds[i] == EntryOf(Decode(k).value);
      CollapseCovers(ds, i);
    }
  }

  /**
   * A store whose keys each carry a distinct filesystem identity at its
   * filesystem version loses nothing, and gains a load exactly for each
   * filesystem identity it has no key for.
   */
  lemma MatchingRun(entries: seq<FsEntry>, listing: seq<string>)
    requires entries != [] && AllMatch(Extend(entries), listing) && DistinctNames(listing)
    ensures Reconcile(entries, listing).Completed?
    ensures Reconcile(entries, listing).Removals() == {}
    ensures forall n :: n in Extend(entries) ==>
      (Rebuilt(n, Extend(entries)[n]) in Reconcile(entries, listing).Inserted() <==> !Holds(listing, n))
    ensures forall k :: k in Reconcile(entries, listing).Inserted() ==>
      exists n :: n in Extend(entries) && k == Rebuilt(n, Extend(entries)[n])
  {
    var fs := Extend(entries);
    var ds := Survivors(listing);
    var latest := Latest(listing);
    SurvivorsAll(listing);
    CollapseDistinct(ds);
    assert Purged(listing) == {};
    forall n | n in latest ensures n in fs && fs[n] == latest[n] {
      LatestKeys(listing, n);
      var k :| k in listing && Decode(k).Some? && NameOf(Decode(k).value) == n;
      var i :| 0 <= i < |listing| && listing[i] == k;
    }
    assert Stale(latest, fs) == {};
    forall n | n in fs ensures Rebuilt(n, fs[n]) in Inserts(latest, fs) <==> !Holds(listing, n) {
      InsertsIff(latest, fs, n);
      LatestKeys(listing, n);
    }
  }

  /**
   * Idempotence: a store holding exactly one key per filesystem identity,
   * at the filesystem version, is left as it is.
   */
  lemma Idempotent(entries: seq<FsEntry>, listing: seq<string>)
    requires entries != [] && AllMatch(Extend(entries), listing) && DistinctNames(listing)
    requires forall n :: n in Extend(entries) ==> Holds(listing, n)
    ensures Reconcile(entries, listing) == Completed(Plan({}, {}))
  {
    MatchingRun(entries, listing);
    assert Reconcile(entries, listing).Inserted() == {};
  }

  /** The keys of a listing, as the set the store holds. */
  function Keys(listing: seq<string>): (keys: set<string>)
    ensures forall k :: k in keys <==> k in listing
  {
    set k | k in listing
  }

  /** The store the inventory asks for: one rebuilt key per identity, at its filesystem version. */
  function Target(fs: map<string, int>): set<string>
  {
    set n | n in fs :: Rebuilt(n, fs[n])
  }

  /** Every name is a two-part identity and every version passes the `!mtime` test. */
  predicate WellFormed(fs: map<string, int>)
  {
    forall n :: n in fs ==> IsIdentity(n) && fs[n] != 0
  }

  /**
   * After one run on a store whose valid keys are canonical, the store holds
   * only keys the inventory asks for: a canonical key survives only as the
   * first newest of its identity, at the filesystem version.
   */
  lemma FirstRunWithinTarget(entries: seq<FsEntry>, listing: seq<string>)
    requires entries != []
    requires forall k :: k in listing ==> Decode(k).None? || Canonical(k)
    ensures Apply(Keys(listing), Reconcile(entries, listing)) <= Target(Extend(entries))
  {
    var fs := Extend(entries);
    var ds := Survivors(listing);
    var latest := Latest(listing);
    var r := Reconcile(entries, listing);
    forall k | k in Apply(Keys(listing), r) ensures k in Target(fs) {
      if k !in r.Inserted() {
        assert k in listing && k !in Purged(listing);
        var e := EntryOf(Decode(k).value);
        var n := e.name;
        assert k == RebuiltOf(e);
        SurvivorsMembers(listing, e);
        var i :| 0 <= i < |ds| && ds[i] == e;
        CollapseDups(ds, k);
        assert FirstMax(ds, i);
        FirstMaxIsLatest(ds, i);
        StaleIff(latest, fs, n);
        assert k == Rebuilt(n, fs[n]);
      }
    }
  }

  /** A key the inventory asks for decodes to the identity it was rebuilt from, at the filesystem version. */
  lemma TargetKey(fs: map<string, int>, k: string)
    requires WellFormed(fs) && k in Target(fs)
    ensures Decode(k).Some? && NameOf(Decode(k).value) in fs
    ensures k == Rebuilt(NameOf(Decode(k).value), fs[NameOf(Decode(k).value)])
    ensures fs[NameOf(Decode(k).value)] == Decode(k).value.mtime
  {
    var n :| n in fs && k == Rebuilt(n, fs[n]);
    DecodeRebuilt(n, fs[n]);
  }

  /**
   * A second run on a store that holds distinct keys, all of them asked for
   * by the inventory, removes nothing and loads the rest: the store then
   * holds exactly what the inventory asks for.
   */
  lemma SecondRunReachesTarget(entries: seq<FsEntry>, listing: seq<string>)
    requires entries != [] && WellFormed(Extend(entries))
    requires forall i, j :: 0 <= i < j < |listing| ==> listing[i] != listing[j]
    requires Keys(listing) <= Target(Extend(entries))
    ensures Reconcile(entries, listing).Removals() == {}
    ensures Apply(Keys(listing), Reconcile(entries, listing)) == Target(Extend(entries))
  {
    var fs := Extend(entries);
    forall k | k in listing
      ensures Decode(k).Some? && NameOf(Decode(k).value) in fs
      ensures k == Rebuilt(NameOf(Decode(k).value), fs[NameOf(Decode(k).value)])
      ensures fs[NameOf(Decode(k).value)] == Decode(k).value.mtime
    {
      TargetKey(fs, k);
    }
    assert AllMatch(fs, listing);
    assert DistinctNames(listing);
    MatchingRun(entries, listing);
    var r := Reconcile(entries, listing);
    forall k | k in Target(fs) ensures k in Apply(Keys(listing), r) {
      var n :| n in fs && k == Rebuilt(n, fs[n]);
      if Holds(listing, n) {
        var k' :| k' in listing && Decode(k').Some? && NameOf(Decode(k').value) == n;
        assert k' == k;
      }
    }
  }

  /**
   * Convergence over two runs: starting from a store whose valid keys are
   * canonical, and an inventory of two-part identities with non-zero
   * versions, the second run leaves the store holding exactly one key per
   * filesystem identity at its filesystem version.
   */
  lemma Converges(entries: seq<FsEntry>, first: seq<string>, second: seq<string>)
    requires entries != [] && WellFormed(Extend(entries))
    requires forall k :: k in first ==> Decode(k).None? || Canonical(k)
    requires forall i, j :: 0 <= i < j < |second| ==> second[i] != second[j]
    requires Keys(second) == Apply(Keys(first), Reconcile(entries, first))
    ensures Apply(Keys(second), Reconcile(entries, second)) == Target(Extend(entries))
  {
    FirstRunWithinTarget(entries, first);
    SecondRunReachesTarget(entries, second);
  }

  /**
   * One run from a single canonical key at version `v`, against an
   * inventory that holds version `w` of the same identity: the old key is
   * removed and the new version is not loaded, so the store is left empty
   * although the inventory asks for one key.
   */
  lemma StaleNotReloaded(c: string, sl: string, v: Version, w: Version)
    requires IsComponent(c) && IsComponent(sl) && w != v
    ensures var r := Reconcile([FsEntry(Name(c, sl), w)], [Encode(c, sl, v)]);
      Apply({Encode(c, sl, v)}, r) == {} && Target(Extend([FsEntry(Name(c, sl), w)])) == {Encode(c, sl, w)}
  {
    var n := Name(c, sl);
    DecodeEncode(c, sl, v);
    RunOne(Encode(c, sl, v), Decoded(c, sl, v), w);
    ExtendOne(FsEntry(n, w));
    var fs := map[n := w];
    assert n in fs;
    assert Target(fs) == {Encode(c, sl, w)};
  }

  /**
   * The load set the stale scan evidently intends: every filesystem
   * identity the collapsed store map lacks, and every identity whose stored
   * version is removed as stale, loaded at its filesystem version.
   */
  function InsertsIntended(latest: map<string, Version>, fs: map<string, int>): set<string>
  {
    set n | n in fs && (n !in latest || IsStale(latest, fs, n)) :: Rebuilt(n, fs[n])
  }

  /** A load starts exactly for the identities the store lacks or holds at another version. */
  lemma InsertsIntendedIff(latest: map<string, Version>, fs: map<string, int>, n: string)
    requires n in fs
    ensures Rebuilt(n, fs[n]) in InsertsIntended(latest, fs) <==> n !in latest || fs[n] == 0 || fs[n] != latest[n]
  {
    if Rebuilt(n, fs[n]) in InsertsIntended(latest, fs) {
      var n' :| n' in fs && (n' !in latest || IsStale(latest, fs, n')) && Rebuilt(n', fs[n']) == Rebuilt(n, fs[n]);
      RebuiltInjective(n', fs[n'], n, fs[n]);
    }
  }

  /** The run with the intended load set: the same removals, and stale identities loaded again. */
  function ReconcileIntended(entries: seq<FsEntry>, listing: seq<string>): Outcome
  {
    var r := Reconcile(entries, listing);
    if entries == [] then r
    else Completed(Plan(r.Removals(), InsertsIntended(Latest(listing), Extend(entries))))
  }

  /**
   * With distinct store keys, valid keys canonical, no two survivors of the
   * sanitising filter are equal: an entry determines its canonical key.
   */
  lemma {:induction false} SurvivorsUnique(listing: seq<string>)
    requires forall i, j :: 0 <= i < j < |listing| ==> listing[i] != listing[j]
    requires forall k :: k in listing ==> Decode(k).None? || Canonical(k)
    ensures forall i, j :: 0 <= i < j < |Survivors(listing)| ==> Survivors(listing)[i] != Survivors(listing)[j]
  {
    if listing != [] {
      var prefix := listing[..|listing| - 1];
      var k := listing[|listing| - 1];
      SurvivorsUnique(prefix);
      if Decode(k).Some? {
        var e := EntryOf(Decode(k).value);
        forall k' | k' in prefix && Decode(k').Some? ensures EntryOf(Decode(k').value) != e {
          var i :| 0 <= i < |prefix| && prefix[i] == k';
          assert listing[i] == k';
          assert k' == RebuiltOf(EntryOf(Decode(k').value));
        }
        SurvivorsMembers(prefix, e);
      }
    }
  }

  /**
   * An identity whose newest stored version matches the filesystem keeps
   * its canonical key through the run, when the store keys are distinct.
   */
  lemma MatchingKeyKept(entries: seq<FsEntry>, listing: seq<string>, n: string)
    requires entries != []
    requires forall i, j :: 0 <= i < j < |listing| ==> listing[i] != listing[j]
    requires forall k :: k in listing ==> Decode(k).None? || Canonical(k)
    requires n in Extend(entries) && n in Latest(listing) && Extend(entries)[n] == Latest(listing)[n]
    ensures Rebuilt(n, Latest(listing)[n]) in listing
    ensures Rebuilt(n, Latest(listing)[n]) !in Reconcile(entries, listing).Removals()
  {
    var ds := Survivors(listing);
    var latest := Latest(listing);
    var k := Rebuilt(n, latest[n]);
    CollapseWitness(ds, n);
    var w :| 0 <= w < |ds| && ds[w].name == n && ds[w].mtime == latest[n] && FirstMax(ds, w);
    assert RebuiltOf(ds[w]) == k;
    SurvivorsMembers(listing, ds[w]);
    var key :| key in listing && Decode(key).Some? && EntryOf(Decode(key).value) == ds[w];
    assert key == k;
    SurvivorsUnique(listing);
    FirstMaxKept(ds, w);
    CollapseDups(ds, k);
    StaleIff(latest, Extend(entries), n);
  }

  /** When no two entries are equal, the rebuilt key of a first newest entry is not removed by the reduce. */
  lemma FirstMaxKept(ds: seq<Entry>, w: nat)
    requires w < |ds| && FirstMax(ds, w)
    requires forall i, j :: 0 <= i < j < |ds| ==> ds[i] != ds[j]
    ensures !Superseded(ds, RebuiltOf(ds[w]))
  {
    forall i | 0 <= i < |ds| && RebuiltOf(ds[i]) == RebuiltOf(ds[w]) ensures i == w {
      RebuiltInjective(ds[i].name, ds[i].mtime, ds[w].name, ds[w].mtime);
      assert ds[i] == ds[w];
    }
  }

  /**
   * One-run convergence of the intended stale scan: from a store of
   * distinct keys whose valid keys are canonical, one run leaves exactly one
   * key per filesystem identity, at its filesystem version.
   */
  lemma ConvergesIntended(entries: seq<FsEntry>, listing: seq<string>)
    requires entries != [] && WellFormed(Extend(entries))
    requires forall i, j :: 0 <= i < j < |listing| ==> listing[i] != listing[j]
    requires forall k :: k in listing ==> Decode(k).None? || Canonical(k)
    ensures Apply(Keys(listing), ReconcileIntended(entries, listing)) == Target(Extend(entries))
  {
    var fs := Extend(entries);
    var latest := Latest(listing);
    var r := Reconcile(entries, listing);
    var ri := ReconcileIntended(entries, listing);
    FirstRunWithinTarget(entries, listing);
    forall k | k in Apply(Keys(listing), ri) ensures k in Target(fs) {
      if k !in ri.Inserted() {
        assert k in Apply(Keys(listing), r);
      }
    }
    forall k | k in Target(fs) ensures k in Apply(Keys(listing), ri) {
      var n :| n in fs && k == Rebuilt(n, fs[n]);
      InsertsIntendedIff(latest, fs, n);
      if n in latest && fs[n] == latest[n] {
        MatchingKeyKept(entries, listing, n);
      }
    }
  }

  lemma SurvivorsOne(k: string)
    ensures Survivors([k]) == if Decode(k).Some? then [EntryOf(Decode(k).value)] else []
  {
    assert [k][..0] == [];
  }

  lemma ExtendOne(e: FsEntry)
    ensures Extend([e]) == map[e.name := e.mtime]
  {
    assert [e][..0] == [];
  }

  lemma SurvivorsTwo(k1: string, k2: string)
    requires Decode(k1).Some? && Decode(k2).Some?
    ensures Survivors([k1, k2]) == [EntryOf(Decode(k1).value), EntryOf(Decode(k2).value)]
  {
    assert [k1, k2][..1] == [k1];
    SurvivorsOne(k1);
  }

  /** Two entries with the same identity and version: the second one's rebuilt key is removed. */
  lemma CollapseTie(d: Entry)
    ensures Collapse([d, d]) == Versions(map[d.name := d.mtime], {RebuiltOf(d)})
  {
    assert [d, d][..1] == [d];
    assert [d][..0] == [];
    var one := Collapse([d]);
    var none := Collapse([]);
    assert none == Versions(map[], {});
    assert one == CollapseStep(none, d);
    assert one == Versions(map[d.name := d.mtime], {});
    assert Collapse([d, d]) == CollapseStep(one, d);
  }

  lemma StaleOne(n: string, v: Version, w: int)
    ensures Stale(map[n := v], map[n := w]) == if w == v then {} else {Rebuilt(n, v)}
  {
    var latest, fs := map[n := v], map[n := w];
    assert n in latest && latest[n] == v;
    forall k | k in Stale(latest, fs) ensures k == Rebuilt(n, v) && w != v {
      var n' :| n' in latest && IsStale(latest, fs, n') && k == Rebuilt(n', latest[n']);
      assert n' == n;
    }
    if w != v {
      assert Rebuilt(n, latest[n]) in Stale(latest, fs);
    }
  }

  /** A run over one store key that decodes, against one inventory entry of the same identity. */
  lemma RunOne(key: string, d: Decoded, w: int)
    requires Decode(key) == Some(d)
    ensures Reconcile([FsEntry(NameOf(d), w)], [key])
      == Completed(Plan(if w == d.mtime then {} else {Rebuilt(NameOf(d), d.mtime)}, {}))
  {
    var n := NameOf(d);
    var e := EntryOf(d);
    SurvivorsOne(key);
    assert Collapse([e]) == Versions(map[n := d.mtime], {}) by {
      assert [e][..0] == [];
    }
    ExtendOne(FsEntry(n, w));
    assert Collapse(Survivors([key])) == Versions(map[n := d.mtime], {});
    assert Inventory([FsEntry(n, w)]) == Some(map[n := w]);
    assert Purged([key]) == {};
    assert Inserts(map[n := d.mtime], map[n := w]) == {};
    StaleOne(n, d.mtime, w);
  }

  /**
   * A valid key with extra parts is never removed by its rebuilt key: when
   * the filesystem holds another version, the run removes a key the store
   * does not have and loads nothing, so the store stays as it is on every
   * run and the new version is never loaded.
   */
  lemma NonCanonicalStalePersists(c: string, sl: string, v: Version, extra: string, w: int)
    requires IsComponent(c) && IsComponent(sl) && w != v
    ensures var key := Encode(c, sl, v) + [Separator] + extra;
      var r := Reconcile([FsEntry(Name(c, sl), w)], [key]);
      r.Inserted() == {} && Apply({key}, r) == {key}
  {
    var key := Encode(c, sl, v) + [Separator] + extra;
    DecodeIgnoresExtraParts(c, sl, v, extra);
    RunOne(key, Decoded(c, sl, v), w);
    assert key != Encode(c, sl, v) by {
      assert |key| > |Encode(c, sl, v)|;
    }
  }

  /** A run over two store keys that decode alike, against the matching inventory entry. */
  lemma RunTie(k1: string, k2: string, d: Decoded)
    requires Decode(k1) == Some(d) && Decode(k2) == Some(d)
    ensures Reconcile([FsEntry(NameOf(d), d.mtime)], [k1, k2]) == Completed(Plan({Rebuilt(NameOf(d), d.mtime)}, {}))
  {
    var n := NameOf(d);
    SurvivorsTwo(k1, k2);
    CollapseTie(EntryOf(d));
    ExtendOne(FsEntry(n, d.mtime));
    assert Purged([k1, k2]) == {};
    StaleOne(n, d.mtime, d.mtime);
    assert Inserts(map[n := d.mtime], map[n := d.mtime]) == {};
  }

  /**
   * On a tie the removal key is rebuilt from the later entry: when a
   * zero-padded twin comes first, the canonical key is the one removed and
   * the padded key is kept.
   */
  lemma TieRemovesCanonical(c: string, sl: string, v: nat)
    requires IsComponent(c) && IsComponent(sl) && v > 0
    ensures var padded := Name(c, sl) + [Separator] + "0" + NatToString(v);
      var r := Reconcile([FsEntry(Name(c, sl), v)], [padded, Encode(c, sl, v)]);
      r == Completed(Plan({Encode(c, sl, v)}, {})) && Apply({padded, Encode(c, sl, v)}, r) == {padded}
  {
    var padded := Name(c, sl) + [Separator] + "0" + NatToString(v);
    var key := Encode(c, sl, v);
    DecodeIgnoresLeadingZeros(c, sl, v);
    DecodeEncode(c, sl, v);
    RunTie(padded, key, Decoded(c, sl, v));
    assert padded != key by {
      assert |padded| > |key|;
    }
  }

  /** A run over one malformed store key rebuilt from the one inventory entry. */
  lemma RunPurged(n: string, v: int)
    requires Decode(Rebuilt(n, v)).None?
    ensures Reconcile([FsEntry(n, v)], [Rebuilt(n, v)]) == Completed(Plan({Rebuilt(n, v)}, {Rebuilt(n, v)}))
  {
    var key := Rebuilt(n, v);
    SurvivorsOne(key);
    ExtendOne(FsEntry(n, v));
    assert Purged([key]) == {key};
    var empty: map<string, Version> := map[];
    assert Collapse([]) == Versions(empty, {});
    assert n in map[n := v] && n !in empty;
    assert Inserts(empty, map[n := v]) == {key};
  }

  lemma ThreePartKeyPurged(c: string, sl: string, t: string, v: int)
    requires IsComponent(c) && IsComponent(sl)
    requires Separator !in t && (t == [] || (!IsDigit(t[0]) && t[0] != '-' && t[0] != '+'))
    ensures Decode(Rebuilt(Name(c, sl) + [Separator] + t, v)).None?
  {
    var rest := t + [Separator] + IntToString(v);
    assert Rebuilt(Name(c, sl) + [Separator] + t, v) == Name(c, sl) + [Separator] + rest;
    SplitKey(c, sl, rest);
    SplitCons(t, IntToString(v), Separator);
    NoMagnitude(t);
  }

  /** A piece that does not start with a sign or a digit parses to NaN. */
  lemma NoMagnitude(t: string)
    requires t == [] || (!IsDigit(t[0]) && t[0] != '-' && t[0] != '+')
    ensures ParseInt(t).None?
  {
  }

  /**
   * An inventory name with a third part that is not a number is loaded under
   * a key the next run purges, and loaded again in that same run: the key is
   * removed and saved on every run.
   */
  lemma ThreePartNameChurns(c: string, sl: string, t: string, v: int)
    requires IsComponent(c) && IsComponent(sl)
    requires Separator !in t && (t == [] || (!IsDigit(t[0]) && t[0] != '-' && t[0] != '+'))
    ensures var n := Name(c, sl) + [Separator] + t;
      var r := Reconcile([FsEntry(n, v)], [Rebuilt(n, v)]);
      r == Completed(Plan({Rebuilt(n, v)}, {Rebuilt(n, v)}))
  {
    ThreePartKeyPurged(c, sl, t, v);
    RunPurged(Name(c, sl) + [Separator] + t, v);
  }
}
