/**
 * The request handlers of routes.js, minus Express and the store's
 * map/reduce: the month interval of a `?month=YYYY-MM` query, the
 * per-category article counts and their memo, the article list
 * post-processing, and the single-article lookup. What the store's queries
 * return is an input.
 */
module Routes {
  import opened Text
  import opened KeyCodec
  import opened DateUtc
  import opened Store

  /** `{start, end}`: time values in milliseconds; `None` stands for NaN. */
  datatype Interval = Interval(start: Option<int>, end: Option<int>)

  /**
   * `month_to_interval(month)`: the year and the month are `parseInt` of the
   * parts around the first `-`; `start` is `Date.UTC` of the first day of
   * that month and `end` one millisecond before the first day of the next.
   */
  function MonthToInterval(month: string): Interval
  {
    var parts := Split(month, '-');
    var year := ParseInt(parts[0]);
    var mon := if |parts| >= 2 then ParseInt(parts[1]) else None;
    if year.None? || mon.None? then Interval(None, None)
    else
      var next := Utc(year.value, mon.value);
      Interval(Utc(year.value, mon.value - 1), if next.Some? then Some(next.value - 1) else None)
  }

  /**
   * For a year and a month from 1 to 12 within the time range, `start` is
   * midnight UTC on the first day of that month, and the interval covers
   * exactly the days of the month, inclusively: `end` is one millisecond
   * before the first day of the next month, January of the next year after
   * December. A two-digit year stands for 19xx.
   */
  lemma MonthInterval(month: string, year: int, mon: int)
    requires |Split(month, '-')| >= 2
    requires ParseInt(Split(month, '-')[0]) == Some(year) && ParseInt(Split(month, '-')[1]) == Some(mon)
    requires 1 <= mon <= 12
    requires MonthToInterval(month).start.Some? && MonthToInterval(month).end.Some?
    ensures var y, m, i := FullYear(year), mon - 1, MonthToInterval(month);
      i.start.value == (DayFromYear(y) + MonthStart(y, m)) * MsPerDay
      && i.end.value - i.start.value + 1 == DaysInMonth(y, m) * MsPerDay
      && i.start.value <= i.end.value
      && (m == 11 ==> i.end.value + 1 == DayFromYear(y + 1) * MsPerDay)
  {
    var next := Utc(year, mon);
    assert MonthToInterval(month) == Interval(Utc(year, mon - 1), if next.Some? then Some(next.value - 1) else None);
    MonthDays(year, mon);
  }

  /** The same, for the numbers `parseInt` gives. */
  lemma MonthDays(year: int, mon: int)
    requires 1 <= mon <= 12 && Utc(year, mon - 1).Some? && Utc(year, mon).Some?
    ensures var y, m := FullYear(year), mon - 1;
      Utc(year, m) == Some((DayFromYear(y) + MonthStart(y, m)) * MsPerDay)
      && Utc(year, mon) == Some((DayFromYear(y) + MonthStart(y, m) + DaysInMonth(y, m)) * MsPerDay)
      && (m == 11 ==> Utc(year, mon) == Some(DayFromYear(y + 1) * MsPerDay))
  {
    var y, m := FullYear(year), mon - 1;
    MonthStartDay(y, m);
    MakeDayNext(y, m);
    assert Utc(year, m) == Some(MakeDay(y, m) * MsPerDay);
    assert Utc(year, mon) == Some(MakeDay(y, mon) * MsPerDay);
  }

  /** A query without a `-` gives NaN for both ends. */
  lemma MonthWithoutDash(month: string)
    requires '-' !in month
    ensures MonthToInterval(month) == Interval(None, None)
  {
    assert IndexOf(month, '-').None?;
  }

  /** The map phase of `getCategories`: the first `_` part of every key. */
  function FirstComponents(keys: seq<string>): (r: seq<string>)
    ensures |r| == |keys|
  {
    seq(|keys|, i requires 0 <= i < |keys| => Split(keys[i], Separator)[0])
  }

  /**
   * The value the map emits for a key is free of `_` and is either the
   * whole key or the part of it before its first `_`.
   */
  lemma FirstComponentShape(key: string)
    ensures var c := Split(key, Separator)[0];
      Separator !in c && (c == key || IsPrefix(c + [Separator], key))
  {
    SplitPieces(key, Separator);
    if |Split(key, Separator)| >= 2 {
      SplitPrefix(key);
    }
  }

  /** `key` passes the sanitising test with category `c`. */
  predicate InCategory(key: string, c: string)
  {
    Decode(key).Some? && Decode(key).value.category == c
  }

  /** The number of keys that pass the sanitising test with category `c`. */
  function KeysInCategory(keys: seq<string>, c: string): nat
  {
    if keys == [] then 0
    else KeysInCategory(keys[..|keys| - 1], c) + (if InCategory(keys[|keys| - 1], c) then 1 else 0)
  }

  /** A key that passes the sanitising test emits its own category. */
  lemma FirstOfDecoded(key: string)
    requires Decode(key).Some?
    ensures Split(key, Separator)[0] == Decode(key).value.category
  {
  }

  lemma FirstComponentsSnoc(keys: seq<string>)
    requires keys != []
    ensures FirstComponents(keys) == FirstComponents(keys[..|keys| - 1]) + [Split(keys[|keys| - 1], Separator)[0]]
  {
  }

  /**
   * On keys that all pass the sanitising test, the map emits each key's
   * category as many times as there are keys in that category.
   */
  lemma {:induction false} CategoryMultiplicity(keys: seq<string>, c: string)
    requires forall k :: k in keys ==> Decode(k).Some?
    ensures multiset(FirstComponents(keys))[c] == KeysInCategory(keys, c)
  {
    if keys != [] {
      var prefix, last := keys[..|keys| - 1], keys[|keys| - 1];
      assert forall k :: k in prefix ==> k in keys;
      CategoryMultiplicity(prefix, c);
      FirstComponentsSnoc(keys);
      FirstOfDecoded(last);
    }
  }

  /** Some key is in category `c` exactly when the count of such keys is positive. */
  lemma {:induction false} KeysInCategoryPositive(keys: seq<string>, c: string)
    ensures KeysInCategory(keys, c) > 0 <==> exists k :: k in keys && InCategory(k, c)
  {
    if keys != [] {
      var prefix, last := keys[..|keys| - 1], keys[|keys| - 1];
      KeysInCategoryPositive(prefix, c);
      assert keys == prefix + [last];
      if KeysInCategory(keys, c) > 0 {
        if !InCategory(last, c) {
          var k :| k in prefix && InCategory(k, c);
          assert k in keys;
        }
      } else {
        forall k | k in keys
          ensures !InCategory(k, c)
        {
          if k != last {
            assert k in prefix;
          }
        }
      }
    }
  }

  /**
   * On a bucket whose keys all pass the sanitising test, the counts that
   * `getCategories` computes hold exactly the categories of the keys, each
   * with the number of keys in it.
   */
  lemma CountedCategories(keys: seq<string>, c: string)
    requires forall k :: k in keys ==> Decode(k).Some?
    ensures c in Counts(FirstComponents(keys)) <==> exists k :: k in keys && InCategory(k, c)
    ensures c in Counts(FirstComponents(keys)) ==> Counts(FirstComponents(keys))[c] == KeysInCategory(keys, c)
  {
    CountsMultiplicity(FirstComponents(keys), c);
    CategoryMultiplicity(keys, c);
    KeysInCategoryPositive(keys, c);
  }

  /** The reduce phase: each value mapped to the number of times it occurs, counted left to right. */
  function Counts(vals: seq<string>): map<string, nat>
  {
    if vals == [] then map[]
    else
      var m := Counts(vals[..|vals| - 1]);
      var v := vals[|vals| - 1];
      m[v := if v in m then m[v] + 1 else 1]
  }

  /** The count of every value is its multiplicity, and only values that occur are counted. */
  lemma {:induction false} CountsMultiplicity(vals: seq<string>, v: string)
    ensures v in Counts(vals) <==> v in vals
    ensures v in Counts(vals) ==> Counts(vals)[v] == multiset(vals)[v]
  {
    if vals != [] {
      var prefix := vals[..|vals| - 1];
      assert vals == prefix + [vals[|vals| - 1]];
      CountsMultiplicity(prefix, v);
    }
  }

  /** The sum of the counts of a map. */
  ghost function Total(m: map<string, nat>): nat
    decreases |m.Keys|
  {
    if m == map[] then 0
    else
      var k :| k in m;
      assert (m - {k}).Keys == m.Keys - {k};
      m[k] + Total(m - {k})
  }

  /** Any entry can be taken out first. */
  lemma {:induction false} TotalRemove(m: map<string, nat>, k: string)
    requires k in m
    ensures Total(m) == m[k] + Total(m - {k})
    decreases |m.Keys|
  {
    var j :| j in m && Total(m) == m[j] + Total(m - {j});
    assert (m - {j}).Keys == m.Keys - {j};
    if j != k {
      assert (m - {k}).Keys == m.Keys - {k};
      TotalRemove(m - {j}, k);
      TotalRemove(m - {k}, j);
      assert (m - {j}) - {k} == (m - {k}) - {j};
    }
  }

  /** The counts add up to the number of keys. */
  lemma {:induction false} CountsTotal(vals: seq<string>)
    ensures Total(Counts(vals)) == |vals|
  {
    if vals != [] {
      var prefix := vals[..|vals| - 1];
      var m := Counts(prefix);
      var v := vals[|vals| - 1];
      CountsTotal(prefix);
      var m' := Counts(vals);
      TotalRemove(m', v);
      assert m' - {v} == m - {v};
      if v in m {
        TotalRemove(m, v);
      } else {
        assert m - {v} == m;
      }
    }
  }

  /** `vals.forEach(...)` in the reduce: the result object is updated in place. */
  method CountCategories(vals: seq<string>) returns (result: map<string, nat>)
    ensures result == Counts(vals)
  {
    result := map[];
    var i := 0;
    while i < |vals|
      invariant 0 <= i <= |vals|
      invariant result == Counts(vals[..i])
    {
      var v := vals[i];
      assert vals[..i + 1][..i] == vals[..i];
      if v in result {
        result := result[v := result[v] + 1];
      } else {
        result := result[v := 1];
      }
      i := i + 1;
    }
    assert vals[..i] == vals;
  }

  /** `getCategories` with its module-level memo `_categories`. */
  class CategoryMemo {
    var memo: Option<map<string, nat>>

    constructor()
      ensures memo == None
    {
      memo := None;
    }

    /**
     * A stored result is returned without consulting the store; otherwise the
     * store's keys (`query`) are counted by category and the counts stored,
     * and a failed query leaves the memo unset.
     */
    method GetCategories(query: Result<seq<string>>) returns (r: Result<map<string, nat>>, queried: bool)
      modifies this
      ensures old(memo).Some? ==> !queried && r == Ok(old(memo).value) && memo == old(memo)
      ensures old(memo).None? && query.Err? ==> queried && r == Err(query.message) && memo == None
      ensures old(memo).None? && query.Ok? ==>
        queried && r == Ok(Counts(FirstComponents(query.value))) && memo == Some(r.value)
    {
      if memo.Some? {
        return Ok(memo.value), false;
      }
      if query.Err? {
        return Err(query.message), true;
      }
      var counts := CountCategories(FirstComponents(query.value));
      memo := Some(counts);
      return Ok(counts), true;
    }
  }

  /** An article as listed: the stored document without its `content`. */
  datatype Summary = Summary(category: string, slug: string, mtime: Option<int>, title: string, excerpt: string)

  /** `delete article.content`. */
  function Strip(a: Article): Summary
  {
    Summary(a.category, a.slug, a.mtime, a.title, a.excerpt)
  }

  /** The number `b.mtime - a.mtime` sees: a `null` mtime counts as 0. */
  function SortKey(mtime: Option<int>): int
  {
    if mtime.Some? then mtime.value else 0
  }

  predicate NewestFirst(s: seq<Summary>)
  {
    forall i, j :: 0 <= i < j < |s| ==> SortKey(s[i].mtime) >= SortKey(s[j].mtime)
  }

  function Insert(x: Summary, s: seq<Summary>): seq<Summary>
  {
    if s == [] || SortKey(x.mtime) >= SortKey(s[0].mtime) then [x] + s
    else [s[0]] + Insert(x, s[1..])
  }

  /** `sort((a, b) => b.mtime - a.mtime)`, as an insertion sort. */
  function SortByMtime(s: seq<Summary>): seq<Summary>
  {
    if s == [] then [] else Insert(s[0], SortByMtime(s[1..]))
  }

  lemma {:induction false} InsertPermutes(x: Summary, s: seq<Summary>)
    ensures multiset(Insert(x, s)) == multiset(s) + multiset{x}
  {
    if s != [] && SortKey(x.mtime) < SortKey(s[0].mtime) {
      InsertPermutes(x, s[1..]);
      assert s == [s[0]] + s[1..];
    }
  }

  lemma {:induction false} InsertNewestFirst(x: Summary, s: seq<Summary>)
    requires NewestFirst(s)
    ensures NewestFirst(Insert(x, s))
  {
    if s != [] && SortKey(x.mtime) < SortKey(s[0].mtime) {
      var rest := s[1..];
      InsertNewestFirst(x, rest);
      InsertPermutes(x, rest);
      var r := Insert(x, rest);
      forall j | 0 <= j < |r|
        ensures SortKey(s[0].mtime) >= SortKey(r[j].mtime)
      {
        assert r[j] in multiset(r);
        if r[j] != x {
          assert r[j] in multiset(rest);
          var k :| 0 <= k < |rest| && rest[k] == r[j];
          assert s[k + 1] == rest[k];
        }
      }
      assert Insert(x, s) == [s[0]] + r;
    }
  }

  /** The sorted list is newest first and holds the same summaries. */
  lemma {:induction false} SortByMtimeSpec(s: seq<Summary>)
    ensures NewestFirst(SortByMtime(s)) && multiset(SortByMtime(s)) == multiset(s)
  {
    if s != [] {
      SortByMtimeSpec(s[1..]);
      InsertNewestFirst(s[0], SortByMtime(s[1..]));
      InsertPermutes(s[0], SortByMtime(s[1..]));
      assert s == [s[0]] + s[1..];
    }
  }

  /** The list the `index` and `category` handlers send for the store's matches. */
  function ListArticles(articles: seq<Article>): seq<Summary>
  {
    SortByMtime(seq(|articles|, i requires 0 <= i < |articles| => Strip(articles[i])))
  }

  /** Every listed summary is a matched article without its content, each as often as it was matched, newest first. */
  lemma ListArticlesSpec(articles: seq<Article>)
    ensures NewestFirst(ListArticles(articles))
    ensures multiset(ListArticles(articles)) == multiset(seq(|articles|, i requires 0 <= i < |articles| => Strip(articles[i])))
    ensures forall x :: x in ListArticles(articles) ==> exists a :: a in articles && Strip(a) == x
  {
    var stripped := seq(|articles|, i requires 0 <= i < |articles| => Strip(articles[i]));
    SortByMtimeSpec(stripped);
    forall x | x in ListArticles(articles)
      ensures exists a :: a in articles && Strip(a) == x
    {
      assert x in multiset(stripped);
      var i :| 0 <= i < |stripped| && stripped[i] == x;
      assert articles[i] in articles;
    }
  }

  /** What a handler sends: an error passed to `next`, a 404, or a JSON body. */
  datatype Response<T> = Failure(message: string) | NotFound | Found(body: T)

  /** `category in categories`, for the own keys of the counts object. */
  predicate HasCategory(categories: map<string, nat>, category: string)
  {
    category in categories
  }

  /** `index`: the store's matches for the month, listed. */
  function IndexResponse(matches: Result<seq<Article>>): Response<seq<Summary>>
  {
    if matches.Err? then Failure(matches.message) else Found(ListArticles(matches.value))
  }

  /**
   * The month's list is sent exactly when the store's query succeeds, never
   * as a 404; it holds the matches without their content, each as often as
   * matched, newest first.
   */
  lemma IndexResponseSpec(matches: Result<seq<Article>>)
    ensures var r := IndexResponse(matches);
      !r.NotFound? && (r.Failure? <==> matches.Err?) && (r.Failure? ==> r.message == matches.message)
    ensures matches.Ok? ==> var r := IndexResponse(matches);
      r.Found? && NewestFirst(r.body)
      && multiset(r.body) == multiset(seq(|matches.value|, i requires 0 <= i < |matches.value| => Strip(matches.value[i])))
  {
    if matches.Ok? {
      ListArticlesSpec(matches.value);
    }
  }

  /** `category`: a 404 for a category without articles, else the matches listed. */
  function CategoryResponse(categories: Result<map<string, nat>>, category: string, matches: Result<seq<Article>>): Response<seq<Summary>>
  {
    if categories.Err? then Failure(categories.message)
    else if !HasCategory(categories.value, category) then NotFound
    else if matches.Err? then Failure(matches.message)
    else Found(ListArticles(matches.value))
  }

  /** With both queries answered, the category list is a 404 exactly when the category has no counted article. */
  lemma CategoryResponseNotFound(categories: map<string, nat>, category: string, matches: seq<Article>)
    ensures CategoryResponse(Ok(categories), category, Ok(matches)).NotFound? <==> category !in categories
    ensures CategoryResponse(Ok(categories), category, Ok(matches)).Found? ==>
      CategoryResponse(Ok(categories), category, Ok(matches)).body == ListArticles(matches)
  {
  }

  /** The names every object inherits from `Object.prototype`, which `in` also sees. */
  const PrototypeNames: set<string> := {"constructor", "toString", "toLocaleString", "valueOf", "hasOwnProperty",
    "isPrototypeOf", "propertyIsEnumerable", "__defineGetter__", "__defineSetter__", "__lookupGetter__",
    "__lookupSetter__", "__proto__"}

  /** `category in categories` as JavaScript evaluates it on a plain object. */
  predicate HasCategoryAsWritten(categories: map<string, nat>, category: string)
  {
    category in categories || category in PrototypeNames
  }

  /** The `category` handler as written, with the inherited names passing the gate. */
  function CategoryResponseAsWritten(categories: Result<map<string, nat>>, category: string, matches: Result<seq<Article>>): Response<seq<Summary>>
  {
    if categories.Err? then Failure(categories.message)
    else if !HasCategoryAsWritten(categories.value, category) then NotFound
    else if matches.Err? then Failure(matches.message)
    else Found(ListArticles(matches.value))
  }

  /**
   * `/api/articles/constructor` with no such category: the handler as written
   * answers with an empty list where a 404 is intended.
   */
  lemma ConstructorListed(categories: map<string, nat>)
    requires "constructor" !in categories
    ensures CategoryResponseAsWritten(Ok(categories), "constructor", Ok([])) == Found([])
    ensures CategoryResponse(Ok(categories), "constructor", Ok([])) == NotFound
  {
  }

  /** The number `_.max(articles, a => a.mtime)` compares: `null` counts as 0. */
  function Newest(articles: seq<Article>): (i: nat)
    requires |articles| >= 1
    ensures i < |articles|
  {
    if |articles| == 1 then 0
    else
      var j := Newest(articles[..|articles| - 1]);
      if SortKey(articles[|articles| - 1].mtime) >= SortKey(articles[j].mtime) then |articles| - 1 else j
  }

  /** `_.max` picks a largest mtime, and of several equal ones the last, as its `>=` keeps replacing. */
  lemma {:induction false} NewestIsLastMax(articles: seq<Article>)
    requires |articles| >= 1
    ensures var i := Newest(articles);
      (forall k :: 0 <= k < |articles| ==> SortKey(articles[k].mtime) <= SortKey(articles[i].mtime))
      && (forall k :: i < k < |articles| ==> SortKey(articles[k].mtime) < SortKey(articles[i].mtime))
  {
    if |articles| > 1 {
      var prefix := articles[..|articles| - 1];
      NewestIsLastMax(prefix);
      assert forall k :: 0 <= k < |prefix| ==> prefix[k] == articles[k];
    }
  }

  /** `article`: a 404 for an unknown category or no match, else the newest match. */
  function ArticleResponse(categories: Result<map<string, nat>>, category: string, matches: Result<seq<Article>>): Response<Article>
  {
    if categories.Err? then Failure(categories.message)
    else if !HasCategory(categories.value, category) then NotFound
    else if matches.Err? then Failure(matches.message)
    else if |matches.value| == 0 then NotFound
    else if |matches.value| > 1 then Found(matches.value[Newest(matches.value)])
    else Found(matches.value[0])
  }

  /**
   * With both queries answered, the lookup is a 404 exactly for an unknown
   * category or no match, and otherwise sends a match whose mtime no other
   * match exceeds.
   */
  lemma ArticleResponseSpec(categories: map<string, nat>, category: string, matches: seq<Article>)
    ensures var r := ArticleResponse(Ok(categories), category, Ok(matches));
      (r.NotFound? <==> category !in categories || matches == [])
      && (r.Found? ==> r.body in matches && forall b :: b in matches ==> SortKey(b.mtime) <= SortKey(r.body.mtime))
  {
    if category in categories && |matches| > 1 {
      NewestIsLastMax(matches);
    }
  }

  /** The `article` handler as written: the gate at its start is the same `in` test. */
  function ArticleResponseAsWritten(categories: Result<map<string, nat>>, category: string, matches: Result<seq<Article>>): Response<Article>
  {
    if categories.Err? then Failure(categories.message)
    else if !HasCategoryAsWritten(categories.value, category) then NotFound
    else if matches.Err? then Failure(matches.message)
    else if |matches.value| == 0 then NotFound
    else if |matches.value| > 1 then Found(matches.value[Newest(matches.value)])
    else Found(matches.value[0])
  }

  /**
   * With both queries answered, the handler as written is a 404 exactly for
   * a name the `in` test rejects or no match, and otherwise sends a match
   * that no other match is newer than.
   */
  lemma ArticleResponseAsWrittenSpec(categories: map<string, nat>, category: string, matches: seq<Article>)
    ensures var r := ArticleResponseAsWritten(Ok(categories), category, Ok(matches));
      (r.NotFound? <==> !HasCategoryAsWritten(categories, category) || matches == [])
      && (r.Found? ==> r.body in matches && forall b :: b in matches ==> SortKey(b.mtime) <= SortKey(r.body.mtime))
  {
    if HasCategoryAsWritten(categories, category) && |matches| > 1 {
      NewestIsLastMax(matches);
    }
  }

  /**
   * `/api/article/constructor/<slug>` with no such category: the handler as
   * written still queries the store, so a failed query reaches `next` and a
   * match is sent, where a 404 is intended.
   */
  lemma ConstructorArticleQueried(categories: map<string, nat>, message: string, a: Article)
    requires "constructor" !in categories
    ensures ArticleResponseAsWritten(Ok(categories), "constructor", Err(message)) == Failure(message)
    ensures ArticleResponseAsWritten(Ok(categories), "constructor", Ok([a])) == Found(a)
    ensures ArticleResponse(Ok(categories), "constructor", Err(message)) == NotFound
    ensures ArticleResponse(Ok(categories), "constructor", Ok([a])) == NotFound
  {
  }
}
