/**
 * The older in-memory article reader of model.js: `readArticle` stats the
 * article file, reads it, extracts the title and the excerpt with the same
 * rules as the store loader, renders the body with the `lang-` rewrite only,
 * and keeps the result in a per-path cache. Stat results and file contents
 * are inputs; reading them is not modelled.
 */
module Reader {
  import opened Text
  import opened ArticleText
  import opened Scanner

  /** The article object `readArticle` builds; `mtime` is the file's `stats.mtime`, in milliseconds. */
  datatype Article = Article(mtime: int, category: string, slug: string, title: string, excerpt: string, content: string)

  const NotRegularFile: string := "Article is not a regular file"
  const TitleAbsent: string := "Article title absent"

  /**
   * What the read-and-parse step of `readArticle` yields for a regular file
   * with modification time `mtime`: the read error, the missing title, or the
   * article.
   */
  function Parse(category: string, slug: string, mtime: int, text: Result<string>, render: string -> string): Result<Article>
  {
    match text
    case Err(m) => Err(m)
    case Ok(content) =>
      match MatchTitle(content)
      case None => Err(TitleAbsent)
      case Some(m) =>
        Ok(Article(mtime, category, slug, m.title, Excerpt(content, m.lastIndex, render), ReaderContent(content, render)))
  }

  /**
   * A readable file is refused exactly when it does not open with a title
   * line; otherwise the article carries the identity and mtime it was read
   * for, and its title is the rest of the file's first line.
   */
  lemma ParseTitle(category: string, slug: string, mtime: int, content: string, render: string -> string)
    ensures var r := Parse(category, slug, mtime, Ok(content), render);
      (r.Err? <==> MatchTitle(content).None?)
      && (r.Err? ==> r.message == TitleAbsent)
      && (r.Ok? ==> r.value.mtime == mtime && r.value.category == category && r.value.slug == slug
                    && IsTitleText(r.value.title) && content == TitleLine(r.value.title) + content[|r.value.title| + 3..])
  {
    if MatchTitle(content).Some? {
      MatchTitleShape(content);
    }
  }

  /** A file opening with `# <title>\n` is accepted with that title, whatever follows. */
  lemma ParseTitleLine(category: string, slug: string, mtime: int, t: string, body: string, render: string -> string)
    requires IsTitleText(t)
    ensures var r := Parse(category, slug, mtime, Ok(TitleLine(t) + body), render);
      r.Ok? && r.value.title == t
  {
    MatchTitleLine(t, body);
  }

  /**
   * The reader applies no image-path rewrite: the same file read under any
   * other category and slug gets the same title, excerpt and body.
   */
  lemma ParseIgnoresIdentity(c1: string, s1: string, c2: string, s2: string, mtime: int, text: Result<string>, render: string -> string)
    requires Parse(c1, s1, mtime, text, render).Ok?
    ensures var a1, a2 := Parse(c1, s1, mtime, text, render), Parse(c2, s2, mtime, text, render);
      a2.Ok? && a2.value == a1.value.(category := c2, slug := s2)
  {
  }

  /** `cached_article && cached_article.mtime >= stats.mtime`. */
  predicate CacheHit(cache: map<string, Article>, path: string, mtime: int)
  {
    path in cache && cache[path].mtime >= mtime
  }

  /** The module-level `cache` of model.js, keyed by article path. */
  class ArticleReader {
    var cache: map<string, Article>

    constructor()
      ensures cache == map[]
    {
      cache := map[];
    }

    /**
     * `readArticle(category, slug, callback)`, returning the values the
     * callback receives in order. A cache hit is reported first and the file
     * is still read, so the callback then fires a second time; the cache is
     * updated only when the title is found.
     */
    method ReadArticle(category: string, slug: string, stat: Result<Stat>, text: Result<string>, render: string -> string)
      returns (replies: seq<Result<Article>>)
      modifies this
      ensures stat.Err? ==> replies == [Err(stat.message)] && cache == old(cache)
      ensures stat.Ok? && !stat.value.isFile ==> replies == [Err(NotRegularFile)] && cache == old(cache)
      ensures stat.Ok? && stat.value.isFile ==>
        var path := ArticlePath(category, slug);
        var r := Parse(category, slug, stat.value.mtime, text, render);
        replies == (if CacheHit(old(cache), path, stat.value.mtime) then [Ok(old(cache)[path])] else []) + [r]
        && cache == (if r.Ok? then old(cache)[path := r.value] else old(cache))
    {
      if stat.Err? {
        return [Err(stat.message)];
      }
      var stats := stat.value;
      if !stats.isFile {
        return [Err(NotRegularFile)];
      }
      var path := ArticlePath(category, slug);
      replies := [];
      if path in cache && cache[path].mtime >= stats.mtime {
        replies := [Ok(cache[path])];
      }
      var article := Article(stats.mtime, category, slug, "", "", "");
      if text.Err? {
        return replies + [Err(text.message)];
      }
      var content := text.value;
      var titleMatch := MatchTitle(content);
      if titleMatch.None? {
        return replies + [Err(TitleAbsent)];
      }
      article := article.(title := titleMatch.value.title);
      article := article.(excerpt := Excerpt(content, titleMatch.value.lastIndex, render));
      article := article.(content := ReaderContent(content, render));
      cache := cache[path := article];
      replies := replies + [Ok(article)];
    }
  }

  /**
   * Two reads of one regular file by a fresh reader: the first one, into an
   * empty cache, only parses. The second replies first with the article the
   * first one stored exactly when that read parsed and the file's mtime has
   * not moved past it; it parses the file again in any case.
   */
  method ReadTwice(category: string, slug: string, mtime1: int, text1: Result<string>, mtime2: int, text2: Result<string>, render: string -> string)
    returns (first: seq<Result<Article>>, second: seq<Result<Article>>)
    ensures var a := Parse(category, slug, mtime1, text1, render);
      first == [a]
      && second == (if a.Ok? && mtime1 >= mtime2 then [a] else []) + [Parse(category, slug, mtime2, text2, render)]
  {
    var reader := new ArticleReader();
    first := reader.ReadArticle(category, slug, Ok(Stat(false, true, mtime1)), text1, render);
    second := reader.ReadArticle(category, slug, Ok(Stat(false, true, mtime2)), text2, render);
  }
}
