/**
 * The request front of app.js: the routes of the blog application
 * (app.js:48-57), tried in the order they are registered, and the
 * `appendSlashRedirect` middleware (app.js:34-46) that gives the page and
 * every API path a trailing slash with a 301. `Mount` states how the outer
 * application hands the blog application a request under its URL prefix,
 * so that a redirect can be followed back in.
 */
module App {
  import opened Text
  import KeyCodec

  /** `blogApp.locals.urlPrefix`, the path the blog application is mounted at. */
  const UrlPrefix: string := "/blog"

  const CategoryRoot: string := "/api/articles/"
  const ArticleRoot: string := "/api/article/"

  /** The parts of an Express request that the middleware and the routes read. */
  datatype Request = Request(originalUrl: string, url: string, path: string)

  /** `appendSlashRedirect` either answers 301 with a `Location`, or calls `next()`. */
  datatype Decision = Redirect(location: string) | Next

  /** The handler a path reaches; `Static` is the static-file middleware behind the router. */
  datatype Route =
    | Home
    | Categories
    | Index
    | CategoryPage(category: string)
    | ArticlePage(category: string, slug: string)
    | Attachment(file: string)
    | Static

  /** What the outer application does with a request URL. */
  datatype Outcome = NotMounted | Moved(location: string) | Serve(route: Route)

  /** `s[i]` in JavaScript; `None` stands for `undefined`. */
  function CharAt(s: string, i: int): Option<char>
  {
    if 0 <= i < |s| then Some(s[i]) else None
  }

  /** `s.substr(start)`. */
  function Substr(s: string, start: nat): string
  {
    if start <= |s| then s[start..] else []
  }

  /** `?` starts the query string of a URL, and `#` its fragment. */
  predicate EndsPath(ch: char)
  {
    ch == '?' || ch == '#'
  }

  /** No character of `s` ends a pathname. */
  predicate PlainPath(s: string)
  {
    forall i :: 0 <= i < |s| ==> !EndsPath(s[i])
  }

  /** What follows a pathname: nothing, or a query string or fragment. */
  predicate QueryOrFragment(q: string)
  {
    q == [] || EndsPath(q[0])
  }

  /** The index of the first `?` or `#` of `url`, or its length when it has neither. */
  function PathEnd(url: string): (e: nat)
    ensures e <= |url|
  {
    if url == [] || EndsPath(url[0]) then 0 else 1 + PathEnd(url[1..])
  }

  /** The pathname of a request URL: what precedes its query string and its fragment. */
  function PathName(url: string): string
  {
    url[..PathEnd(url)]
  }

  predicate EndsWithSlash(s: string)
  {
    |s| > 0 && s[|s| - 1] == '/'
  }

  /**
   * The request the application mounted at `prefix` sees for the URL
   * `originalUrl`: the prefix must start the pathname and be followed by
   * `/`, `.` or nothing; it is cut from the URL, and a URL left without a
   * leading `/` gets one.
   */
  function Mount(prefix: string, originalUrl: string): Option<Request>
  {
    var pathname := PathName(originalUrl);
    var c := CharAt(pathname, |prefix|);
    if !IsPrefix(prefix, pathname) || (c.Some? && c.value != '/' && c.value != '.') then None
    else
      var rest := originalUrl[|prefix|..];
      var url := if rest != [] && rest[0] == '/' then rest else "/" + rest;
      Some(Request(originalUrl, url, PathName(url)))
  }

  /**
   * `appendSlashRedirect`: the application root reached without the slash
   * after the prefix is sent to `prefix + url`; any other path not ending in
   * `/` is sent to the same path with `/` appended, keeping the query.
   */
  function AppendSlashRedirect(prefix: string, req: Request): Decision
  {
    if req.path == "/" && CharAt(req.originalUrl, |prefix|) != Some('/') then
      Redirect(prefix + req.url)
    else if CharAt(req.path, |req.path| - 1) != Some('/') then
      Redirect(prefix + req.path + "/" + Substr(req.url, |req.path|))
    else
      Next
  }

  /** `[a-z0-9-]`, the characters of a category or slug in a route. */
  predicate IsSegmentChar(ch: char)
  {
    'a' <= ch <= 'z' || '0' <= ch <= '9' || ch == '-'
  }

  /** `[a-z0-9-]+`. */
  predicate IsSegment(s: string)
  {
    |s| >= 1 && forall i :: 0 <= i < |s| ==> IsSegmentChar(s[i])
  }

  predicate IsAlnum(ch: char)
  {
    'a' <= ch <= 'z' || 'A' <= ch <= 'Z' || '0' <= ch <= '9'
  }

  /** The characters a regular expression's `.` does not match. */
  predicate IsLineTerminator(ch: char)
  {
    ch == '\n' || ch == '\r' || ch == '\U{2028}' || ch == '\U{2029}'
  }

  /** `.+\.[a-zA-Z0-9]{1,4}$`: some text, a dot, and an extension of one to four letters or digits. */
  predicate HasExtension(tail: string)
  {
    exists k :: 1 <= k < |tail| && tail[k] == '.' && 1 <= |tail| - k - 1 <= 4
      && (forall m :: k < m < |tail| ==> IsAlnum(tail[m]))
      && (forall m :: 0 <= m < k ==> !IsLineTerminator(tail[m]))
  }

  /** `s` with one trailing `/` removed: the optional `\/?` before `$`. */
  function StripSlash(s: string): string
  {
    if EndsWithSlash(s) then s[..|s| - 1] else s
  }

  /** What follows `root` in `path`, when `root` starts it. */
  function After(root: string, path: string): Option<string>
  {
    if IsPrefix(root, path) then Some(path[|root|..]) else None
  }

  /** `s` cut at its first `/`. */
  function SplitAtSlash(s: string): Option<(string, string)>
  {
    match IndexOf(s, '/')
    case None => None
    case Some(i) => Some((s[..i], s[i + 1..]))
  }

  /** `/^\/api\/articles\/([a-z0-9-]+)\/?$/` and its capture. */
  function MatchCategory(path: string): Option<string>
  {
    match After(CategoryRoot, path)
    case None => None
    case Some(rest) => if IsSegment(StripSlash(rest)) then Some(StripSlash(rest)) else None
  }

  /** `/^\/api\/article\/([a-z0-9-]+)\/([a-z0-9-]+)\/?$/` and its two captures. */
  function MatchArticle(path: string): Option<(string, string)>
  {
    match After(ArticleRoot, path)
    case None => None
    case Some(rest) =>
      match SplitAtSlash(StripSlash(rest))
      case None => None
      case Some(p) => if IsSegment(p.0) && IsSegment(p.1) then Some(p) else None
  }

  /** The three parts of an attachment path: `category/slug/tail`. */
  datatype AttachmentPath = AttachmentPath(category: string, slug: string, tail: string)

  /** `/^\/api\/article\/([a-z0-9-]+\/[a-z0-9-]+\/.+\.[a-zA-Z0-9]{1,4})$/`, split into its parts. */
  function MatchAttachment(path: string): Option<AttachmentPath>
  {
    match After(ArticleRoot, path)
    case None => None
    case Some(rest) =>
      match SplitAtSlash(rest)
      case None => None
      case Some(p) =>
        match SplitAtSlash(p.1)
        case None => None
        case Some(q) =>
          if IsSegment(p.0) && IsSegment(q.0) && HasExtension(q.1) then Some(AttachmentPath(p.0, q.0, q.1)) else None
  }

  /** The first route of app.js:48-57 whose pattern matches `path`. */
  function Dispatch(path: string): Route
  {
    if path == "/" || path == "//" then Home
    else if path == "/api/categories" || path == "/api/categories/" then Categories
    else if path == "/api/articles" || path == "/api/articles/" then Index
    else
      match MatchCategory(path)
      case Some(c) => CategoryPage(c)
      case None =>
        match MatchArticle(path)
        case Some(p) => ArticlePage(p.0, p.1)
        case None =>
          match MatchAttachment(path)
          case Some(m) => Attachment(m.category + "/" + m.slug + "/" + m.tail)
          case None => Static
  }

  /** The page and API routes run `appendSlashRedirect` before their handler. */
  predicate RedirectsFirst(r: Route)
  {
    !r.Attachment? && !r.Static?
  }

  /** A request URL arriving at the outer application. */
  function Handle(prefix: string, originalUrl: string): Outcome
  {
    match Mount(prefix, originalUrl)
    case None => NotMounted
    case Some(req) =>
      var route := Dispatch(req.path);
      if !RedirectsFirst(route) then Serve(route)
      else
        match AppendSlashRedirect(prefix, req)
        case Redirect(location) => Moved(location)
        case Next => Serve(route)
  }

  // Searching for a character.

  /** The first occurrence is the one with no occurrence before it. */
  lemma IndexOfAt(s: string, ch: char, i: nat)
    requires i < |s| && s[i] == ch && ch !in s[..i]
    ensures IndexOf(s, ch) == Some(i)
  {
    assert s[i] in s;
  }

  /** A URL is its pathname followed by its query string or fragment, if any. */
  lemma {:induction false} PathNameSplit(url: string)
    ensures IsPrefix(PathName(url), url) && PlainPath(PathName(url))
    ensures QueryOrFragment(url[|PathName(url)|..])
    ensures url != [] && !EndsPath(url[0]) ==> PathName(url) != [] && PathName(url)[0] == url[0]
  {
    if url != [] && !EndsPath(url[0]) {
      PathNameSplit(url[1..]);
      assert PathName(url) == [url[0]] + PathName(url[1..]);
      assert url[|PathName(url)|..] == url[1..][|PathName(url[1..])|..];
    }
  }

  /** The pathname of a path followed by a query string or fragment is that path. */
  lemma {:induction false} PathNameOf(p: string, q: string)
    requires PlainPath(p) && QueryOrFragment(q)
    ensures PathName(p + q) == p
  {
    if p == [] {
      assert p + q == q;
    } else {
      assert (p + q)[1..] == p[1..] + q;
      PathNameOf(p[1..], q);
      assert p == [p[0]] + p[1..];
    }
  }

  // appendSlashRedirect.

  /**
   * The middleware passes a request on exactly when its path ends in `/`,
   * unless that path is the application root reached without the slash
   * after the prefix; every redirect stays under the prefix.
   */
  lemma AppendSlashCases(prefix: string, req: Request)
    ensures var d := AppendSlashRedirect(prefix, req);
      (d == Next <==> EndsWithSlash(req.path) && (req.path != "/" || CharAt(req.originalUrl, |prefix|) == Some('/')))
      && (d.Redirect? ==> IsPrefix(prefix, d.location))
      && (req.path != "/" && !EndsWithSlash(req.path) ==>
            d == Redirect(prefix + req.path + "/" + Substr(req.url, |req.path|)))
  {
    var d := AppendSlashRedirect(prefix, req);
    if d.Redirect? {
      assert d.location[..|prefix|] == prefix;
    }
  }

  /** The pathname of the mounted request follows the prefix in the request's pathname. */
  lemma MountedPath(prefix: string, originalUrl: string)
    requires Mount(prefix, originalUrl).Some?
    ensures var req := Mount(prefix, originalUrl).value;
      req.url[0] == '/' && req.url == req.path + req.url[|req.path|..]
      && PlainPath(req.path) && QueryOrFragment(req.url[|req.path|..])
      && req.path != [] && req.path[0] == '/'
  {
    var req := Mount(prefix, originalUrl).value;
    PathNameSplit(req.url);
  }

  /** The URL the redirect sends the browser to is mounted with the expected path. */
  lemma MountRedirect(prefix: string, p: string, q: string)
    requires PlainPath(prefix) && PlainPath(p) && p != [] && p[0] == '/'
    requires QueryOrFragment(q)
    ensures Mount(prefix, prefix + p + q) == Some(Request(prefix + p + q, p + q, p))
  {
    var o := prefix + p + q;
    assert o == prefix + (p + q);
    PathNameOf(p, q);
    assert PlainPath(prefix + p);
    assert o == (prefix + p) + q;
    PathNameOf(prefix + p, q);
    assert PathName(o) == prefix + p;
    assert (prefix + p)[..|prefix|] == prefix;
    assert (prefix + p)[|prefix|] == '/';
    assert o[|prefix|..] == p + q;
  }

  /** A URL whose path after the prefix ends in `/` is mounted and passed on. */
  lemma SlashedPasses(prefix: string, p: string, q: string)
    requires PlainPath(prefix) && PlainPath(p) && p != [] && p[0] == '/' && EndsWithSlash(p)
    requires QueryOrFragment(q)
    ensures Mount(prefix, prefix + p + q) == Some(Request(prefix + p + q, p + q, p))
    ensures AppendSlashRedirect(prefix, Request(prefix + p + q, p + q, p)) == Next
  {
    MountRedirect(prefix, p, q);
    assert (prefix + p + q)[|prefix|] == p[0];
  }

  /** The shape `Mount` gives a request: a path from the root, then the query string if any. */
  predicate MountedShape(req: Request)
  {
    req.path != [] && req.path[0] == '/' && PlainPath(req.path) && IsPrefix(req.path, req.url)
    && QueryOrFragment(req.url[|req.path|..])
  }

  /** The first rule's target, the root with its slash, is passed on. */
  lemma RootTargetPasses(prefix: string, req: Request)
    requires PlainPath(prefix) && MountedShape(req) && req.path == "/"
    ensures Mount(prefix, prefix + req.url) == Some(Request(prefix + req.url, req.url, req.path))
    ensures AppendSlashRedirect(prefix, Request(prefix + req.url, req.url, req.path)) == Next
  {
    var q := req.url[|req.path|..];
    assert req.url == req.path + q;
    assert prefix + req.url == prefix + req.path + q;
    SlashedPasses(prefix, req.path, q);
  }

  /** The second rule's target, the path with a slash appended and the same query, is passed on. */
  lemma SlashTargetPasses(prefix: string, req: Request)
    requires PlainPath(prefix) && MountedShape(req)
    ensures var q := req.url[|req.path|..];
      var loc := prefix + req.path + "/" + Substr(req.url, |req.path|);
      Mount(prefix, loc) == Some(Request(loc, req.path + "/" + q, req.path + "/"))
      && AppendSlashRedirect(prefix, Request(loc, req.path + "/" + q, req.path + "/")) == Next
  {
    var q := req.url[|req.path|..];
    assert Substr(req.url, |req.path|) == q;
    var p := req.path + "/";
    assert p[0] == '/' && EndsWithSlash(p);
    assert prefix + req.path + "/" + q == prefix + p + q;
    SlashedPasses(prefix, p, q);
  }

  /** For a request of that shape, the URL a redirect names is mounted and passed on. */
  lemma {:induction false} RequestSettles(prefix: string, req: Request)
    requires PlainPath(prefix) && MountedShape(req)
    ensures var d := AppendSlashRedirect(prefix, req);
      d.Redirect? ==>
        Mount(prefix, d.location).Some?
        && AppendSlashRedirect(prefix, Mount(prefix, d.location).value) == Next
        && Mount(prefix, d.location).value.path == (if EndsWithSlash(req.path) then req.path else req.path + "/")
  {
    if req.path == "/" && CharAt(req.originalUrl, |prefix|) != Some('/') {
      assert AppendSlashRedirect(prefix, req) == Redirect(prefix + req.url);
      RootTargetPasses(prefix, req);
    } else if !EndsWithSlash(req.path) {
      assert AppendSlashRedirect(prefix, req) == Redirect(prefix + req.path + "/" + Substr(req.url, |req.path|));
      SlashTargetPasses(prefix, req);
    } else {
      assert AppendSlashRedirect(prefix, req) == Next;
    }
  }

  /**
   * Following a redirect of the middleware does not redirect again: the
   * URL it names is mounted, and its request is passed on.
   */
  lemma {:induction false} RedirectSettles(prefix: string, originalUrl: string)
    requires PlainPath(prefix)
    requires Mount(prefix, originalUrl).Some?
    ensures var req := Mount(prefix, originalUrl).value;
      var d := AppendSlashRedirect(prefix, req);
      d.Redirect? ==>
        Mount(prefix, d.location).Some?
        && AppendSlashRedirect(prefix, Mount(prefix, d.location).value) == Next
        && Mount(prefix, d.location).value.path == (if EndsWithSlash(req.path) then req.path else req.path + "/")
  {
    MountedPath(prefix, originalUrl);
    RequestSettles(prefix, Mount(prefix, originalUrl).value);
  }

  /** The blog root without its slash is redirected to the root with it. */
  lemma BareRootRedirects()
    ensures Handle(UrlPrefix, "/blog") == Moved("/blog/")
  {
    PathNameOf("/blog", "");
    PathNameOf("/", "");
    assert "/blog" + "" == "/blog" && "/" + "" == "/";
    assert "/blog"[..5] == UrlPrefix && "/blog"[5..] == [];
  }

  /** The blog root with its slash is served the page. */
  lemma SlashedRootServed()
    ensures Handle(UrlPrefix, "/blog/") == Serve(Home)
  {
    SlashedPasses(UrlPrefix, "/", "");
    assert UrlPrefix + "/" + "" == "/blog/" && "/" + "" == "/";
  }

  // Route patterns.

  /** Route segments never hold the store key's separator nor a path separator. */
  lemma SegmentIsComponent(s: string)
    requires IsSegment(s)
    ensures KeyCodec.IsComponent(s) && '/' !in s && !EndsWithSlash(s)
  {
  }

  /** `root` starts `path` with `rest` after it exactly when `path` is `root + rest`. */
  lemma AfterIff(root: string, path: string, rest: string)
    ensures After(root, path) == Some(rest) <==> path == root + rest
  {
    if path == root + rest {
      assert path[..|root|] == root && path[|root|..] == rest;
    }
  }

  /** Stripping gives a text without a trailing slash back from itself and from itself plus one slash only. */
  lemma StripSlashIff(s: string, b: string)
    requires !EndsWithSlash(b)
    ensures StripSlash(s) == b <==> s == b || s == b + "/"
  {
    if EndsWithSlash(s) {
      assert s == s[..|s| - 1] + "/";
    }
    if s == b + "/" {
      assert s[..|s| - 1] == b;
    }
  }

  /** Cutting at the first slash yields a first part free of slashes, and the parts rejoin to the text. */
  lemma SplitAtSlashIff(s: string, a: string, b: string)
    ensures SplitAtSlash(s) == Some((a, b)) <==> '/' !in a && s == a + "/" + b
  {
    if SplitAtSlash(s) == Some((a, b)) {
      var i := IndexOf(s, '/').value;
      assert s == s[..i] + "/" + s[i + 1..];
    }
    if '/' !in a && s == a + "/" + b {
      assert s[..|a|] == a && s[|a| + 1..] == b;
      IndexOfAt(s, '/', |a|);
    }
  }

  /** `c/s` ends as its last segment does. */
  lemma JoinedEnd(c: string, s: string)
    requires IsSegment(s)
    ensures !EndsWithSlash(c + "/" + s)
  {
    assert (c + "/" + s)[|c + "/" + s| - 1] == s[|s| - 1];
  }

  /** `/api/articles/<category>` with or without a trailing slash, for any segment, and nothing else. */
  lemma MatchCategoryIff(path: string, c: string)
    ensures MatchCategory(path) == Some(c) <==> IsSegment(c) && (path == CategoryRoot + c || path == CategoryRoot + c + "/")
  {
    if MatchCategory(path) == Some(c) {
      var rest := After(CategoryRoot, path).value;
      AfterIff(CategoryRoot, path, rest);
      StripSlashIff(rest, c);
    }
    if IsSegment(c) && (path == CategoryRoot + c || path == CategoryRoot + c + "/") {
      var rest := path[|CategoryRoot|..];
      assert path == CategoryRoot + rest;
      AfterIff(CategoryRoot, path, rest);
      StripSlashIff(rest, c);
    }
  }

  /** Regrouping the concatenations that build a route path. */
  lemma Regroup(r: string, a: string, b: string, t: string)
    ensures r + (a + "/" + b) == r + a + "/" + b
    ensures r + (a + "/" + b + "/") == r + a + "/" + b + "/"
    ensures r + (a + "/" + (b + "/" + t)) == r + a + "/" + b + "/" + t
  {
  }

  /** `/api/article/<category>/<slug>` with or without a trailing slash, for any two segments, and nothing else. */
  lemma MatchArticleIff(path: string, c: string, s: string)
    ensures MatchArticle(path) == Some((c, s)) <==>
      IsSegment(c) && IsSegment(s) && (path == ArticleRoot + c + "/" + s || path == ArticleRoot + c + "/" + s + "/")
  {
    var body := c + "/" + s;
    Regroup(ArticleRoot, c, s, "");
    if MatchArticle(path) == Some((c, s)) {
      var rest := After(ArticleRoot, path).value;
      AfterIff(ArticleRoot, path, rest);
      SplitAtSlashIff(StripSlash(rest), c, s);
      JoinedEnd(c, s);
      StripSlashIff(rest, body);
    }
    if IsSegment(c) && IsSegment(s) && (path == ArticleRoot + c + "/" + s || path == ArticleRoot + c + "/" + s + "/") {
      JoinedEnd(c, s);
      SegmentIsComponent(c);
      SplitAtSlashIff(body, c, s);
      if path == ArticleRoot + body {
        AfterIff(ArticleRoot, path, body);
        StripSlashIff(body, body);
      } else {
        AfterIff(ArticleRoot, path, body + "/");
        StripSlashIff(body + "/", body);
      }
    }
  }

  /** `/api/article/<category>/<slug>/<file>.<ext>`, and nothing else. */
  lemma MatchAttachmentIff(path: string, m: AttachmentPath)
    ensures MatchAttachment(path) == Some(m) <==>
      IsSegment(m.category) && IsSegment(m.slug) && HasExtension(m.tail)
      && path == ArticleRoot + m.category + "/" + m.slug + "/" + m.tail
  {
    var after := m.slug + "/" + m.tail;
    var rest := m.category + "/" + after;
    Regroup(ArticleRoot, m.category, m.slug, m.tail);
    if MatchAttachment(path) == Some(m) {
      var r := After(ArticleRoot, path).value;
      AfterIff(ArticleRoot, path, r);
      var p := SplitAtSlash(r).value;
      SplitAtSlashIff(r, p.0, p.1);
      SplitAtSlashIff(p.1, m.slug, m.tail);
    }
    if IsSegment(m.category) && IsSegment(m.slug) && HasExtension(m.tail)
      && path == ArticleRoot + m.category + "/" + m.slug + "/" + m.tail
    {
      AfterIff(ArticleRoot, path, rest);
      SegmentIsComponent(m.category);
      SegmentIsComponent(m.slug);
      SplitAtSlashIff(rest, m.category, after);
      SplitAtSlashIff(after, m.slug, m.tail);
    }
  }

  // Dispatch.

  /** A path under `/api/article/` is none of the fixed routes and no category path. */
  lemma UnderArticleRoot(path: string)
    requires IsPrefix(ArticleRoot, path)
    ensures path != "/" && path != "//" && path != "/api/categories" && path != "/api/categories/"
    ensures path != "/api/articles" && path != "/api/articles/" && MatchCategory(path) == None
  {
    assert path[..|ArticleRoot|] == ArticleRoot;
    assert path[5] == 'a' && path[12] == '/';
    assert "/api/categories"[5] == 'c' && "/api/categories/"[5] == 'c';
    assert "/api/articles"[12] == 's' && "/api/articles/"[12] == 's';
  }

  /** A path under `/api/articles/` longer than that root is none of the fixed routes. */
  lemma UnderCategoryRoot(path: string)
    requires IsPrefix(CategoryRoot, path) && |path| > |CategoryRoot|
    ensures path != "/" && path != "//" && path != "/api/categories" && path != "/api/categories/"
    ensures path != "/api/articles" && path != "/api/articles/"
  {
    assert path[..|CategoryRoot|] == CategoryRoot;
    assert path[5] == 'a';
    assert "/api/categories"[5] == 'c' && "/api/categories/"[5] == 'c';
  }

  /** A path under `/api/articles/` reaches the category handler exactly when its rest is one segment. */
  lemma DispatchCategory(path: string, c: string)
    ensures Dispatch(path) == CategoryPage(c) <==> MatchCategory(path) == Some(c)
  {
    if MatchCategory(path) == Some(c) {
      var rest := After(CategoryRoot, path).value;
      AfterIff(CategoryRoot, path, rest);
      UnderCategoryRoot(path);
    }
  }

  /** A path under `/api/article/` reaches the article handler exactly when its rest is two segments. */
  lemma DispatchArticle(path: string, c: string, s: string)
    ensures Dispatch(path) == ArticlePage(c, s) <==> MatchArticle(path) == Some((c, s))
  {
    if MatchArticle(path) == Some((c, s)) {
      UnderArticleRoot(path);
    }
  }

  /**
   * The category and slug a route hands to its handler are components the
   * store key can carry: the key built from them decodes back to them.
   */
  lemma ArticleRouteKey(path: string, c: string, s: string, mtime: KeyCodec.Version)
    requires Dispatch(path) == ArticlePage(c, s)
    ensures KeyCodec.IsComponent(c) && KeyCodec.IsComponent(s)
    ensures KeyCodec.Decode(KeyCodec.Encode(c, s, mtime)) == Some(KeyCodec.Decoded(c, s, mtime))
  {
    DispatchArticle(path, c, s);
    MatchArticleIff(path, c, s);
    SegmentIsComponent(c);
    SegmentIsComponent(s);
    KeyCodec.DecodeEncode(c, s, mtime);
  }

  /** `constructor` is a well-formed category segment: its route reaches the category handler. */
  lemma ConstructorRoute()
    ensures Dispatch("/api/articles/constructor") == CategoryPage("constructor")
  {
    assert IsSegment("constructor");
    assert "/api/articles/constructor" == CategoryRoot + "constructor";
    MatchCategoryIff("/api/articles/constructor", "constructor");
    DispatchCategory("/api/articles/constructor", "constructor");
  }

  /** Appending the slash the middleware asks for keeps the route a path reaches. */
  lemma {:induction false} DispatchSlash(path: string)
    requires RedirectsFirst(Dispatch(path)) && !EndsWithSlash(path)
    ensures Dispatch(path + "/") == Dispatch(path)
  {
    var p := path + "/";
    match Dispatch(path)
    case Home =>
    case Categories =>
    case Index =>
    case CategoryPage(c) =>
      DispatchCategory(path, c);
      MatchCategoryIff(path, c);
      MatchCategoryIff(p, c);
      DispatchCategory(p, c);
    case ArticlePage(c, s) =>
      DispatchArticle(path, c, s);
      MatchArticleIff(path, c, s);
      MatchArticleIff(p, c, s);
      DispatchArticle(p, c, s);
  }

  /**
   * A 301 from the middleware leads back to the handler the first request
   * was routed to, now served.
   */
  lemma {:induction false} MovedThenServed(prefix: string, originalUrl: string)
    requires PlainPath(prefix)
    ensures Handle(prefix, originalUrl).Moved? ==>
      IsPrefix(prefix, Handle(prefix, originalUrl).location)
      && Handle(prefix, Handle(prefix, originalUrl).location) == Serve(Dispatch(Mount(prefix, originalUrl).value.path))
  {
    if Handle(prefix, originalUrl).Moved? {
      var req := Mount(prefix, originalUrl).value;
      var loc := Handle(prefix, originalUrl).location;
      assert AppendSlashRedirect(prefix, req) == Redirect(loc);
      AppendSlashCases(prefix, req);
      RedirectSettles(prefix, originalUrl);
      if !EndsWithSlash(req.path) {
        DispatchSlash(req.path);
      }
    }
  }
}
