/**
 * The text processing of an article file: the title taken from a leading
 * `# ` line, the excerpt that runs up to the first `## ` line, and the two
 * global rewrites applied to rendered HTML (`lang-x` code classes to
 * `brush: x`, and image sources made relative to the article's API path).
 * The markdown renderer itself is a parameter: any `string -> string`.
 */
module ArticleText {
  import opened Text

  /** The characters that end a line for `.`, `^` and `$` in a JavaScript regular expression. */
  predicate IsLineTerminator(c: char)
  {
    c == '\n' || c == '\r' || c == '\U{2028}' || c == '\U{2029}'
  }

  /** Position of the first line terminator at or after `from`, or `|s|` when there is none. */
  function LineEnd(s: string, from: nat): (e: nat)
    requires from <= |s|
    ensures from <= e <= |s|
    ensures forall i :: from <= i < e ==> !IsLineTerminator(s[i])
    ensures e < |s| ==> IsLineTerminator(s[e])
    decreases |s| - from
  {
    if from == |s| || IsLineTerminator(s[from]) then from else LineEnd(s, from + 1)
  }

  /** What `/^# (.+)\n/g.exec(content)` yields: the captured title and the regex's `lastIndex`. */
  datatype TitleMatch = TitleMatch(title: string, lastIndex: nat)

  /**
   * The title pattern has no `m` flag, so it can only match at position 0:
   * `# `, then the longest run of characters other than line terminators
   * (at least one), which must be followed by `\n`.
   */
  function MatchTitle(content: string): (r: Option<TitleMatch>)
    ensures r.Some? ==> r.value.lastIndex <= |content|
  {
    if |content| < 3 || content[0] != '#' || content[1] != ' ' then None
    else
      var e := LineEnd(content, 2);
      if e == 2 || e == |content| || content[e] != '\n' then None
      else Some(TitleMatch(content[2..e], e + 1))
  }

  /** A title line's text: one or more characters, none of them a line terminator. */
  predicate IsTitleText(t: string)
  {
    |t| >= 1 && forall i :: 0 <= i < |t| ==> !IsLineTerminator(t[i])
  }

  function TitleLine(t: string): string { "# " + t + "\n" }

  /** A file that opens with `# <title>\n` yields that title, and the match ends after the newline. */
  lemma MatchTitleLine(t: string, body: string)
    requires IsTitleText(t)
    ensures MatchTitle(TitleLine(t) + body) == Some(TitleMatch(t, |t| + 3))
  {
    var content := TitleLine(t) + body;
    assert content[2..|t| + 2] == t;
    assert forall i :: 2 <= i < |t| + 2 ==> content[i] == t[i - 2];
    assert content[|t| + 2] == '\n';
    LineEndAt(content, 2, |t| + 2);
  }

  /** The line from `from` ends at `e` when nothing in between ends a line and `s[e]` does. */
  lemma {:induction false} LineEndAt(s: string, from: nat, e: nat)
    requires from <= e < |s| && IsLineTerminator(s[e])
    requires forall i :: from <= i < e ==> !IsLineTerminator(s[i])
    ensures LineEnd(s, from) == e
    decreases e - from
  {
    if from < e {
      LineEndAt(s, from + 1, e);
    }
  }

  /** Conversely, every match is such a first line: the title is the rest of the file's first line. */
  lemma MatchTitleShape(content: string)
    requires MatchTitle(content).Some?
    ensures var m := MatchTitle(content).value;
      IsTitleText(m.title) && m.lastIndex == |m.title| + 3 && content == TitleLine(m.title) + content[m.lastIndex..]
  {
    var m := MatchTitle(content).value;
    var e := LineEnd(content, 2);
    assert m.title == content[2..e];
    assert IsTitleText(m.title) by {
      forall i | 0 <= i < |m.title|
        ensures !IsLineTerminator(m.title[i])
      {
        assert m.title[i] == content[i + 2];
      }
    }
    assert content[..2] == "# " && content[e..e + 1] == "\n";
    assert content == content[..2] + content[2..e] + content[e..e + 1] + content[e + 1..];
  }

  /** A `## ` heading line starts at `p`: `^## (.+)$` under the `m` flag matches there. */
  predicate HeadingAt(s: string, p: nat)
  {
    p + 3 < |s| && (p == 0 || IsLineTerminator(s[p - 1]))
    && s[p] == '#' && s[p + 1] == '#' && s[p + 2] == ' ' && !IsLineTerminator(s[p + 3])
  }

  /**
   * `s.search(/^## (.+)$/m)`, scanning from `from`: the first position where a
   * heading line starts; `None` stands for -1. Once `.+` has one character,
   * `$` matches at the end of that line, so a heading needs only its first
   * character after `## `.
   */
  function SearchHeading(s: string, from: nat): (r: Option<nat>)
    requires from <= |s|
    ensures r.Some? ==> from <= r.value < |s| && HeadingAt(s, r.value)
    ensures r.Some? ==> forall p :: from <= p < r.value ==> !HeadingAt(s, p)
    ensures r.None? ==> forall p :: from <= p ==> !HeadingAt(s, p)
    decreases |s| - from
  {
    if from == |s| then None
    else if HeadingAt(s, from) then Some(from)
    else SearchHeading(s, from + 1)
  }

  /**
   * The excerpt's markdown: the text between the end of the title match and
   * the first heading line, trimmed; `None` when no heading line follows.
   */
  function ExcerptSource(content: string, lastIndex: nat): Option<string>
    requires lastIndex <= |content|
  {
    var rest := content[lastIndex..];
    match SearchHeading(rest, 0)
    case None => None
    case Some(pos) => Some(Trim(rest[..pos]))
  }

  /** The excerpt: the rendered and rewritten excerpt markdown, or `''` without a heading line. */
  function Excerpt(content: string, lastIndex: nat, render: string -> string): string
    requires lastIndex <= |content|
  {
    match ExcerptSource(content, lastIndex)
    case None => ""
    case Some(source) => RewriteLang(render(source))
  }

  function HeadingLine(h: string): string { "## " + h }

  /**
   * For a file made of a title line, an introduction free of `#` that ends a
   * line, and a heading line, the excerpt's markdown is the trimmed
   * introduction.
   */
  lemma ExcerptBeforeHeading(t: string, intro: string, h: string, tail: string)
    requires IsTitleText(t)
    requires '#' !in intro && (intro == [] || IsLineTerminator(intro[|intro| - 1]))
    requires |h| >= 1 && !IsLineTerminator(h[0])
    ensures var content := TitleLine(t) + intro + HeadingLine(h) + tail;
      MatchTitle(content) == Some(TitleMatch(t, |t| + 3)) && ExcerptSource(content, |t| + 3) == Some(Trim(intro))
  {
    var rest := intro + HeadingLine(h) + tail;
    var content := TitleLine(t) + intro + HeadingLine(h) + tail;
    assert content == TitleLine(t) + rest;
    MatchTitleLine(t, rest);
    assert content[|t| + 3..] == rest;
    FirstHeadingAfter(intro, h, tail);
  }

  /** The first heading of an introduction free of `#` followed by a heading line is that line. */
  lemma FirstHeadingAfter(intro: string, h: string, tail: string)
    requires '#' !in intro && (intro == [] || IsLineTerminator(intro[|intro| - 1]))
    requires |h| >= 1 && !IsLineTerminator(h[0])
    ensures var rest := intro + HeadingLine(h) + tail;
      SearchHeading(rest, 0) == Some(|intro|) && rest[..|intro|] == intro
  {
    var rest := intro + HeadingLine(h) + tail;
    assert HeadingAt(rest, |intro|) by {
      assert rest[|intro|] == '#' && rest[|intro| + 1] == '#' && rest[|intro| + 2] == ' ';
      assert rest[|intro| + 3] == h[0];
      if |intro| > 0 {
        assert rest[|intro| - 1] == intro[|intro| - 1];
      }
    }
    forall p | 0 <= p < |intro|
      ensures !HeadingAt(rest, p)
    {
      assert rest[p] == intro[p];
    }
    assert rest[..|intro|] == intro;
  }

  /** Without a heading line after the title there is no excerpt. */
  lemma ExcerptWithoutHeading(content: string, lastIndex: nat, render: string -> string)
    requires lastIndex <= |content| && '#' !in content[lastIndex..]
    ensures ExcerptSource(content, lastIndex).None? && Excerpt(content, lastIndex, render) == ""
  {
    var rest := content[lastIndex..];
    forall p | 0 <= p
      ensures !HeadingAt(rest, p)
    {
      if p < |rest| {
        assert rest[p] != '#';
      }
    }
  }

  // The `lang-` rewrite: `.replace(/<code class="lang-([a-z0-9]+)">/g, '<code class="brush: $1">')`.

  const LangOpen: string := "<code class=\"lang-"
  const BrushOpen: string := "<code class=\"brush: "
  const TagClose: string := "\">"

  predicate IsLangChar(c: char) { 'a' <= c <= 'z' || '0' <= c <= '9' }

  /** End of the longest run of `[a-z0-9]` characters starting at `from`. */
  function LangRunEnd(s: string, from: nat): (e: nat)
    requires from <= |s|
    ensures from <= e <= |s|
    decreases |s| - from
  {
    if from < |s| && IsLangChar(s[from]) then LangRunEnd(s, from + 1) else from
  }

  /**
   * A match of the code-class pattern at the start of `s`, as the end of the
   * captured class name. The greedy `[a-z0-9]+` can only be followed by `"`
   * at the end of its longest run, so no shorter run can match instead.
   */
  function LangMatch(s: string): (r: Option<nat>)
    ensures r.Some? ==> |LangOpen| < r.value && r.value + 2 <= |s|
  {
    if !IsPrefix(LangOpen, s) then None
    else
      var e := LangRunEnd(s, |LangOpen|);
      if e > |LangOpen| && e + 2 <= |s| && s[e] == '"' && s[e + 1] == '>' then Some(e) else None
  }

  /** The global replace: matches are found left to right, and scanning resumes after each one. */
  function RewriteLang(s: string): string
    decreases |s|
  {
    if s == [] then []
    else
      match LangMatch(s)
      case Some(e) => BrushOpen + s[|LangOpen|..e] + TagClose + RewriteLang(s[e + 2..])
      case None => [s[0]] + RewriteLang(s[1..])
  }

  predicate IsLangName(x: string) { |x| >= 1 && forall i :: 0 <= i < |x| ==> IsLangChar(x[i]) }

  /** Text without `<` passes through the rewrite unchanged. */
  lemma {:induction false} RewriteLangPlain(p: string, rest: string)
    requires '<' !in p
    ensures RewriteLang(p + rest) == p + RewriteLang(rest)
    decreases |p|
  {
    if p != [] {
      var s := p + rest;
      assert s[0] == p[0] && s[0] != '<';
      assert !IsPrefix(LangOpen, s) by { assert LangOpen[0] == '<'; }
      assert LangMatch(s).None?;
      assert s[1..] == p[1..] + rest;
      assert RewriteLang(s) == [s[0]] + RewriteLang(s[1..]);
      RewriteLangPlain(p[1..], rest);
      assert p == [p[0]] + p[1..];
    } else {
      assert p + rest == rest;
    }
  }

  /** Every `<code class="lang-x">` tag becomes `<code class="brush: x">`. */
  lemma RewriteLangTag(x: string, rest: string)
    requires IsLangName(x)
    ensures RewriteLang(LangOpen + x + TagClose + rest) == BrushOpen + x + TagClose + RewriteLang(rest)
  {
    var s := LangOpen + x + TagClose + rest;
    var n := |LangOpen|;
    assert s[..n] == LangOpen;
    assert forall i :: n <= i < n + |x| ==> s[i] == x[i - n];
    assert LangRunEnd(s, n) == n + |x| by {
      LangRunEndAt(s, n, n + |x|);
    }
    assert s[n + |x|] == '"' && s[n + |x| + 1] == '>';
    assert s[n..n + |x|] == x;
    assert s[n + |x| + 2..] == rest;
  }

  /** The run from `from` ends at `e` when everything in between is a class character and `s[e]` is not. */
  lemma {:induction false} LangRunEndAt(s: string, from: nat, e: nat)
    requires from <= e < |s| && !IsLangChar(s[e])
    requires forall i :: from <= i < e ==> IsLangChar(s[i])
    ensures LangRunEnd(s, from) == e
    decreases e - from
  {
    if from < e {
      LangRunEndAt(s, from + 1, e);
    }
  }

  // The image rewrite: `.replace(/<img src="([^"]+)"/g, '<img src="' + base + '$1"')`.

  const ImgOpen: string := "<img src=\""
  const QuoteMark: string := "\""

  /** Position of the first `"` at or after `from`, or `|s|`. */
  function QuoteAt(s: string, from: nat): (e: nat)
    requires from <= |s|
    ensures from <= e <= |s|
    decreases |s| - from
  {
    if from == |s| || s[from] == '"' then from else QuoteAt(s, from + 1)
  }

  /** A match of the image pattern at the start of `s`, as the position of the closing quote. */
  function ImgMatch(s: string): (r: Option<nat>)
    ensures r.Some? ==> |ImgOpen| < r.value < |s|
  {
    if !IsPrefix(ImgOpen, s) then None
    else
      var e := QuoteAt(s, |ImgOpen|);
      if e > |ImgOpen| && e < |s| then Some(e) else None
  }

  /** `'api/article/' + category + '/' + slug + '/'`, the prefix every image source receives. */
  function ImageBase(category: string, slug: string): string
  {
    "api/article/" + category + "/" + slug + "/"
  }

  function RewriteImg(s: string, base: string): string
    decreases |s|
  {
    if s == [] then []
    else
      match ImgMatch(s)
      case Some(e) => ImgOpen + base + s[|ImgOpen|..e] + QuoteMark + RewriteImg(s[e + 1..], base)
      case None => [s[0]] + RewriteImg(s[1..], base)
  }

  /** Text without `<` passes through the image rewrite unchanged. */
  lemma {:induction false} RewriteImgPlain(p: string, rest: string, base: string)
    requires '<' !in p
    ensures RewriteImg(p + rest, base) == p + RewriteImg(rest, base)
    decreases |p|
  {
    if p != [] {
      var s := p + rest;
      assert s[0] == p[0] && s[0] != '<';
      assert !IsPrefix(ImgOpen, s) by { assert ImgOpen[0] == '<'; }
      assert ImgMatch(s).None?;
      assert s[1..] == p[1..] + rest;
      assert RewriteImg(s, base) == [s[0]] + RewriteImg(s[1..], base);
      RewriteImgPlain(p[1..], rest, base);
      assert p == [p[0]] + p[1..];
    } else {
      assert p + rest == rest;
    }
  }

  /** Every `<img src="X"` becomes `<img src="<base>X"`. */
  lemma RewriteImgTag(x: string, rest: string, base: string)
    requires |x| >= 1 && '"' !in x
    ensures RewriteImg(ImgOpen + x + QuoteMark + rest, base) == ImgOpen + base + x + QuoteMark + RewriteImg(rest, base)
  {
    var s := ImgOpen + x + QuoteMark + rest;
    var n := |ImgOpen|;
    assert s[..n] == ImgOpen;
    assert forall i :: n <= i < n + |x| ==> s[i] == x[i - n];
    assert QuoteAt(s, n) == n + |x| by {
      QuoteAtEnd(s, n, n + |x|);
    }
    assert ImgMatch(s) == Some(n + |x|);
    assert s[n..n + |x|] == x;
    assert s[n + |x| + 1..] == rest;
  }

  lemma {:induction false} QuoteAtEnd(s: string, from: nat, e: nat)
    requires from <= e < |s| && s[e] == '"'
    requires forall i :: from <= i < e ==> s[i] != '"'
    ensures QuoteAt(s, from) == e
    decreases e - from
  {
    if from < e {
      QuoteAtEnd(s, from + 1, e);
    }
  }

  /** The stored article body: the whole file rendered, then both rewrites (db.js). */
  function StoredContent(content: string, category: string, slug: string, render: string -> string): string
  {
    RewriteImg(RewriteLang(render(content)), ImageBase(category, slug))
  }

  /** The in-memory reader's body: the whole file rendered, with the `lang-` rewrite only (model.js). */
  function ReaderContent(content: string, render: string -> string): string
  {
    RewriteLang(render(content))
  }
}
