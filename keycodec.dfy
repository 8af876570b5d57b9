/**
 * The store key of an article: `category + '_' + slug + '_' + mtime`.
 * The key carries the article's identity (category and slug) and its
 * version (the file's modification time in milliseconds).
 */
module KeyCodec {
  import opened Text

  const Separator: char := '_'

  /** A version that survived the `!mtime` test: parsed and not zero. */
  type Version = v: int | v != 0 witness 1

  datatype Decoded = Decoded(category: string, slug: string, mtime: Version)

  /** A category or slug that the codec can carry: non-empty, no separator. */
  predicate IsComponent(s: string) { s != [] && Separator !in s }

  /** `category + '_' + slug`, the identity the reconciler keys its maps by. */
  function Name(category: string, slug: string): string
  {
    category + [Separator] + slug
  }

  function NameOf(d: Decoded): string { Name(d.category, d.slug) }

  /** `categorySlug + '_' + mtime`: the key rebuilt from an identity and a version. */
  function Rebuilt(name: string, mtime: int): string
  {
    name + [Separator] + IntToString(mtime)
  }

  function Encode(category: string, slug: string, mtime: int): string
  {
    Rebuilt(Name(category, slug), mtime)
  }

  /**
   * The sanitising test: split on '_', read parts 0 to 2 only; the category
   * and the slug must be non-empty and the third part must parse to a
   * non-zero number. Extra parts and trailing non-digits are ignored.
   */
  function Decode(key: string): Option<Decoded>
  {
    var parts := Split(key, Separator);
    if parts[0] == [] || |parts| < 2 || parts[1] == [] || |parts| < 3 then None
    else
      match ParseInt(parts[2])
      case None => None
      case Some(n) => if n == 0 then None else Some(Decoded(parts[0], parts[1], n))
  }

  /** The first part and its separator begin the string; the rest splits to the remaining parts. */
  lemma SplitPrefix(s: string)
    requires |Split(s, Separator)| >= 2
    ensures IsPrefix(Split(s, Separator)[0] + [Separator], s)
    ensures Split(s[|Split(s, Separator)[0]| + 1..], Separator) == Split(s, Separator)[1..]
  {
    match IndexOf(s, Separator)
    case None =>
    case Some(i) =>
      assert Split(s, Separator) == [s[..i]] + Split(s[i + 1..], Separator);
  }

  /** A key with three or more parts starts with its first two parts and their separators. */
  lemma {:induction false} SplitTwoPrefix(key: string)
    requires |Split(key, Separator)| >= 3
    ensures IsPrefix(Split(key, Separator)[0] + [Separator] + Split(key, Separator)[1] + [Separator], key)
  {
    var parts := Split(key, Separator);
    SplitPrefix(key);
    var rest := key[|parts[0]| + 1..];
    assert Split(rest, Separator) == parts[1..];
    SplitPrefix(rest);
    var head := parts[1] + [Separator];
    assert IsPrefix(head, rest);
    assert key == (parts[0] + [Separator]) + rest;
    PrefixConcat(parts[0] + [Separator], head, rest);
    assert parts[0] + [Separator] + head == parts[0] + [Separator] + parts[1] + [Separator];
  }

  /**
   * A key passes the test only with a non-empty category and slug free of
   * separators, and it starts with the identity they name and a separator.
   */
  lemma {:induction false} DecodePrefix(key: string, d: Decoded)
    requires Decode(key) == Some(d)
    ensures IsComponent(d.category) && IsComponent(d.slug)
    ensures IsPrefix(NameOf(d) + [Separator], key)
  {
    SplitPieces(key, Separator);
    SplitTwoPrefix(key);
  }

  lemma PrefixConcat(a: string, b: string, rest: string)
    requires IsPrefix(b, rest)
    ensures IsPrefix(a + b, a + rest)
  {
    assert (a + rest)[..|a + b|] == a + rest[..|b|];
  }

  lemma JoinCons(p: string, rest: seq<string>)
    requires |rest| >= 1
    ensures Join([p] + rest, Separator) == p + [Separator] + Join(rest, Separator)
  {
    assert ([p] + rest)[1..] == rest;
  }

  lemma JoinThree(a: string, b: string, c: string)
    ensures Join([a, b, c], Separator) == a + [Separator] + b + [Separator] + c
  {
    JoinCons(b, [c]);
    JoinCons(a, [b, c]);
    assert [b] + [c] == [b, c];
    assert [a] + [b, c] == [a, b, c];
  }

  /** Round trip: decoding an encoded key gives back its three components. */
  lemma DecodeEncode(category: string, slug: string, mtime: Version)
    requires IsComponent(category) && IsComponent(slug)
    ensures Decode(Encode(category, slug, mtime)) == Some(Decoded(category, slug, mtime))
  {
    var t := IntToString(mtime);
    IntToStringChars(mtime);
    JoinThree(category, slug, t);
    assert Encode(category, slug, mtime) == Join([category, slug, t], Separator);
    SplitJoin([category, slug, t], Separator);
    ParseIntToString(mtime);
  }

  lemma SeparatorAt(n: string, t: string)
    ensures (n + [Separator] + t)[|n|] == Separator
  {
  }

  /** The rebuilt key determines the identity and the version it was rebuilt from. */
  lemma RebuiltInjective(n1: string, v1: int, n2: string, v2: int)
    requires Rebuilt(n1, v1) == Rebuilt(n2, v2)
    ensures n1 == n2 && v1 == v2
  {
    var k := Rebuilt(n1, v1);
    var t1, t2 := IntToString(v1), IntToString(v2);
    assert k == n1 + ([Separator] + t1) == n2 + ([Separator] + t2);
    if |t1| < |t2| {
      SeparatorAt(n1, t1);
      assert false;
    } else if |t2| < |t1| {
      SeparatorAt(n2, t2);
      assert false;
    }
    assert t1 == k[|k| - |t1|..] == t2;
    IntToStringInjective(v1, v2);
    assert n1 == k[..|n1|] == n2;
  }

  /** A key is canonical when rebuilding it from its decoded parts gives it back. */
  predicate Canonical(key: string)
  {
    Decode(key).Some? && Encode(Decode(key).value.category, Decode(key).value.slug, Decode(key).value.mtime) == key
  }

  lemma EncodeCanonical(category: string, slug: string, mtime: Version)
    requires IsComponent(category) && IsComponent(slug)
    ensures Canonical(Encode(category, slug, mtime))
  {
    DecodeEncode(category, slug, mtime);
  }

  /** The first two parts of `c_sl_t` are `c` and `sl`, the third is what `t` splits to first. */
  lemma {:induction false} SplitKey(c: string, sl: string, t: string)
    requires IsComponent(c) && IsComponent(sl)
    ensures var parts := Split(Name(c, sl) + [Separator] + t, Separator);
      |parts| >= 3 && parts[0] == c && parts[1] == sl && parts[2] == Split(t, Separator)[0]
  {
    assert Name(c, sl) + [Separator] + t == c + [Separator] + (sl + [Separator] + t);
    SplitCons(c, sl + [Separator] + t, Separator);
    SplitCons(sl, t, Separator);
  }

  /** Parts after the third are ignored, so a key with a suffix decodes like the key without it. */
  lemma {:induction false} DecodeIgnoresExtraParts(c: string, sl: string, mtime: Version, extra: string)
    requires IsComponent(c) && IsComponent(sl)
    ensures Decode(Encode(c, sl, mtime) + [Separator] + extra) == Some(Decoded(c, sl, mtime))
    ensures !Canonical(Encode(c, sl, mtime) + [Separator] + extra)
  {
    var t := IntToString(mtime);
    var key := Encode(c, sl, mtime) + [Separator] + extra;
    assert key == Name(c, sl) + [Separator] + (t + [Separator] + extra);
    SplitKey(c, sl, t + [Separator] + extra);
    SplitCons(t, extra, Separator);
    ParseIntToString(mtime);
    assert Decode(key) == Some(Decoded(c, sl, mtime));
    assert |Encode(c, sl, mtime)| < |key|;
  }

  lemma ZeroPaddedValue(d: string)
    requires AllDigits(d)
    ensures AllDigits("0" + d) && DigitsValue("0" + d) == DigitsValue(d)
  {
    if |d| > 0 {
      ZeroPaddedValue(d[..|d| - 1]);
      assert ("0" + d)[..|d|] == "0" + d[..|d| - 1];
    }
  }

  lemma {:induction false} ParseZeroPadded(n: nat)
    ensures ParseInt("0" + NatToString(n)) == Some(n as int)
  {
    var t := "0" + NatToString(n);
    ZeroPaddedValue(NatToString(n));
    AllDigitsLeading(t);
    NatToStringValue(n);
    assert t[0] == '0';
  }

  /** A zero-padded version passes the test, and the rebuilt key drops the padding. */
  lemma {:induction false} DecodeIgnoresLeadingZeros(c: string, sl: string, mtime: nat)
    requires IsComponent(c) && IsComponent(sl) && mtime > 0
    ensures Decode(Name(c, sl) + [Separator] + "0" + NatToString(mtime)) == Some(Decoded(c, sl, mtime))
    ensures !Canonical(Name(c, sl) + [Separator] + "0" + NatToString(mtime))
  {
    var t := "0" + NatToString(mtime);
    var key := Name(c, sl) + [Separator] + t;
    assert Name(c, sl) + [Separator] + "0" + NatToString(mtime) == key;
    SplitKey(c, sl, t);
    assert Separator !in t by {
      assert forall i :: 0 <= i < |t| ==> IsDigit(t[i]) by { ZeroPaddedValue(NatToString(mtime)); }
    }
    assert IndexOf(t, Separator).None?;
    ParseZeroPadded(mtime);
    assert Decode(key) == Some(Decoded(c, sl, mtime));
    assert |Encode(c, sl, mtime)| < |key|;
  }

  /** A version of zero, a missing version and a version without leading digits are purged. */
  lemma DecodeRejects(c: string, sl: string, t: string)
    requires IsComponent(c) && IsComponent(sl)
    requires Separator !in t && (t == [] || (!IsDigit(t[0]) && t[0] != '-' && t[0] != '+'))
    ensures Decode(Encode(c, sl, 0)).None?
    ensures Decode(Name(c, sl)).None?
    ensures Decode(Name(c, sl) + [Separator] + t).None?
  {
    SplitKey(c, sl, IntToString(0));
    ParseIntToString(0);
    JoinCons(c, [sl]);
    assert [c] + [sl] == [c, sl];
    SplitJoin([c, sl], Separator);
    SplitKey(c, sl, t);
    assert IndexOf(t, Separator).None?;
  }

  /** An inventory name made of exactly two non-empty parts: the identities the codec can carry. */
  predicate IsIdentity(n: string)
  {
    var parts := Split(n, Separator);
    |parts| == 2 && parts[0] != [] && parts[1] != []
  }

  /** A key rebuilt from a two-part identity and a version decodes back to both. */
  lemma DecodeRebuilt(n: string, v: Version)
    requires IsIdentity(n)
    ensures Decode(Rebuilt(n, v)).Some?
    ensures NameOf(Decode(Rebuilt(n, v)).value) == n && Decode(Rebuilt(n, v)).value.mtime == v
  {
    var parts := Split(n, Separator);
    JoinSplit(n, Separator);
    assert parts[1..] == [parts[1]];
    assert n == Name(parts[0], parts[1]);
    DecodeEncode(parts[0], parts[1], v);
  }
}
