/**
 The navigation key carried by the URL fragment: a page name and an optional
 anchor, separated by the first `_`. Parsing follows `loadContent`, which keeps
 the `_` at the front of the anchor.
 */
module Fragment {
  import opened Optional
  import opened JsString

  /** `page` names `docs/<page>.md`; `anchor`, when present, starts with `_`. */
  datatype NavKey = NavKey(page: string, anchor: Option<string>)

  /** The shape every parsed key has: a `_`-free page and an anchor that starts at a `_`. */
  predicate WellFormed(k: NavKey) {
    && '_' !in k.page
    && (k.anchor.Some? ==> |k.anchor.value| > 0 && k.anchor.value[0] == '_')
  }

  /** The fragment a key came from: the page followed by the anchor, if any. */
  function Serialize(k: NavKey): string {
    k.page + k.anchor.GetOr("")
  }

  /**
   The text before the first `_`, or the whole fragment when it holds none:
   the cut `hash.substr(0, hash.indexOf('_'))` that both `loadContent` and
   `updateHash` make under an `indexOf('_') >= 0` guard.
   */
  function PageOf(hash: string): (p: string)
    ensures p <= hash && '_' !in p
    ensures |p| < |hash| ==> hash[|p|] == '_'
  {
    IndexOfChar(hash, '_');
    var i := IndexOf(hash, "_");
    if i >= 0 then Substr(hash, 0, i) else hash
  }

  /**
   The split at the top of `loadContent`: with a `_` in the fragment, the page
   is the text before the first `_` and the anchor is the rest, `_` included;
   without one, the page is the whole fragment.
   */
  function Parse(hash: string): (k: NavKey)
    ensures k.page == PageOf(hash)
    ensures k.anchor.None? <==> '_' !in hash
    ensures k.anchor.None? ==> k.page == hash
    ensures k.anchor.Some? ==> |k.anchor.value| > 0 && k.anchor.value[0] == '_' && hash == k.page + k.anchor.value
  {
    IndexOfChar(hash, '_');
    var i := IndexOf(hash, "_");
    if i >= 0 then
      assert hash == hash[..i] + hash[i..];
      NavKey(PageOf(hash), Some(SubstrFrom(hash, i)))
    else
      NavKey(hash, None)
  }

  /** Parsing a page joined to `"_" + c` by a `_` gives that page back, whatever `c` holds. */
  lemma {:induction false} ParseJoin(p: string, c: string)
    requires '_' !in p
    ensures Parse(p + "_" + c) == NavKey(p, Some("_" + c))
  {
    var s := p + "_" + c;
    var k := Parse(s);
    assert s[|p|] == '_';
    var q := k.page;
    var a := k.anchor.value;
    assert q == s[..|p|] == p;
    assert a == s[|p|..] == "_" + c;
  }

  /** Every fragment is the serialization of its parse, and that parse is well formed. */
  lemma SerializeParse(hash: string)
    ensures WellFormed(Parse(hash))
    ensures Serialize(Parse(hash)) == hash
  {
  }

  /** Every well-formed key survives a serialize/parse round trip. */
  lemma {:induction false} ParseSerialize(k: NavKey)
    requires WellFormed(k)
    ensures Parse(Serialize(k)) == k
  {
    match k.anchor
    case None =>
      assert Serialize(k) == k.page;
    case Some(a) =>
      assert a == "_" + a[1..];
      assert Serialize(k) == k.page + "_" + a[1..];
      ParseJoin(k.page, a[1..]);
  }
}
