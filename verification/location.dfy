/**
 The browser's `location.hash` as the one piece of navigation state, and the
 two functions at the top of the viewer that read and rewrite it: `getHash`
 and `updateHash`. The configuration object is a parameter.
 */
module Location {
  import opened Optional
  import opened JsString
  import opened Fragment

  /** The two configuration fields the navigation logic reads. */
  datatype Config = Config(title: string, index: Option<string>)

  /** What `location.hash` can read as: empty, or `#` followed by a non-empty fragment. */
  predicate ValidHash(h: string) {
    h == "" || (|h| >= 2 && h[0] == '#')
  }

  /** A fragment that does not itself start with `#`. */
  predicate NoLeadingHash(f: string) {
    f == "" || f[0] != '#'
  }

  /**
   The browser's behaviour on `location.hash = v`: one leading `#` is optional,
   so `x` and `#x` both read back as `#x`, and an empty fragment reads as `""`.
   */
  function Assign(v: string): (h: string)
    ensures ValidHash(h)
    ensures h == "" <==> v == "" || v == "#"
    ensures h != "" ==> h[1..] == (if v[0] == '#' then v[1..] else v)
  {
    if v == "" || v == "#" then ""
    else if v[0] == '#' then v
    else "#" + v
  }

  /** `CONFIG.index || ''`: a missing index reads as the empty string. */
  function IndexName(cfg: Config): string {
    cfg.index.GetOr("")
  }

  /** `indexHash`: `#` followed by the index file name up to its first `.`. */
  function IndexHash(cfg: Config): (r: string)
    ensures |r| >= 1 && r[0] == '#'
    ensures '.' !in r[1..] && r[1..] <= IndexName(cfg)
    ensures |r| - 1 < |IndexName(cfg)| ==> IndexName(cfg)[|r| - 1] == '.'
  {
    "#" + SplitHead(IndexName(cfg), '.')
  }

  /**
   `getHash`: the current hash, or the index hash when the current one is
   empty, without its first character.
   */
  function GetHash(h: string, cfg: Config): (f: string)
    ensures h != "" ==> f == h[1..]
    ensures h == "" ==> f == SplitHead(IndexName(cfg), '.')
    ensures h == "" ==> '.' !in f && f <= IndexName(cfg)
    ensures h == "" && cfg.index.None? ==> f == ""
  {
    var hash := if h != "" then h else IndexHash(cfg);
    Substr(hash, 1, |hash|)
  }

  /** A fragment that does not start with two `#`s; at most one `#` is lost to the browser on write-back. */
  predicate NoDoubleLeadingHash(f: string) {
    |f| < 2 || f[0] != '#' || f[1] != '#'
  }

  /**
   `updateHash(content)`: cut the current fragment at its first `_` and write
   back `<page>_<content>`. The page part never carries a `_`. When the page
   itself starts with `#`, the browser takes that `#` as the optional prefix,
   so the hash is `<page>_<content>` rather than `#<page>_<content>`.
   */
  function UpdateHash(h: string, cfg: Config, content: string): (h': string)
    ensures ValidHash(h') && h' != ""
    ensures var p := Parse(GetHash(h, cfg)).page;
            h' == (if NoLeadingHash(p) then "#" + p else p) + "_" + content
  {
    var p := PageOf(GetHash(h, cfg));
    var v := p + "_" + content;
    assert v[|p|] == '_';
    assert v[0] == '#' <==> !NoLeadingHash(p);
    Assign(v)
  }

  /** Reading back the hash `#r_c`, for a `_`-free `r`, gives page `r` and anchor `_c`. */
  lemma {:induction false} ReadBackJoin(r: string, cfg: Config, content: string)
    requires '_' !in r
    ensures Parse(GetHash("#" + r + "_" + content, cfg)) == NavKey(r, Some("_" + content))
  {
    var t := r + "_" + content;
    var v := "#" + r + "_" + content;
    assert v == "#" + t;
    assert v[1..] == t;
    assert GetHash(v, cfg) == t;
    ParseJoin(r, content);
  }

  /** Dropping the leading `#` of a `_`-free page `#r` leaves a `_`-free `r`. */
  lemma {:induction false} HashPageTail(p: string)
    requires '_' !in p && !NoLeadingHash(p)
    ensures p == "#" + p[1..] && '_' !in p[1..]
  {
    var r := p[1..];
    forall k | 0 <= k < |r| ensures r[k] != '_' {
      assert r[k] == p[k + 1];
    }
  }

  /**
   The page after `updateHash(c)`: the page before the call, minus the one
   leading `#` the browser drops on write-back; the anchor is exactly `_c`.
   */
  lemma {:induction false} UpdateHashPage(h: string, cfg: Config, content: string)
    ensures var p := Parse(GetHash(h, cfg)).page;
            Parse(GetHash(UpdateHash(h, cfg, content), cfg))
              == NavKey(if NoLeadingHash(p) then p else p[1..], Some("_" + content))
  {
    var p := Parse(GetHash(h, cfg)).page;
    var h' := UpdateHash(h, cfg, content);
    if NoLeadingHash(p) {
      assert h' == "#" + p + "_" + content;
      ReadBackJoin(p, cfg, content);
    } else {
      HashPageTail(p);
      var r := p[1..];
      assert h' == p + "_" + content;
      assert h' == "#" + r + "_" + content;
      ReadBackJoin(r, cfg, content);
    }
  }

  /** After `updateHash(c)` the page is unchanged and the anchor is exactly `_c`, for pages without a leading `#`. */
  lemma {:induction false} UpdateHashKeepsPage(h: string, cfg: Config, content: string)
    requires NoLeadingHash(Parse(GetHash(h, cfg)).page)
    ensures Parse(GetHash(UpdateHash(h, cfg, content), cfg))
         == NavKey(Parse(GetHash(h, cfg)).page, Some("_" + content))
  {
    UpdateHashPage(h, cfg, content);
  }

  /** No accumulation for a page without a leading `#`: it survives the first call unchanged. */
  lemma {:induction false} NoAccumulationPlainPage(h: string, cfg: Config, a: string, b: string)
    requires NoLeadingHash(Parse(GetHash(h, cfg)).page)
    ensures UpdateHash(UpdateHash(h, cfg, a), cfg, b) == UpdateHash(h, cfg, b)
  {
    var p := Parse(GetHash(h, cfg)).page;
    var h1 := UpdateHash(h, cfg, a);
    UpdateHashPage(h, cfg, a);
    assert Parse(GetHash(h1, cfg)).page == p;
  }

  /** No accumulation for a page `#q`: the first call turns it into `q`, and `#q_b` is written either way. */
  lemma {:induction false} NoAccumulationHashPage(h: string, cfg: Config, a: string, b: string)
    requires !NoLeadingHash(Parse(GetHash(h, cfg)).page)
    requires NoDoubleLeadingHash(Parse(GetHash(h, cfg)).page)
    ensures UpdateHash(UpdateHash(h, cfg, a), cfg, b) == UpdateHash(h, cfg, b)
  {
    var p := Parse(GetHash(h, cfg)).page;
    HashPageTail(p);
    var q := p[1..];
    assert NoLeadingHash(q) by {
      if q != "" { assert q[0] == p[1]; }
    }
    var h1 := UpdateHash(h, cfg, a);
    UpdateHashPage(h, cfg, a);
    assert Parse(GetHash(h1, cfg)).page == q;
    assert UpdateHash(h1, cfg, b) == "#" + q + "_" + b;
    assert UpdateHash(h, cfg, b) == p + "_" + b;
  }

  /**
   Anchors never accumulate: a second `updateHash` replaces the first one's
   anchor. This holds as long as the page does not start with `##`; a page
   `#q` becomes `q` after the first call, but both sequences still end at `#q_b`.
   */
  lemma {:induction false} UpdateHashNoAccumulation(h: string, cfg: Config, a: string, b: string)
    requires NoDoubleLeadingHash(Parse(GetHash(h, cfg)).page)
    ensures UpdateHash(UpdateHash(h, cfg, a), cfg, b) == UpdateHash(h, cfg, b)
  {
    if NoLeadingHash(Parse(GetHash(h, cfg)).page) {
      NoAccumulationPlainPage(h, cfg, a, b);
    } else {
      NoAccumulationHashPage(h, cfg, a, b);
    }
  }

  /** Repeating `updateHash(c)` changes nothing, on the same fragments. */
  lemma {:induction false} UpdateHashIdempotent(h: string, cfg: Config, content: string)
    requires NoDoubleLeadingHash(Parse(GetHash(h, cfg)).page)
    ensures var h' := UpdateHash(h, cfg, content); UpdateHash(h', cfg, content) == h'
  {
    UpdateHashNoAccumulation(h, cfg, content, content);
  }

  /**
   The page-keeping guarantee needs `NoLeadingHash`: for the hash `##p` the
   page is `#p`, but the write-back `#p_c` loses that `#` to the browser, so
   the page becomes `p`.
   */
  lemma {:induction false} LeadingHashChangesPage(p: string, cfg: Config, c: string)
    requires '_' !in p
    ensures var h := "#" + ("#" + p);
            && Parse(GetHash(h, cfg)).page == "#" + p
            && UpdateHash(h, cfg, c) == "#" + p + "_" + c
            && Parse(GetHash(UpdateHash(h, cfg, c), cfg)).page == p
  {
    var h := "#" + ("#" + p);
    assert GetHash(h, cfg) == "#" + p;
    assert '_' !in "#" + p;
    var v := "#" + p + "_" + c;
    assert UpdateHash(h, cfg, c) == v;
    assert GetHash(v, cfg) == p + "_" + c;
    ParseJoin(p, c);
  }

  /**
   No-accumulation and idempotence need `NoDoubleLeadingHash`: from the hash
   `###p`, `updateHash(c)` writes `##p_c`, and a second `updateHash(c)` then
   writes `#p_c`, so repeating the call changes the hash.
   */
  lemma {:induction false} TripleHashAccumulates(p: string, cfg: Config, c: string)
    requires '_' !in p
    ensures var pp := "#" + ("#" + p);
            var h := "#" + pp;
            && UpdateHash(h, cfg, c) == pp + "_" + c
            && UpdateHash(UpdateHash(h, cfg, c), cfg, c) == "#" + p + "_" + c
            && UpdateHash(UpdateHash(h, cfg, c), cfg, c) != UpdateHash(h, cfg, c)
  {
    var pp := "#" + ("#" + p);
    var h := "#" + pp;
    assert GetHash(h, cfg) == pp;
    assert '_' !in pp;
    var h1 := pp + "_" + c;
    assert UpdateHash(h, cfg, c) == h1;
    var rest := "#" + p;
    assert GetHash(h1, cfg) == rest + "_" + c;
    assert '_' !in rest;
    ParseJoin(rest, c);
    assert UpdateHash(h1, cfg, c) == rest + "_" + c;
    assert |rest + "_" + c| < |h1|;
  }
}
