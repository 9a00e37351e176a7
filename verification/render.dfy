/**
 What one `loadContent` call decides, once the DOM and the fetch are set
 aside: the navigation key, the resource it fetches, the sidebar positions it
 marks, the footer it appends and the document title it sets.
 */
module Render {
  import opened Optional
  import opened JsString
  import opened Fragment
  import opened Location
  import opened Sidebar

  /**
   The document title after a page loads: the site title alone when `#<page>`
   equals the configured index, and `<h1 text> - <site title>` otherwise.
   */
  function Title(page: string, cfg: Config, h1Text: string): (t: string)
    ensures t == cfg.title <==> cfg.index == Some("#" + page)
    ensures t != cfg.title ==> t == h1Text + " - " + cfg.title
  {
    if cfg.index == Some("#" + page) then cfg.title
    else
      assert |h1Text + " - " + cfg.title| > |cfg.title|;
      h1Text + " - " + cfg.title
  }

  /** Everything one page load decides. */
  datatype View = View(
    key: NavKey,            // the parsed fragment; the anchor is only logged
    resource: string,       // the markdown file fetched
    selected: set<int>,     // the sidebar positions marked "selected"
    footer: Option<Footer>, // the previous/next footer, if any
    title: string           // the document title once the fetch succeeds
  )

  /** `loadContent` for the hash `h`, sidebar `links` and the rendered page's `<h1>` text. */
  function LoadContent(h: string, cfg: Config, links: seq<Link>, h1Text: string): (v: View)
    ensures Serialize(v.key) == GetHash(h, cfg) && WellFormed(v.key)
    ensures v.resource == "docs/" + v.key.page + ".md"
    ensures forall j :: j in v.selected <==> 0 <= j < |links| && links[j].href == v.key.page + ".md"
    ensures v.footer.None? <==> v.selected == {}
    ensures v.title == cfg.title <==> cfg.index == Some("#" + v.key.page)
  {
    var key := Parse(GetHash(h, cfg));
    View(key, "docs/" + key.page + ".md", Selected(links, key.page),
         FooterFor(links, key.page), Title(key.page, cfg, h1Text))
  }

  /**
   A click on a heading anchor (`updateHash`) reloads the same page: same
   resource, same selection, same footer and title; only the anchor changes.
   `heading` is the heading's text at click time, which already ends with the
   `#` of the anchor appended to it.
   */
  lemma {:induction false} HeadingClickReloadsSamePage(h: string, cfg: Config, links: seq<Link>, h1Text: string, heading: string)
    requires NoLeadingHash(Parse(GetHash(h, cfg)).page)
    ensures var before := LoadContent(h, cfg, links, h1Text);
            var after := LoadContent(UpdateHash(h, cfg, heading), cfg, links, h1Text);
            && after.key == NavKey(before.key.page, Some("_" + heading))
            && after.resource == before.resource
            && after.selected == before.selected
            && after.footer == before.footer
            && after.title == before.title
  {
    UpdateHashKeepsPage(h, cfg, heading);
  }

  /**
   Where a sidebar click lands: the fragment becomes the `href` up to its
   first `.`; when that is empty the hash is cleared and the index page loads.
   */
  lemma ClickLandsOn(href: string, cfg: Config)
    requires OnClick(href).Navigate?
    ensures var f := GetHash(Assign(OnClick(href).newHash), cfg);
            && (SplitHead(href, '.') != "" ==> f == SplitHead(href, '.'))
            && (SplitHead(href, '.') == "" ==> f == GetHash("", cfg))
  {
  }

  /**
   Clicking the sidebar link `<p>.md`, for a plain page name `p`, navigates
   to `#p`, and the page that then loads is `p` with that link selected and a
   footer present.
   */
  lemma {:induction false} SidebarClickSelectsLink(links: seq<Link>, i: int, p: string, cfg: Config, h1Text: string)
    requires 0 <= i < |links| && links[i].href == p + ".md"
    requires p != "" && '.' !in p && '_' !in p && ':' !in p
    ensures OnClick(links[i].href) == Navigate("#" + p)
    ensures var v := LoadContent(Assign("#" + p), cfg, links, h1Text);
            && v.key == NavKey(p, None)
            && i in v.selected
            && v.footer.Some?
  {
    ClickMarkdownPage(p);
    assert GetHash(Assign("#" + p), cfg) == p;
    var v := LoadContent(Assign("#" + p), cfg, links, h1Text);
    assert v.key == NavKey(p, None);
    assert i in v.selected;
  }

  /**
   A sidebar page whose name holds `_` cannot be reached by its own link:
   clicking `<a>_<b>.md` writes `#<a>_<b>`, and `loadContent` reads that back
   as page `a` with anchor `_<b>`, so `docs/<a>.md` is fetched instead.
   */
  lemma {:induction false} UnderscorePageLoadsPrefix(a: string, b: string, cfg: Config, links: seq<Link>, h1Text: string)
    requires a != "" && '.' !in a && ':' !in a && '_' !in a
    requires '.' !in b && ':' !in b
    ensures var p := a + "_" + b;
            && OnClick(p + ".md") == Navigate("#" + p)
            && LoadContent(Assign("#" + p), cfg, links, h1Text).key == NavKey(a, Some("_" + b))
  {
    var p := a + "_" + b;
    assert '.' !in p && ':' !in p;
    ClickMarkdownPage(p);
    var h := Assign("#" + p);
    assert h == "#" + p;
    assert GetHash(h, cfg) == p;
    ParseJoin(a, b);
  }

  /** `'README.md'.split('.')[0]` is `README`. */
  lemma ReadmeSplitHead()
    ensures SplitHead("README.md", '.') == "README"
  {
    assert "README.md"[6] == '.';
    assert "README.md"[..6] == "README";
  }

  /** With the configured index `README.md` and an empty hash, the page that loads is `README`. */
  lemma ReadmeIndexDefaultPage(title: string, links: seq<Link>, h1Text: string)
    ensures LoadContent("", Config(title, Some("README.md")), links, h1Text).key.page == "README"
  {
    var cfg := Config(title, Some("README.md"));
    ReadmeSplitHead();
    assert IndexName(cfg) == "README.md";
    var f := GetHash("", cfg);
    assert f == "README";
    assert '_' !in f;
    assert Parse(f).page == f;
  }

  /**
   With the configured index `README.md`, the title is never the site title
   alone: `#<page>` starts with `#` and `README.md` does not.
   */
  lemma ReadmeIndexNeverUsesSiteTitle(h: string, title: string, links: seq<Link>, h1Text: string)
    ensures LoadContent(h, Config(title, Some("README.md")), links, h1Text).title == h1Text + " - " + title
  {
    var cfg := Config(title, Some("README.md"));
    var page := Parse(GetHash(h, cfg)).page;
    var target := "#" + page;
    assert target[0] == '#';
    assert "README.md"[0] == 'R';
    assert Title(page, cfg, h1Text) == h1Text + " - " + title;
  }

  /** With no index configured and an empty hash, the page is empty and `docs/.md` is fetched. */
  lemma MissingIndexLoadsEmptyPage(title: string, links: seq<Link>, h1Text: string)
    ensures LoadContent("", Config(title, None), links, h1Text).key.page == ""
    ensures LoadContent("", Config(title, None), links, h1Text).resource == "docs/.md"
  {
  }
}
