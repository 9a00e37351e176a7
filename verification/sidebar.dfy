/**
 The sidebar: the ordered list of table-of-contents links, the click rule that
 turns a markdown link into a fragment change, the "selected" marker and the
 previous/next footer built from the selected link's neighbours.
 */
module Sidebar {
  import opened Optional
  import opened JsString

  /** A sidebar anchor: its `href` attribute and its text. */
  datatype Link = Link(href: string, text: string)

  /** What a click on a sidebar link does. */
  datatype ClickAction =
    | Navigate(newHash: string)   // default prevented; `location.hash` is assigned `newHash`
    | OpenInNewWindow             // `target=_blank` is set and the browser follows the link

  /**
   The sidebar click handler: a link is intercepted when its `href` holds no
   `http://` and `.md` first occurs after position 0; the new hash is `#`
   followed by the `href` up to its first `.`.
   */
  function OnClick(href: string): (a: ClickAction)
    ensures a.Navigate? <==>
              && (forall i :: !OccursAt(href, "http://", i))
              && (exists i :: 0 < i && OccursAt(href, ".md", i))
              && !OccursAt(href, ".md", 0)
    ensures a.Navigate? ==> a.newHash == "#" + SplitHead(href, '.')
  {
    if IndexOf(href, "http://") == -1 && IndexOf(href, ".md") > 0 then
      Navigate("#" + SplitHead(href, '.'))
    else
      OpenInNewWindow
  }

  /** `indexOf('.md')` on `<p>.md` finds the extension when `p` holds no `.`. */
  lemma {:induction false} ExtensionIndex(p: string)
    requires '.' !in p
    ensures IndexOf(p + ".md", ".md") == |p|
  {
    var s := p + ".md";
    assert s[|p|..|p| + 3] == ".md";
    assert OccursAt(s, ".md", |p|);
    forall i | 0 <= i < |p|
      ensures !OccursAt(s, ".md", i)
    {
      assert s[i..i + 3][0] == s[i] == p[i] != '.';
    }
  }

  /** No `http://` occurs in a string without `:`. */
  lemma {:induction false} NoColonNoScheme(s: string)
    requires ':' !in s
    ensures IndexOf(s, "http://") == -1
  {
    forall i | 0 <= i && i + 7 <= |s|
      ensures !OccursAt(s, "http://", i)
    {
      assert s[i..i + 7][4] == s[i + 4] != ':';
    }
  }

  /** A markdown page name holding no `.` and no `:` is intercepted and its extension dropped. */
  lemma {:induction false} ClickMarkdownPage(p: string)
    requires p != "" && '.' !in p && ':' !in p
    ensures OnClick(p + ".md") == Navigate("#" + p)
  {
    ExtensionIndex(p);
    NoColonNoScheme(p + ".md");
    SplitHeadJoin(p, ".md");
  }

  /** `http://` never occurs in `https:` followed by text without `:`. */
  lemma {:induction false} HttpsHasNoHttpScheme(q: string)
    requires ':' !in q
    ensures IndexOf("https:" + q, "http://") == -1
  {
    var s := "https:" + q;
    forall i | 0 <= i && i + 7 <= |s|
      ensures !OccursAt(s, "http://", i)
    {
      if i == 0 {
        assert s[i..i + 7][4] == s[4] == 's';
      } else if i == 1 {
        assert s[i..i + 7][0] == s[1] == 't';
      } else {
        assert s[i..i + 7][4] == s[i + 4] == q[i - 2];
      }
    }
  }

  /**
   Only `http://` counts as external: an `https://` markdown link is
   intercepted, and the fragment it writes is the scheme and host up to the first `.`.
   */
  lemma {:induction false} ClickHttpsMarkdown(p: string)
    requires '.' !in p && ':' !in p
    ensures var url := "https://" + p; OnClick(url + ".md") == Navigate("#" + url)
  {
    var t := "https://" + p;
    var s := t + ".md";
    var q := "//" + p + ".md";
    assert s == "https:" + q by {
      assert "https://" == "https:" + "//";
    }
    HttpsHasNoHttpScheme(q);
    assert IndexOf(s, "http://") == -1;
    assert '.' !in t by {
      assert forall k :: 0 <= k < |t| ==> t[k] == (if k < 8 then "https://"[k] else p[k - 8]);
    }
    ExtensionIndex(t);
    assert IndexOf(s, ".md") > 0;
    SplitHeadJoin(t, ".md");
    assert SplitHead(s, '.') == t;
  }

  /** An `https://<h>.<rest>.md` link, with no `:` after the scheme, passes both tests of the click handler. */
  lemma {:induction false} HttpsDottedPassesTests(h: string, rest: string)
    requires ':' !in h && ':' !in rest
    ensures var s := "https://" + h + "." + rest + ".md";
            IndexOf(s, "http://") == -1 && IndexOf(s, ".md") > 0
  {
    var s := "https://" + h + "." + rest + ".md";
    var q := "//" + h + "." + rest + ".md";
    assert s == "https:" + q by {
      assert "https://" == "https:" + "//";
    }
    assert ':' !in q by {
      assert ':' !in "//" && ':' !in "." && ':' !in ".md";
    }
    HttpsHasNoHttpScheme(q);
    assert OccursAt(s, ".md", |s| - 3) by {
      assert s[|s| - 3..] == ".md";
    }
    assert !OccursAt(s, ".md", 0) by {
      assert s[0..3][0] == 'h';
    }
  }

  /** In `https://<h>.<rest>.md`, with `h` free of `.`, everything before the first `.` is `https://<h>`. */
  lemma {:induction false} HttpsDottedHead(h: string, rest: string)
    requires '.' !in h
    ensures var url := "https://" + h; SplitHead(url + "." + rest + ".md", '.') == url
  {
    var url := "https://" + h;
    var tail := "." + rest + ".md";
    assert url + "." + rest + ".md" == url + tail;
    assert '.' !in url by {
      assert forall k :: 0 <= k < |url| ==> url[k] == (if k < 8 then "https://"[k] else h[k - 8]);
    }
    SplitHeadJoin(url, tail);
  }

  /**
   An `https://` link whose path holds further dots is intercepted too, and
   the fragment it writes stops at the first `.`: for `https://<h>.<rest>.md`
   it is `#https://<h>`, whatever `rest` holds.
   */
  lemma {:induction false} ClickHttpsDottedHost(h: string, rest: string)
    requires '.' !in h && ':' !in h && ':' !in rest
    ensures var url := "https://" + h; OnClick(url + "." + rest + ".md") == Navigate("#" + url)
  {
    HttpsDottedPassesTests(h, rest);
    HttpsDottedHead(h, rest);
  }

  /** An `http://` link is never intercepted. */
  lemma ClickHttpLink(rest: string)
    ensures OnClick("http://" + rest) == OpenInNewWindow
  {
  }

  /** An `href` starting with `.md` is never intercepted: `.md` must occur after position 0. */
  lemma ClickLeadingExtension(rest: string)
    ensures OnClick(".md" + rest) == OpenInNewWindow
  {
  }

  /** A `./<p>.md` link passes both tests of the click handler: no `http://`, and `.md` found after position 0. */
  lemma {:induction false} DotSlashPassesTests(p: string)
    requires '.' !in p && ':' !in p
    ensures var s := "./" + p + ".md"; IndexOf(s, "http://") == -1 && IndexOf(s, ".md") > 0
  {
    var s := "./" + p + ".md";
    assert OccursAt(s, ".md", |p| + 2) by {
      assert s[|p| + 2..|p| + 5] == ".md";
    }
    assert !OccursAt(s, ".md", 0) by {
      assert s[0..3][1] == '/';
    }
    assert ':' !in s by {
      assert ':' !in "./" && ':' !in ".md";
    }
    NoColonNoScheme(s);
  }

  /**
   A `./` relative link is intercepted, but everything before its first `.`
   is empty, so the hash it writes is a bare `#`.
   */
  lemma {:induction false} ClickDotSlash(p: string)
    requires '.' !in p && ':' !in p
    ensures OnClick("./" + p + ".md") == Navigate("#")
  {
    var s := "./" + p + ".md";
    DotSlashPassesTests(p);
    assert OnClick(s) == Navigate("#" + SplitHead(s, '.'));
    var head := SplitHead(s, '.');
    assert s[0] == '.';
    assert head == [];
    assert "#" + head == "#";
  }

  /** The footer entry for a neighbouring link: `#` plus its `href` up to the first `.`, and its text. */
  datatype FooterLink = FooterLink(target: string, text: string)

  /** The footer appended below the page: an optional previous and an optional next entry. */
  datatype Footer = Footer(prev: Option<FooterLink>, next: Option<FooterLink>)

  function FooterEntry(l: Link): FooterLink {
    FooterLink("#" + SplitHead(l.href, '.'), l.text)
  }

  /** The `href` the page's own sidebar link carries. */
  function PageHref(page: string): string {
    page + ".md"
  }

  /** The positions `a[href='<page>.md']` selects: every link whose `href` is exactly `<page>.md`. */
  function Selected(links: seq<Link>, page: string): set<int> {
    set j | 0 <= j < |links| && links[j].href == PageHref(page)
  }

  /** The last position whose `href` equals `target`, or -1 when none does. */
  function LastMatch(links: seq<Link>, target: string): (r: int)
    ensures -1 <= r < |links|
    ensures r >= 0 ==> links[r].href == target
    ensures forall j :: r < j < |links| ==> links[j].href != target
  {
    if |links| == 0 then -1
    else if links[|links| - 1].href == target then |links| - 1
    else LastMatch(links[..|links| - 1], target)
  }

  /** The last match is the greatest selected position, and there is one exactly when something is selected. */
  lemma LastMatchIsGreatestSelected(links: seq<Link>, page: string)
    ensures var i := LastMatch(links, PageHref(page));
            && (i == -1 <==> Selected(links, page) == {})
            && (i != -1 ==> i in Selected(links, page))
            && (forall j :: j in Selected(links, page) ==> j <= i)
  {
    var i := LastMatch(links, PageHref(page));
    if i != -1 {
      assert i in Selected(links, page);
    } else {
      assert forall j :: 0 <= j < |links| ==> links[j].href != PageHref(page);
      assert Selected(links, page) == {};
    }
  }

  /**
   The `.each` scan over the sidebar links: it records every position whose
   link is selected, and since `return` inside `.each` does not stop the
   scan, the position it ends with is the last one.
   */
  method ScanSelected(links: seq<Link>, page: string) returns (idx: int)
    ensures idx == LastMatch(links, PageHref(page))
    ensures idx == -1 <==> Selected(links, page) == {}
    ensures idx != -1 ==> idx in Selected(links, page) && forall j :: j in Selected(links, page) ==> j <= idx
  {
    idx := -1;
    var k := 0;
    while k < |links|
      invariant 0 <= k <= |links|
      invariant -1 <= idx < k
      invariant idx >= 0 ==> links[idx].href == PageHref(page)
      invariant forall j :: idx < j < k ==> links[j].href != PageHref(page)
    {
      if links[k].href == PageHref(page) {
        idx := k;
      }
      k := k + 1;
    }
    LastMatchIsGreatestSelected(links, page);
    if idx == -1 {
      assert forall j :: j in Selected(links, page) ==> j <= idx;
    }
  }

  /** `f` is the footer of the link at position `i`: entries for exactly the neighbours that exist. */
  predicate FooterAround(f: Footer, links: seq<Link>, i: int)
    requires 0 <= i < |links|
  {
    && (f.prev.Some? <==> i > 0)
    && (f.next.Some? <==> i < |links| - 1)
    && (i > 0 ==> f.prev.value == FooterEntry(links[i - 1]))
    && (i < |links| - 1 ==> f.next.value == FooterEntry(links[i + 1]))
  }

  /**
   The previous/next footer: none when no sidebar link is selected; otherwise
   the neighbours of the last selected link, each omitted at its end of the list.
   */
  function FooterFor(links: seq<Link>, page: string): (f: Option<Footer>)
    ensures f.None? <==> Selected(links, page) == {}
    ensures f.Some? ==>
              exists i :: && i in Selected(links, page)
                          && (forall j :: j in Selected(links, page) ==> j <= i)
                          && 0 <= i < |links|
                          && FooterAround(f.value, links, i)
  {
    LastMatchIsGreatestSelected(links, page);
    var i := LastMatch(links, PageHref(page));
    if i > -1 then
      var prev := if i > 0 then Some(FooterEntry(links[i - 1])) else None;
      var next := if i < |links| - 1 then Some(FooterEntry(links[i + 1])) else None;
      Some(Footer(prev, next))
    else
      None
  }
}
