/**
 The previous/next footer on a three-chapter table of contents, and on one
 that lists a page twice.
 */
module Scenarios {
  import opened Optional
  import opened JsString
  import opened Sidebar

  /** A table of contents listing the pages `a`, `b`, `c` in that order. */
  function Toc(a: string, b: string, c: string, ta: string, tb: string, tc: string): seq<Link> {
    [Link(a + ".md", ta), Link(b + ".md", tb), Link(c + ".md", tc)]
  }

  /** Distinct page names give distinct sidebar `href`s. */
  lemma {:induction false} DistinctHrefs(a: string, b: string)
    requires a != b
    ensures PageHref(a) != PageHref(b)
  {
    if |a| == |b| {
      assert PageHref(a)[..|a|] == a;
      assert PageHref(b)[..|b|] == b;
    }
  }

  /** For distinct plain page names, the middle chapter links back to the first and on to the last. */
  lemma {:induction false} FooterMiddle(a: string, b: string, c: string, ta: string, tb: string, tc: string)
    requires a != b && b != c && a != c
    requires '.' !in a && '.' !in c
    ensures FooterFor(Toc(a, b, c, ta, tb, tc), b)
         == Some(Footer(Some(FooterLink("#" + a, ta)), Some(FooterLink("#" + c, tc))))
  {
    var toc := Toc(a, b, c, ta, tb, tc);
    DistinctHrefs(c, b);
    assert LastMatch(toc, PageHref(b)) == 1;
    SplitHeadJoin(a, ".md");
    SplitHeadJoin(c, ".md");
  }

  /** The first chapter has no previous entry, the last no next entry. */
  lemma {:induction false} FooterEnds(a: string, b: string, c: string, ta: string, tb: string, tc: string)
    requires a != b && b != c && a != c
    ensures var f := FooterFor(Toc(a, b, c, ta, tb, tc), a); f.Some? && f.value.prev.None? && f.value.next.Some?
    ensures var f := FooterFor(Toc(a, b, c, ta, tb, tc), c); f.Some? && f.value.prev.Some? && f.value.next.None?
  {
    var toc := Toc(a, b, c, ta, tb, tc);
    DistinctHrefs(b, a);
    DistinctHrefs(c, a);
    assert toc[0].href == PageHref(a);
    assert LastMatch(toc, PageHref(a)) == 0;
    assert toc[2].href == PageHref(c);
    assert LastMatch(toc, PageHref(c)) == 2;
  }

  /** A page listed twice is selected twice and takes its footer from the later listing. */
  lemma {:induction false} FooterUsesLastListing(a: string, b: string, ta: string, tb: string, ta2: string)
    requires a != b && '.' !in b
    ensures var toc := [Link(a + ".md", ta), Link(b + ".md", tb), Link(a + ".md", ta2)];
            && Selected(toc, a) == {0, 2}
            && FooterFor(toc, a) == Some(Footer(Some(FooterLink("#" + b, tb)), None))
  {
    var toc := [Link(a + ".md", ta), Link(b + ".md", tb), Link(a + ".md", ta2)];
    DistinctHrefs(b, a);
    assert Selected(toc, a) == {0, 2} by {
      assert 0 in Selected(toc, a) && 2 in Selected(toc, a);
    }
    assert LastMatch(toc, PageHref(a)) == 2;
    SplitHeadJoin(b, ".md");
  }
}
