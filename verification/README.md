# Hash navigation of the one-python-craftsman documentation viewer

The viewer is a single-page documentation reader. Its only state is the URL
fragment, `location.hash`, which holds a page name and an optional anchor,
`#<page>` or `#<page>_<anchor>`. This project models the navigation rules of
`js/index.js` as pure functions over strings and link lists, and proves what
they guarantee:

- **getHash** falls back to `#` plus the configured index name up to its first `.`, then drops the first character.
- **updateHash** cuts the fragment at its first `_` and writes back `<page>_<content>`. A heading-anchor click passes the heading's text as `<content>`.
- **loadContent** splits the fragment at the first `_`. From that split it works out:
  - the markdown resource to fetch;
  - the sidebar links to mark as selected;
  - the previous/next footer;
  - the document title.
- **The sidebar click rule** decides which links become fragment changes and which open in a new window.

The browser's hash is modelled as a string. Assigning `x` or `#x` reads back
as `#x`, and assigning `""` or `#` reads back as `""` (`Location.Assign`). The
configuration object is a parameter, `Location.Config`, holding `title` and an
optional `index`. A missing index becomes `None`.

Modules, in dependency order:

- `Optional`: `Option`, the model's `undefined`.
- `JsString`: `indexOf`, `substr` and `split(".")[0]` on `seq<char>`.
- `Fragment`: the navigation key and the `loadContent` split.
- `Location`: the hash state, `getHash` and `updateHash`.
- `Sidebar`: the click rule, the selection, the `.each` scan and the footer.
- `Render`: one `loadContent` as a whole, and the title.
- `Scenarios`: the footer on small tables of contents.

The model follows the code, including these behaviours a reader may not expect:

- The page can be empty: with no `index` configured and an empty hash, the page is `""` and `docs/.md` is fetched.
- The anchor keeps its leading `_`, because the code uses `substr(indexOf('_'))`. The anchor lands in the misspelled global `author`, and the only thing that reads it is `console.log(page, author)` at line 57.
- The title compares `"#" + page` with `CONFIG.index`. With `index: 'README.md'` that comparison never holds, so even the index page gets `<h1> - <title>`.
- A sidebar link counts as external when `http://` occurs anywhere in it, not only as a prefix. A link is intercepted only when `.md` first occurs after position 0.
- The new fragment is the `href` up to its first `.`, not the `href` minus its extension. `./intro.md` therefore writes a bare `#`, which clears the hash and loads the index page.
- A heading anchor is appended to its heading before it can be clicked, so the heading text passed to `updateHash` ends with that anchor's `#`. Every heading anchor written to the hash therefore ends in `#`.
- A sidebar page whose name holds `_` loads the wrong page. Clicking `a_b.md` writes `#a_b`, which `loadContent` reads as page `a` with anchor `_b`, so `docs/a.md` is fetched (`Render.UnderscorePageLoadsPrefix`).
- Every link whose `href` is `<page>.md` is marked selected. `return` inside `.each` does not stop the scan, so the footer is built around the last such link.
- `updateHash` keeps the page only when the page does not start with `#`. For the hash `##p` the page is `#p`. The write-back `#p_c` loses that `#` to the browser, so the page becomes `p` (`Location.LeadingHashChangesPage`).
- No-accumulation and idempotence of `updateHash` still hold for a page with one leading `#`, but fail for a page starting with `##`. From the hash `###p`, `updateHash(c)` writes `##p_c`, and a second `updateHash(c)` writes `#p_c` (`Location.TripleHashAccumulates`).

## Model

| member | source | states |
|---|---|---|
| `JsString.IndexOf` | one-python-craftsman-doc-web/js/index.js:10-11 | `indexOf` gives the first position where the pattern occurs, or -1 exactly when it occurs nowhere |
| `JsString.IndexOfChar` | one-python-craftsman-doc-web/js/index.js:54-56 | for a one-character pattern, the index is -1 iff the character is absent, and otherwise holds it with no earlier copy |
| `JsString.Substr` | one-python-craftsman-doc-web/js/index.js:5 | `substr(start, length)` is the slice of `s` at `start`, `length` long or cut at the end of `s`, and empty past the end |
| `JsString.SubstrFrom` | one-python-craftsman-doc-web/js/index.js:56 | `substr(start)` is everything after the first `start` characters, and empty past the end |
| `JsString.SubstrSplit` | one-python-craftsman-doc-web/js/index.js:55-56 | `substr(0, i)` followed by `substr(i)` is the whole string |
| `JsString.SplitHead` | one-python-craftsman-doc-web/js/index.js:1 | `split(".")[0]` is the longest prefix free of the separator, and it stops at the separator |
| `JsString.SplitHeadJoin` | one-python-craftsman-doc-web/js/index.js:39 | a `.`-free head followed by text starting with `.` splits back to exactly that head |
| `Fragment.PageOf` | one-python-craftsman-doc-web/js/index.js:10-11 | the cut at the first `_` is a `_`-free prefix of the fragment, and it stops only at a `_` or at the end |
| `Fragment.Parse` | one-python-craftsman-doc-web/js/index.js:51-58 | the page is the cut at the first `_`; without a `_` the page is the whole fragment, otherwise fragment = page + anchor and the anchor starts with `_` |
| `Fragment.ParseJoin` | one-python-craftsman-doc-web/js/index.js:54-56 | splitting `p_c` for a `_`-free `p` gives page `p` and anchor `_c`, even when `c` holds `_` |
| `Fragment.SerializeParse` | one-python-craftsman-doc-web/js/index.js:51-58 | every fragment is page followed by anchor, and the parse is well formed |
| `Fragment.ParseSerialize` | one-python-craftsman-doc-web/js/index.js:51-58 | every well-formed key survives a join-then-split round trip |
| `Location.Assign` | one-python-craftsman-doc-web/js/index.js:13 | an assigned hash always reads back valid: empty only for `""` or `#`, otherwise `#` plus the value without its optional `#` |
| `Location.IndexHash` | one-python-craftsman-doc-web/js/index.js:1 | the index hash starts with `#`, and the rest is `CONFIG.index` (or `''`) up to its first `.`: a `.`-free prefix that stops only at a `.` or at the end |
| `Location.GetHash` | one-python-craftsman-doc-web/js/index.js:3-6 | a non-empty hash loses its first character; an empty one yields the index name up to its first `.`, and `""` when no index is configured |
| `Location.UpdateHash` | one-python-craftsman-doc-web/js/index.js:8-14 | the new hash is never empty; it is exactly `#<page>_<content>` for a page without a leading `#`, and `<page>_<content>` for a page that has one, because the browser drops that `#` |
| `Location.UpdateHashPage` | one-python-craftsman-doc-web/js/index.js:3-14 | after `updateHash(c)` the anchor is `_c` and the page is the old page, minus one leading `#` if it had one |
| `Location.UpdateHashKeepsPage` | one-python-craftsman-doc-web/js/index.js:8-14 | for a page without a leading `#`, after `updateHash(c)` the parsed page is the page before the call and the anchor is `_c` |
| `Location.UpdateHashNoAccumulation` | one-python-craftsman-doc-web/js/index.js:9-13 | for every page not starting with `##`, `updateHash(a)` then `updateHash(b)` leaves the same hash as `updateHash(b)` alone |
| `Location.UpdateHashIdempotent` | one-python-craftsman-doc-web/js/index.js:9-13 | for every page not starting with `##`, repeating `updateHash(c)` changes nothing |
| `Location.LeadingHashChangesPage` | one-python-craftsman-doc-web/js/index.js:3-13 | for the hash `##p` with a `_`-free `p`, the page is `#p`, `updateHash(c)` writes `#p_c`, and the page becomes `p` |
| `Location.TripleHashAccumulates` | one-python-craftsman-doc-web/js/index.js:3-13 | for the hash `###p` with a `_`-free `p`, `updateHash(c)` writes `##p_c`, a second `updateHash(c)` writes `#p_c`, and the two differ |
| `Sidebar.OnClick` | one-python-craftsman-doc-web/js/index.js:36-42 | a link is intercepted iff `http://` occurs nowhere in it and `.md` occurs after position 0 but not at 0; the new hash is `#` + href up to its first `.` |
| `Sidebar.ExtensionIndex` | one-python-craftsman-doc-web/js/index.js:37 | in `<p>.md` with a `.`-free `p`, `.md` is first found at position `|p|` |
| `Sidebar.NoColonNoScheme` | one-python-craftsman-doc-web/js/index.js:37 | an href without `:` never contains `http://` |
| `Sidebar.HttpsHasNoHttpScheme` | one-python-craftsman-doc-web/js/index.js:37 | `https:` followed by `:`-free text never contains `http://` |
| `Sidebar.ClickMarkdownPage` | one-python-craftsman-doc-web/js/index.js:37-39 | clicking `<p>.md`, for a non-empty `p` free of `.` and `:`, navigates to `#p` |
| `Sidebar.ClickHttpsMarkdown` | one-python-craftsman-doc-web/js/index.js:37-39 | an `https://<p>.md` link with a `.`-free, `:`-free `p` is intercepted and writes `#https://<p>` |
| `Sidebar.ClickHttpsDottedHost` | one-python-craftsman-doc-web/js/index.js:37-39 | an `https://<h>.<rest>.md` link with a `.`-free `h` and no `:` after the scheme is intercepted, and writes only `#https://<h>` |
| `Sidebar.ClickHttpLink` | one-python-craftsman-doc-web/js/index.js:37-41 | every `http://` link opens in a new window |
| `Sidebar.ClickLeadingExtension` | one-python-craftsman-doc-web/js/index.js:37-41 | an href starting with `.md`, a bare `.md` included, opens in a new window |
| `Sidebar.ClickDotSlash` | one-python-craftsman-doc-web/js/index.js:37-39 | a `./<p>.md` link, for `p` free of `.` and `:`, is intercepted but writes a bare `#` |
| `Sidebar.LastMatch` | one-python-craftsman-doc-web/js/index.js:92-99 | the result is -1 or a position holding the target, with no later position holding it |
| `Sidebar.LastMatchIsGreatestSelected` | one-python-craftsman-doc-web/js/index.js:59-61 | the last match is the greatest selected position, and it is -1 iff nothing is selected |
| `Sidebar.ScanSelected` | one-python-craftsman-doc-web/js/index.js:92-99 | the `.each` scan ends at the last selected position, and at -1 iff nothing is selected |
| `Sidebar.FooterFor` | one-python-craftsman-doc-web/js/index.js:91-111 | there is no footer iff nothing is selected; otherwise the previous entry exists iff idx > 0, the next iff idx < n-1, and each is the corresponding neighbour of the last selected link |
| `Render.Title` | one-python-craftsman-doc-web/js/index.js:67-71 | the title is the site title iff `CONFIG.index` equals `#` + page; otherwise it is `<h1 text> - <site title>` |
| `Render.LoadContent` | one-python-craftsman-doc-web/js/index.js:50-71 | the key re-serializes to the current fragment, `docs/<page>.md` is fetched, exactly the `<page>.md` links are selected, and a footer exists iff something is selected |
| `Render.HeadingClickReloadsSamePage` | one-python-craftsman-doc-web/js/index.js:73-78 | for a page without a leading `#`, a heading-anchor click reloads the same resource, selection, footer and title, with anchor `_<heading>` |
| `Render.ClickLandsOn` | one-python-craftsman-doc-web/js/index.js:36-39 | an intercepted click leaves the fragment as the href up to its first `.`; if that is empty, the index page loads |
| `Render.SidebarClickSelectsLink` | one-python-craftsman-doc-web/js/index.js:35-61 | for a non-empty `p` free of `.`, `_` and `:`, clicking the sidebar link `<p>.md` loads page `p` with no anchor, that link selected and a footer present |
| `Render.UnderscorePageLoadsPrefix` | one-python-craftsman-doc-web/js/index.js:37-39 | for `a` non-empty and free of `.`, `_` and `:`, and `b` free of `.` and `:`, clicking `a_b.md` writes `#a_b` and loads page `a` with anchor `_b` |
| `Render.ReadmeIndexDefaultPage` | one-python-craftsman-doc-web/config.js:21 | with index `README.md` and an empty hash, the page that loads is `README` |
| `Render.ReadmeIndexNeverUsesSiteTitle` | one-python-craftsman-doc-web/config.js:21 | with index `README.md` no page gets the site title alone; every title is `<h1 text> - <title>` |
| `Render.MissingIndexLoadsEmptyPage` | one-python-craftsman-doc-web/js/index.js:1-6 | with no index and an empty hash the page is `""` and `docs/.md` is fetched |
| `Scenarios.FooterMiddle` | one-python-craftsman-doc-web/js/index.js:100-109 | with sidebar `[a, b, c]` of distinct names, `a` and `c` free of `.`, page `b` gets prev `#a` and next `#c` |
| `Scenarios.FooterEnds` | one-python-craftsman-doc-web/js/index.js:102-109 | with sidebar `[a, b, c]` of distinct names, the first page has no previous entry and the last has no next entry |
| `Scenarios.FooterUsesLastListing` | one-python-craftsman-doc-web/js/index.js:93-99 | a page listed at positions 0 and 2, around a different `.`-free page, is selected at both, and its footer is built around position 2 |

## Left out

- DOM and rendering: jQuery selection and mutation, `marked`, `Prism.highlightElement`, the meta tags, the header title and the GitHub link. They are library calls with no logic of their own.
- Footer markup: the footer is modelled as link targets and texts, not as HTML. Neither the link text nor the `href` is escaped in the source.
- The `openNewWindow` pass over content links (`target=_blank` on every `<a>`). It is a DOM attribute write with no condition beyond the flag.
- Network: both `$.get` fetches. A fetch is modelled as the resource path only, and a failed fetch, which the source ignores, is not modelled. Ordering between overlapping fetches is also left out: a slow response can overwrite a newer page, and that race is about asynchronous timing, not string logic.
- Scrolling: the back-to-top button and its `setTimeout` animation with a floating-point step, plus `scrollTop(0)`.
- Hash changes: `onhashchange` is represented by calling `Render.LoadContent` on the new hash.
- Browser normalisation: percent-encoding of characters such as spaces in an assigned hash is not modelled. Neither is the selector error jQuery raises when a page name contains `'`.
- `config.js`: it is a data literal, so its fields are parameters. Only `index: 'README.md'` is used, in `Render.ReadmeIndexDefaultPage` and `Render.ReadmeIndexNeverUsesSiteTitle`.
- Logging: `console.log(page, author)` in `loadContent` is the only reader of the anchor. It is output, so `Render.View` keeps the anchor but nothing is logged.
- Sidebar anchors without an `href`: `Sidebar.Link` always has an `href` string. For an `<a>` without one, `href.indexOf` in the click handler (line 37) and `dom.attr('href').split` in the footer (lines 104 and 108) throw a `TypeError`. The model cannot express that link.
