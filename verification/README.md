# xa theme core in Dafny

A model of the behaviour-bearing core of the xa Sphinx theme.

From the browser script `theme/base/static/theme.js` it models:
- how a CSS duration custom property is turned into milliseconds (`getDurationMs`);
- the reading-time estimate;
- the clamps and durations of the smooth scroll and of anchor clicks;
- the left-sidebar accordion;
- the mobile sidebar drawer.

From the Python extensions it models:
- the `thumbnail` and `picture` directives, including the picture's copy-freshness rule;
- the `:style:` and `:email:` roles;
- three HTML post-processing passes: the collapsible table of contents, removing empty toctree wrappers, and opening external links in a new tab;
- the "Last updated on:" comment scan;
- `fix`, which renames a directive's node class.

Everything is pure functions over immutable data. These become inputs or parameters:
- the DOM, as datatypes;
- JavaScript's `parseFloat` and `Number`;
- Python's `hash`;
- a page's source directory;
- whether a copy succeeded.

| file | module | models |
|---|---|---|
| wrappers.dfy | Wrappers | `Option` / `Result` |
| strings.dfy | Strings | Python and JavaScript whitespace, `strip`/`trim`, `split`, `join`, `rstrip('>')`, ASCII case mapping |
| jsnum.dfy | JsNumber | JavaScript numbers (NaN, ±Infinity, finite) with `Math.max`, `Math.min`, `+` and scaling |
| duration.dfy | Duration | `getDurationMs` |
| scroll.dfy | Scroll | `smoothScrollTo` and `onAnchorClick` |
| reading_time.dfy | ReadingTime | the reading-time reducer and label |
| accordion.dfy | Accordion | `initLeftSidebarAccordion` |
| drawer.dfy | Drawer | `initMobileSidebar` |
| thumbnail.dfy | Thumbnail | `thumbnail.directive.run` |
| roles.dfy | Roles | `stylise`, `email` |
| last_updated.dfy | LastUpdated | `LAST_UPDATED_RE` and `last_updated_date` |
| html.dfy | Html | the parsed page; `remove_empty_toctree_divs`, `open_links_in_new_tab` |
| toc.dfy | Toc | `make_toc_collapsible` |
| paths.dfy | Paths | `posixpath.join`, `normpath`, `basename` |
| picture.dfy | Picture | `picture.directive.run` and `_copy` |
| node_names.dfy | NodeNames | `fix` |

## Model

| member | source | states |
|---|---|---|
| JsNumber.Max | theme/base/static/theme.js:30-31 | `Math.max` is NaN exactly when an argument is; otherwise it is the larger argument |
| JsNumber.Add | theme/base/static/theme.js:223-224 | a sum is NaN exactly when an operand is NaN or the two are opposite infinities; finite operands add |
| Duration.GetDurationMs | theme/base/static/theme.js:25-35 | a throwing lookup or an all-blank value gives the fallback; any other value is converted after trimming |
| Duration.FromTrimmed | theme/base/static/theme.js:29-33 | empty gives the fallback; "ms" is tested before "s"; "ms" gives the parsed value floored at 0; "s" gives 1000 × the parsed value floored at 0; no unit gives `Number(raw)`, or the fallback when that is NaN |
| Duration.NonNegative | theme/base/static/theme.js:30-31 | `Math.max(0, v)`: NaN stays NaN, a negative value becomes 0, anything else is kept |
| Duration.MsBeforeSeconds | theme/base/static/theme.js:30-31 | every "ms" value also ends with "s", so the "ms" test must come first |
| Duration.SecondsAreThousandMs | theme/base/static/theme.js:30-31 | for the same number, "x s" gives 1000 times what "x ms" gives |
| Scroll.CurrentScrollY | theme/base/static/theme.js:178 | `pageYOffset \|\| scrollTop \|\| 0`: a zero offset falls through to `scrollTop` |
| Scroll.MaxScrollY | theme/base/static/theme.js:179 | the maximum scroll is never negative and is at least the page height minus the viewport |
| Scroll.ClampTarget | theme/base/static/theme.js:180 | the target ends up in [0, maxY]; a target already inside is unchanged |
| Scroll.AnimationDuration | theme/base/static/theme.js:191 | an animation lasts 300 to 1800 ms; a duration already in range is kept; NaN stays NaN |
| Scroll.SmoothScrollTo | theme/base/static/theme.js:177-191 | it jumps exactly when the clamped distance is under 1 px or reduced motion is asked for; otherwise it animates from the start to the clamped target |
| Scroll.PlanStaysInRange | theme/base/static/theme.js:179-186 | wherever a scroll ends, it lies inside the scrollable range |
| Scroll.DistanceTerm | theme/base/static/theme.js:224 | the distance term is 1.5 ms per pixel, capped at 1000 ms |
| Scroll.AnchorDuration | theme/base/static/theme.js:223-224 | an anchor scroll lasts 1500 to 4000 ms; base plus distance term is kept when it is in range; a NaN base gives NaN |
| Scroll.AnchorDurationMonotone | theme/base/static/theme.js:222-224 | a longer distance never makes an anchor scroll shorter |
| Scroll.DefaultAnchorDuration | theme/base/static/theme.js:6-8 | with the 2500 ms base, anchor scrolls last 2.5 to 3.5 s; from 2000/3 px on they last exactly 3.5 s |
| Scroll.OnAnchorClick | theme/base/static/theme.js:210-224 | only a "#fragment" link to an existing element scrolls; the target is the current scroll plus the element top minus the header offset; the duration follows the distance from `pageYOffset` |
| ReadingTime.CollapseSpaces | theme/base/static/theme.js:92 | every blank run becomes one space: no other blank and no two spaces in a row remain |
| ReadingTime.CleanText | theme/base/static/theme.js:92 | the cleaned text has single inner spaces and no outer blanks; it is empty exactly when the paragraph is all blanks |
| ReadingTime.CleanTextIdempotent | theme/base/static/theme.js:92 | cleaning cleaned text changes nothing |
| ReadingTime.Words | theme/base/static/theme.js:92-94 | the words of a text are non-empty and blank-free; a text starting with a non-blank character has a first word starting with it |
| ReadingTime.WordsNone | theme/base/static/theme.js:93 | a text has no word exactly when it is all blanks |
| ReadingTime.CollapseWords | theme/base/static/theme.js:92 | collapsing gives the text's words joined by single spaces, with one space for a blank run at either end |
| ReadingTime.CleanTextWords | theme/base/static/theme.js:92 | the cleaned text of a paragraph with a word is exactly its words joined by single spaces |
| ReadingTime.SplitCleanText | theme/base/static/theme.js:92-94 | splitting the cleaned text on blanks gives back exactly the paragraph's words, in order |
| ReadingTime.Utf16Length | theme/base/static/theme.js:93 | `length` counts UTF-16 code units: between one and two per character, one per character exactly when none lies beyond U+FFFF |
| ReadingTime.AstralLength | theme/base/static/theme.js:93 | ten mathematical bold capitals and a space are 11 characters but 21 code units, so they pass the 20-unit threshold |
| ReadingTime.CountWords | theme/base/static/theme.js:94 | the count is the number of positions whose token holds a letter or digit: all tokens when all do, none when none do |
| ReadingTime.ParagraphWords | theme/base/static/theme.js:86-94 | excluded paragraphs and cleaned texts under 20 UTF-16 code units give 0; any other paragraph gives the number of its words (maximal non-blank runs) holding a letter or digit |
| ReadingTime.TotalWordsAppend | theme/base/static/theme.js:85-95 | the reducer is additive over any split of the page |
| ReadingTime.ExcludedAddNothing | theme/base/static/theme.js:86-88 | paragraphs in code, figures, admonitions, navigation and the like never add words |
| ReadingTime.Minutes | theme/base/static/theme.js:98 | `ceil(words / 225)`: the least number of minutes whose 225-word quota covers the words |
| ReadingTime.ReadingTimeLabel | theme/base/static/theme.js:97-101 | the label is written exactly when there is a word and a label element; it shows the least m ≥ 1 with words ≤ 225·m |
| ReadingTime.MinutesExamples | theme/base/static/theme.js:1 | 450 words read in 2 minutes and 451 in 3 |
| Accordion.SetExpanded | theme/base/static/theme.js:399-401 | only the named branch's `aria-expanded` changes |
| Accordion.CollapseOthers | theme/base/static/theme.js:402-406 | afterwards the only branch that can be open is the excepted one, and only if it was open |
| Accordion.Toggle | theme/base/static/theme.js:407-411 | toggling an open branch closes only it; toggling a closed branch makes it the only open one in the sidebar |
| Accordion.Handle | theme/base/static/theme.js:413-474 | the toggle button toggles any branch; anchor clicks and keys do nothing on a branch the init loop skipped (no direct `ul` or no anchor); on a wired branch Enter and Space toggle, ArrowRight expands it alone, ArrowLeft collapses it, a navigating anchor click expands it and schedules navigation, and a `#` or empty href toggles |
| Accordion.UnwiredAnchorIgnored | theme/base/static/theme.js:413-416 | a key or a navigating click on the anchor of a skipped branch leaves the sidebar as it was and schedules nothing |
| Accordion.HandleKeepsAtMostOne | theme/base/static/theme.js:399-461 | no event ever leaves two branches open if at most one was |
| Accordion.ToggleTwice | theme/base/static/theme.js:407-411 | toggling a closed branch twice closes every branch; toggling an open one twice leaves it the only open one |
| Accordion.InitPass | theme/base/static/theme.js:413-437 | init first collapses each wired branch and leaves the others as they were |
| Accordion.FirstExpanded | theme/base/static/theme.js:477 | it finds the first open branch, and with `needCurrent` the first open one holding a current descendant |
| Accordion.Dedupe | theme/base/static/theme.js:475-479 | with more than one open branch exactly one stays open: the first holding a current element, else the first; otherwise nothing changes |
| Accordion.OneAfterDedupe | theme/base/static/theme.js:475-479 | after the dedupe at most one branch is open |
| Accordion.NextFrame | theme/base/static/theme.js:431-433 | one animation frame later every wired current branch is open |
| Accordion.Init | theme/base/static/theme.js:392-484 | right after init no wired branch is open and at most one branch is; a frame later the wired current branches open too |
| Accordion.DedupeIdleWhenUnwiredClosed | theme/base/static/theme.js:428-437 | when no unwired branch starts open, the synchronous init leaves every branch closed |
| Drawer.Open | theme/base/static/theme.js:514-516 | opening sets both body classes and keeps the width |
| Drawer.Close | theme/base/static/theme.js:517-519 | closing clears both body classes and keeps the width |
| Drawer.Toggle | theme/base/static/theme.js:520-523 | toggle closes an open drawer and opens a closed one |
| Drawer.Step | theme/base/static/theme.js:439-538 | closers, the backdrop, Escape and clicks on sidebar links close; a click on an accordion branch's own link or button is stopped by the accordion and changes nothing, as do other keys and clicks; a resize records the width and closes only when the width changed to at least 1024 px |
| Drawer.StepKeepsConsistent | theme/base/static/theme.js:514-538 | the scroll lock is set exactly when the drawer is open, after every event |
| Drawer.RunKeepsConsistent | theme/base/static/theme.js:514-538 | the lock stays consistent over any sequence of events |
| Drawer.CloseIdempotent | theme/base/static/theme.js:514-523 | closing twice is closing once; open-then-close is close; toggling twice returns to the open or closed state |
| Drawer.DesktopResizeCloses | theme/base/static/theme.js:531-537 | a width change to the desktop breakpoint or beyond always closes the drawer |
| Thumbnail.Uri | theme/extensions/thumbnail.py:93 | the uri has no whitespace, keeps every other character, and leaves a whitespace-free link as it is |
| Thumbnail.UriAppend | theme/extensions/thumbnail.py:93 | removing whitespace distributes over concatenation, so the kept characters stay in order |
| Thumbnail.UriChar | theme/extensions/thumbnail.py:93 | a single character is dropped exactly when it is whitespace |
| Thumbnail.AfterFirst | theme/extensions/thumbnail.py:98 | `split(sep, 1)[-1]`: the text after the first separator, or the whole text without one |
| Thumbnail.VideoId | theme/extensions/thumbnail.py:94-98 | a short link yields the text after the last "/" up to "?"; a watch link yields the text after the first "v=" up to "&"; any other link is its own id |
| Thumbnail.ShortLinkRoundTrip | theme/extensions/thumbnail.py:95-96 | `https://youtu.be/<id>[?query]` yields `<id>` |
| Thumbnail.WatchLinkRoundTrip | theme/extensions/thumbnail.py:97-98 | `https://www.youtube.com/watch?v=<id>[&params]` yields `<id>` |
| Thumbnail.NoShortLink | theme/extensions/thumbnail.py:95-97 | a watch link is never mistaken for a short link |
| Thumbnail.ThumbnailUrl | theme/extensions/thumbnail.py:101-103 | the thumbnail address is the image host prefix, the id, then "/hqdefault.jpg" |
| Thumbnail.ThumbnailVideoId | theme/extensions/thumbnail.py:101-103 | an address of that shape gives back the id between prefix and suffix, and nothing else does |
| Thumbnail.ThumbnailRoundTrip | theme/extensions/thumbnail.py:100-103 | the thumbnail address determines the video id |
| Thumbnail.WithVideo | theme/extensions/thumbnail.py:99-103 | `src`, `video_id` and `thumbnail` are set; every other option is kept |
| Thumbnail.Run | theme/extensions/thumbnail.py:92-103 | no content is the directive error; otherwise the last line's uri fixes the id, and the thumbnail address reads back to that id |
| Roles.Stylise | theme/extensions/roles.py:64-75 | exactly one node is inserted; without `<` one "Invalid style" error is reported at the line; otherwise the span carries the stripped style, with trailing `>` removed, around the stripped text |
| Roles.StyliseRoundTrip | theme/extensions/roles.py:36-40 | the documented `text <css>` form renders the span the author wrote |
| Roles.Email | theme/extensions/roles.py:125-133 | a success is one reference node and no message; without `<` the unpacking raises ValueError; otherwise the result is that of the text before and after the first `<` |
| Roles.EmailAfterSplit | theme/extensions/roles.py:127-132 | without `\|` the caption links to the address with the page title as subject, and a missing title raises IndexError; with `\|` a link is always made |
| Roles.SubjectSplitAsWritten | theme/extensions/roles.py:128-132 | with `\|`, the code as written takes the link text from before the `\|` and keeps the whole rest, `\|` included, as the address |
| Roles.EmailDefaultSubject | theme/extensions/roles.py:97-132 | `caption <address>` links the caption to the address with the page title as subject, as written and as corrected |
| Roles.EmailSubjectAsWritten | theme/extensions/roles.py:126-132 | `caption <a \| s>` as written links the text "a" to "mailto:a \| s?subject=s>" |
| Roles.EmailDocumentedExample | theme/extensions/roles.py:101-132 | the documentation's own example, as written, produces "mailto:xa@mes3.dev \| Hello hello!!?subject=Hello hello!!>" |
| Roles.EmailIntended | theme/extensions/roles.py:87-101 | corrected role: without `<`, ValueError; otherwise the bracketed text, with the `>` removed, is handled as below |
| Roles.IntendedAfterSplit | theme/extensions/roles.py:87-101 | corrected role: the caption is always the link text; without `\|` the subject is the page title |
| Roles.SubjectSplitIntended | theme/extensions/roles.py:87-101 | corrected role: the address is the part before `\|` and the subject the part after it |
| Roles.EmailSubjectIntended | theme/extensions/roles.py:99-101 | corrected role: `caption <a \| s>` links the caption to "mailto:a?subject=s" |
| Roles.EmailIntendedDocumentedExample | theme/extensions/roles.py:101 | corrected role: the documented example links "email" to "mailto:xa@mes3.dev?subject=Hello hello!!" |
| LastUpdated.LineHead | theme/extensions/utils.py:269 | the first line of a text is a break-free prefix that ends at a line boundary |
| LastUpdated.SplitLines | theme/extensions/utils.py:269 | `splitlines` yields break-free lines, none exactly for the empty text |
| LastUpdated.SplitJoinLines | theme/extensions/utils.py:269 | splitting lines joined by "\n" gives back the lines |
| LastUpdated.MatchCommentShape | theme/extensions/utils.py:270-272 | a match is non-empty, stripped and line-free, and really is `..`, blanks, the marker in any case, blanks, then the date |
| LastUpdated.MatchRoundTrip | theme/extensions/utils.py:48-50 | a comment written as `..`, blanks, "Last updated on:" in any letter case, blanks and a date matches and yields that date |
| LastUpdated.CommentDateRoundTrip | theme/extensions/utils.py:48-50 | indentation and trailing blanks around such a comment do not matter |
| LastUpdated.FirstMatch | theme/extensions/utils.py:269-273 | the scan stops at the first matching line: no earlier line matches, and it finds nothing only when no line matches |
| LastUpdated.FirstMatchAt | theme/extensions/utils.py:269-273 | a match preceded only by non-matching lines is the one taken |
| LastUpdated.SourceDate | theme/extensions/utils.py:267-273 | an empty source gives nothing; otherwise nothing exactly when no line of the page is a comment, and else the date of a comment line with no comment line before it |
| LastUpdated.SourceDateShape | theme/extensions/utils.py:267-273 | any date found is a stripped, non-empty text from a real comment line |
| LastUpdated.LastUpdatedDate | theme/extensions/utils.py:264-276 | non-empty existing metadata is kept; otherwise a non-empty comment date is stored; otherwise the history fallback runs |
| LastUpdated.CommentBecomesMetadata | theme/extensions/utils.py:264-276 | a page whose first comment line gives a date, and which has no metadata yet, stores exactly that date |
| LastUpdated.StoredWhenFound | theme/extensions/utils.py:274-276 | a non-empty date from the source is stored |
| LastUpdated.CommentFound | theme/extensions/utils.py:268-273 | lines before the comment that do not match do not hide it |
| Html.Prune | theme/extensions/utils.py:117-133 | intended pass: the result is no longer than the input (see the properties below) |
| Html.PruneKeepsFullPages | theme/extensions/utils.py:131-133 | a page without empty wrappers is unchanged |
| Html.PruneKeepsText | theme/extensions/utils.py:125-133 | removing empty wrappers loses no visible character |
| Html.PruneRemovesOnlyEmpty | theme/extensions/utils.py:131-133 | the elements removed are exactly the empty wrappers |
| Html.FirstTagIn | theme/extensions/utils.py:132 | `find(tag)`: a `<tag>` element, and none exactly when no `<tag>` lies among or below the nodes |
| Html.BlankTest | theme/extensions/utils.py:132 | on a string, `not child.strip()` is the blank test; on an element it raises TypeError exactly when no `<strip>` lies below it, and otherwise holds exactly when the first `<strip>` below has no element child |
| Html.AsWrittenFailsOnLoneElement | theme/extensions/utils.py:131-133 | the pass as written fails exactly when it meets a wrapper holding a lone element with no `<strip>` below; when it meets no wrapper that it removes although the wrapper holds an element, it equals the intended pass |
| Html.StripWrapperRemoved | theme/extensions/utils.py:131-133 | a wrapper whose only child holds a `<strip>` with text is removed by the pass as written and kept by the intended pass |
| Html.LoneListWrapper | theme/extensions/utils.py:131-133 | a wrapper holding only a `ul` makes the pass as written raise, while the intended pass keeps it |
| Html.NewTab | theme/extensions/utils.py:180-182 | only links whose class attribute is "reference external" change, and only in `rel` and `target`; everything else is kept |
| Html.NewTabMakesSafe | theme/extensions/utils.py:168-182 | afterwards every external link, at any depth, has `rel="nofollow noopener"` and `target="_blank"` |
| Html.NewTabIdempotent | theme/extensions/utils.py:180-182 | running the pass twice is running it once |
| Html.NewTabKeepsInternalPages | theme/extensions/utils.py:180-182 | a page without external links is unchanged |
| Html.ExternalClassExamples | theme/extensions/utils.py:180 | the class filter matches "reference external" only, not more classes or the other order |
| Toc.NextUl | theme/extensions/utils.py:86 | `find_next_sibling("ul")` gives the first `ul` after the link, or none |
| Toc.Decimal | theme/extensions/utils.py:94 | decimal digits only, never empty |
| Toc.DecimalValue | theme/extensions/utils.py:94 | the decimal digits read back as the number they were written from |
| Toc.GeneratedId | theme/extensions/utils.py:93-95 | a generated id is "nav-branch-" followed by one or more characters, all of them decimal digits |
| Toc.GeneratedIdValue | theme/extensions/utils.py:93-95 | the digits read as the absolute hash modulo 10^8, so there are at most eight of them |
| Toc.BranchId | theme/extensions/utils.py:92-95 | a `ul` keeps a true id and otherwise gets a generated one |
| Toc.Dedupe | theme/extensions/utils.py:101-103 | `list(set(...))`: the same classes, each once |
| Toc.LastOpen | theme/extensions/utils.py:104-107 | the `aria-expanded` value comes from the last link in the `li` that opens a branch |
| Toc.CollapseLevel | theme/extensions/utils.py:85-114 | in one `li`, each link with a following `ul` gets a button controlling that `ul`'s final id; other children are untouched; the `li` gets "has-children" once and is expanded as the last such branch is current; without such a link it is untouched |
| Toc.Collapse | theme/extensions/utils.py:85-114 | text is untouched, tags are kept, and elements other than `li` keep their classes and attributes |
| Toc.ButtonFollowsLink | theme/extensions/utils.py:108-114 | each opening link is followed directly by its button, and that button's `aria-controls` names its `ul`'s id |
| Toc.CollapseSkips | theme/extensions/utils.py:85-91 | a sidebar with no link followed by a `ul` inside an `li` is left exactly as it was |
| Toc.EmitNone | theme/extensions/utils.py:108-114 | no button inserted, no child changed in order or content |
| Paths.Basename | theme/extensions/picture.py:159-160 | the basename is the text after the last "/" |
| Paths.PathJoin | theme/extensions/picture.py:148-149 | an absolute second path wins; otherwise the result starts with the first and ends with the second |
| Paths.JoinBasename | theme/extensions/picture.py:148-149 | joining onto a directory keeps the file name |
| Paths.NormStep | theme/extensions/picture.py:148-149 | a plain component is appended, and the normal form of the path so far is kept |
| Paths.Fold | theme/extensions/picture.py:148-149 | folding keeps the normal form and never makes a component with "/" |
| Paths.Normpath | theme/extensions/picture.py:148-149 | `normpath` never returns the empty path |
| Paths.Slashes | theme/extensions/picture.py:148-149 | at most two leading slashes are kept, and none exactly for a relative path |
| Paths.NormpathBasename | theme/extensions/picture.py:148-160 | normalising keeps a path's file name when it is a plain name |
| Paths.FoldClimb | theme/extensions/picture.py:148-149 | one ".." per plain component climbs back over all of them |
| Picture.Prefix | theme/extensions/picture.py:152 | the prefix is "../" written out once per "/" in the page name: its length is three per "/" and every character repeats "../" |
| Picture.Run | theme/extensions/picture.py:117-165 | a missing light or dark option is the error; the light image is copied first, a failed copy is the error naming that image, and success means both copies succeeded; an alignment outside the seven allowed ones is the error; otherwise the attributes hold the allowed alignment (default "default"), the alt text, figclass falling back to class, each image as prefix + "_images/" + its file name, and an empty caption when there is no content |
| Picture.ResolvedName | theme/extensions/picture.py:148-160 | resolving an option against the page directory keeps its file name |
| Picture.CaptionLines | theme/extensions/picture.py:164 | the caption splits back into the content lines |
| Picture.ImageReachable | theme/extensions/picture.py:152-160 | from the page's directory the image path resolves to the copy in the build root's `_images` |
| Picture.Sync | theme/extensions/picture.py:132-142 | the destination is replaced exactly when it is missing or older than the source; the copy carries the source time |
| Picture.SyncIdempotent | theme/extensions/picture.py:138-142 | copying again without touching the source changes nothing |
| NodeNames.Capitalize | theme/__init__.py:145 | `str.capitalize`: the first character is upper case and the rest lower case, length kept |
| NodeNames.CapitalizeIdempotent | theme/__init__.py:145 | capitalising twice is capitalising once |
| NodeNames.Fix | theme/__init__.py:144-146 | the same node class comes back, renamed after its module's PascalCase name, with no hyphen left |
| NodeNames.PascalNoHyphen | theme/__init__.py:145 | the new name never contains a hyphen |
| NodeNames.PascalAppend | theme/__init__.py:145 | a hyphen between two names makes the new name the two new names written together |
| NodeNames.PascalSimple | theme/__init__.py:145 | a name without a hyphen is only capitalised |
| NodeNames.DoubledHyphen | theme/__init__.py:145 | a doubled hyphen counts as one |
| NodeNames.LeadingHyphen | theme/__init__.py:145 | a leading hyphen adds nothing |
| NodeNames.TrailingHyphen | theme/__init__.py:145 | a trailing hyphen adds nothing |
| NodeNames.AuthorName | theme/__init__.py:145 | the theme's `author` directive gets the node name "Author" |

## Left out

- DOM querying, event listener wiring, `preventDefault`, timers, `requestAnimationFrame` scheduling, `history.pushState` and `window.location`. Events are inputs, and deferred effects are returned values (`NavigateLater`).
- The eased animation frames of `smoothScrollTo` (`easeOutCubic`, `performance.now`): only the plan is modelled (jump, or animate from/to with a duration). Real arithmetic replaces IEEE doubles.
- `getHeaderOffsetPx` and `toPx`. The header offset is an input to `OnAnchorClick`.
- Duration.GetDurationMs: `getComputedStyle` is the input `raw`. JavaScript's `parseFloat` and `Number` are parameters, so the contracts hold for any conversion.
- The reading-time DOM work (`closest`, cloning, removing code and icons) is a per-paragraph `excluded` flag plus the cleaned text. Unicode letter/number classes are the parameter `isWordChar`.
- The accordion follows the script: `collapseOthers` closes every branch in the sidebar, not only siblings. A branch's ancestors close too.
- The accordion's DOM setup (removing `hidden`, ids `nav-branch-N` on child lists, `aria-controls`) is left out. Only the `aria-expanded` state is modelled.
- The drawer's backdrop creation and the `sidebarInit` guard.
- The rest of theme.js: the theme switcher, search, header, tooltips, dropdowns, zoom, code copy and the video embed.
- Roles: `inliner.reporter`, `nodes.literal_block`, the title traversal (the page title is the input `pageTitle`) and the unused `role`/`options`/`content` arguments.
- Thumbnail.Uri: docutils' `directives.uri` is modelled for text without backslashes only; backslash escapes are not modelled.
- The thumbnail template rendering (Jinja) and the `visit`/`depart` writers.
- Picture: `env.doc2path` is the input `docDir`. `os.makedirs`, `shutil.copy2` and the stat calls are the `copied` predicate and `Stamp` values.
- Picture.Sync: modification times are reals, and the copy is a value, not a file.
- Picture.ImageReachable: assumes, as Sphinx's HTML builder does, that a page `d1/…/dn/page` is written into the directory `d1/…/dn`.
- Toc: Python's `hash` of `str(children)` is a parameter `hash`. `abs(...) % 10**8` is modelled; the salted value itself is not.
- Toc: the `#left-sidebar` selection. The model runs on the sidebar's subtree.
- Toc: the order of `list(set(...))` is unspecified in Python. The model keeps first occurrences and states membership and no duplicates only.
- Html: BeautifulSoup's parsing and serialisation. Comments are text nodes. Only the selection of `div.toctree-wrapper` elements and of links whose class attribute is exactly `reference external` is modelled.
- `remove_comments`, `add_copy_to_headerlinks`, `postprocess`, `env_before_read_docs`, `ensure_classes_on_nodes` and `build_finished` of utils.py are outside the core.
- LastUpdated: the git and file-time fallback (`doc2path`, `git log`, `stat`, time zones) is the outcome `FromHistory`.
- LastUpdated: `re.IGNORECASE` and `str.isspace` are modelled for ASCII case and the whitespace characters of `Strings.IsPySpace`.
- NodeNames.Capitalize: case mapping is ASCII only. Python's full Unicode `str.capitalize` is not modelled.
- The `setup` of theme/__init__.py, `copy_theme_static_files`, and the author, repository and video extensions.

## Findings

| source | as written | input that shows it | evidently intended | confidence | as-written member | corrected member |
|---|---|---|---|---|---|---|
| theme/extensions/roles.py:126-132 | with a `\|`, the link text is taken from between `<` and `\|`, and the mailto keeps the `\|`, the subject and a stray `>` | the documented `email <xa@mes3.dev \| Hello hello!!>` gives link text "xa@mes3.dev" and "mailto:xa@mes3.dev \| Hello hello!!?subject=Hello hello!!>" | the caption is the link text, the address is only the part before `\|`, and the subject is the part after it without the `>` | not executed | Roles.EmailSubjectAsWritten | Roles.EmailSubjectIntended |
| theme/extensions/utils.py:131-133 | `div.contents[0].strip()` is called on an element child too; BeautifulSoup reads `.strip` as `find("strip")`, which is `None`, and calling it raises TypeError; when a `<strip>` element does lie below, calling it lists the elements below that `<strip>`, and a `<strip>` holding only text makes the wrapper count as empty | a `div.toctree-wrapper` whose only child is a `<ul>`, with no whitespace around it (raises); `<div class="toctree-wrapper"><p><strip>x</strip></p></div>` (removed with its text) | only a wrapper holding a single blank string is removed; others are kept | not executed | Html.AsWrittenFailsOnLoneElement | Html.PruneRemovesOnlyEmpty |
