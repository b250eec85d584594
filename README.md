# A verified model of a static blog's browser logic

This project models, in Dafny, the logic of a static blog's browser scripts. The four modelled parts are:

- The post page's front-matter parser, `parseFrontMatter` in `js/post-loader.js`. It removes one byte-order mark and splits a `---`-delimited header from the Markdown body, matching lazily. It reads `key: value` header lines into a dictionary, removes one pair of matching quotes from each value, and turns a bracketed `tags` value into a list. The title and meta line that `renderPost` derives from the metadata are modelled alongside it.
- The list page in `js/app.js`:
  - the module state `allPosts`, `allTags` and `activeTag`;
  - the tag count that `renderTags` fills in nested `forEach` loops, and the sorted distinct tag list;
  - the tag bar and the rule `updateActiveTagButton` restyles it by;
  - the post cards `renderPosts` writes, and the no-results placeholder;
  - the "전체" (all) and tag click handlers.
- The search in `js/search.js`. `filterPosts` narrows the posts to the active tag, then keeps the posts whose title, description, excerpt, category or some tag contains the lower-cased, trimmed query. `resetSearch` clears the search box.
- The theme switch in `js/theme.js`. Its state is the root element's `data-theme` attribute plus the `blog-theme` storage key. The model covers the load-time choice, the toggle button, the system colour-scheme listener, and the theme message sent to the Giscus comment frame.

Where the scripts change state, the model does too:
- `App`, `SearchBox` and `ThemePage` are classes whose methods update their fields.
- The `forEach` loops over header lines, posts, tags and buttons are `while` loops. Each is proved against a specification function.

The pure parts are functions, with lemmas stating what the scripts promise:
- the lazy delimiter search equals the declarative reading of the regular expression;
- a later key overwrites an earlier one;
- the tag count equals the number of occurrences, and the tag list is strictly sorted;
- the search is the tag filter followed by the text filter;
- a pinned theme ignores system changes.

Modules:
- `Collections`: `Option`, `filter`, and subsequences.
- `Strings`: `trim`, `indexOf`, `includes`, `split`, `join` and ASCII `toLowerCase`.
- `Posts`: the entries of `posts.json`, the tag filter, and the card fields.
- `TagIndex`: tag counting and sorting.
- `FrontMatter`: the parser and the `renderPost` title and meta line.
- `Search`: `filterPosts` and the search box.
- `ListApp`: the list page state and handlers.
- `Theme`: the theme switch.

## Model

| member | source | states |
|---|---|---|
| Collections.Filter | js/app.js:71-73 | `filter` keeps every copy of each element satisfying the callback and no other element: each element occurs in the result as often as in the input when the callback holds for it, and not at all otherwise |
| Collections.FilterIsSubsequence | js/search.js:31 | the filtered list keeps the original order: it is a subsequence of the input |
| Collections.FilterFilter | js/search.js:20-31 | filtering by one callback, then another, equals one filter by their conjunction |
| Strings.TrimIsInnerSlice | js/post-loader.js:38-39 | `trim` returns a slice of its input with only white space removed on either side; the result neither starts nor ends with white space |
| Strings.TrimIdempotent | js/post-loader.js:38-39 | trimming twice equals trimming once |
| Strings.TrimStartAllSpace | js/search.js:26 | a string made only of white space trims to the empty string |
| Strings.IndexOf | js/post-loader.js:36 | `indexOf` gives -1 exactly when the character is absent; otherwise a position holding it |
| Strings.IndexOfSpec | js/post-loader.js:36 | the position `indexOf` reports is the first occurrence |
| Strings.IndexOfAt | js/post-loader.js:36 | a position holding the character with none before it is exactly the one `indexOf` reports |
| Strings.Contains | js/search.js:33 | `includes` holds exactly when the needle occurs at some position of the text |
| Strings.LowerIdempotent | js/search.js:17 | lower-casing twice equals lower-casing once |
| Strings.LowerTrimCommute | js/search.js:17 | lower-casing and trimming commute |
| Strings.SplitOnPieces | js/post-loader.js:56 | no piece of `split(",")` contains the separator |
| Strings.JoinSplitOn | js/post-loader.js:56 | joining the pieces of a split with the separator restores the string |
| Strings.SplitLinesCount | js/post-loader.js:34 | `split(/\r?\n/)` yields one more line than there are line feeds |
| Strings.SplitLinesPieces | js/post-loader.js:34 | no line contains a line feed |
| Strings.SplitLinesWithoutCr | js/post-loader.js:34 | without carriage returns, splitting on `/\r?\n/` equals splitting on the line feed |
| Strings.SplitLinesCrLf | js/post-loader.js:34 | a CRLF line ending is one separator: the line before it comes out without its carriage return, followed by the lines after it |
| FrontMatter.OnlyOneBomRemoved | js/post-loader.js:21-23 | exactly one leading U+FEFF is removed; a second one stays, and the content is then all body |
| FrontMatter.SplitFrontMatterIsLazyMatch | js/post-loader.js:25 | the hand-written delimiter search finds a split exactly when the pattern allows one; its header is the shortest allowed (the lazy `*?`), and its body is determined by that header |
| FrontMatter.SplitComplete | js/post-loader.js:25 | every split the pattern allows is found, with a header no longer than that split's header |
| FrontMatter.SplitSound | js/post-loader.js:25 | what the search finds is opener + header + closer + body, with the opener and closer in the forms the pattern accepts |
| FrontMatter.DelimitersFound | js/post-loader.js:25 | in any allowed split, the opener and the closer sit exactly where the search measures them |
| FrontMatter.NoHeaderKeepsContent | js/post-loader.js:25-28 | without a delimited header, the metadata is empty and the body is the BOM-stripped content |
| FrontMatter.HeaderEndsAtFirstCloser | js/post-loader.js:25-31 | with a delimited header, the header ends at the first closing `---` line; the metadata comes from that header's lines, and the body is everything after that line |
| FrontMatter.BodyIsSuffix | js/post-loader.js:19-68 | parsing never fails, and the body is always a suffix of the content |
| FrontMatter.LineKey | js/post-loader.js:36-37 | a line defines no key exactly when it has no colon or its first character is a colon |
| FrontMatter.LineParts | js/post-loader.js:36-39 | the key is the text before the first colon, trimmed; the value is everything after it, trimmed, and may hold further colons |
| FrontMatter.UnquoteSpec | js/post-loader.js:42-47 | a value wrapped in two equal quotes loses exactly those two characters; a lone quote becomes empty; any other value is unchanged |
| FrontMatter.UnquoteQuoted | js/post-loader.js:42-47 | quoting a text and then unquoting it gives the text back |
| FrontMatter.TagItemsShape | js/post-loader.js:54-59 | the comma fallback yields one item per comma-separated piece, and no item contains a comma |
| FrontMatter.TagItemsRoundTrip | js/post-loader.js:54-59 | for quoted items joined with commas, the fallback's split, trim and quote strip give back the original items |
| FrontMatter.StripQuotedItem | js/post-loader.js:58 | one quoted item passes through `trim` and the edge-quote strip as its unquoted text |
| FrontMatter.MetadataKeys | js/post-loader.js:35-65 | a key is in the metadata exactly when some header line defines it |
| FrontMatter.MetadataLastWins | js/post-loader.js:63 | the value stored for a key comes from the last line that defines it |
| FrontMatter.OnlyTagsIsList | js/post-loader.js:50-61 | only the key `tags` can hold a list |
| FrontMatter.ReadValue | js/post-loader.js:41-61 | the quote strip and the `tags` branch store the unquoted value, or for `tags` in brackets the `JSON.parse` result or the comma fallback |
| FrontMatter.ReadLine | js/post-loader.js:36-61 | one callback of the `forEach`: the key the line defines (or none) and the value stored under it |
| FrontMatter.ReadHeader | js/post-loader.js:34-65 | the `forEach` over the header lines builds the metadata of all lines in order |
| FrontMatter.ParseFrontMatter | js/post-loader.js:19-68 | the imperative parser (BOM strip by reassignment, match, header loop) returns the specified parse |
| FrontMatter.ExampleSplit | js/post-loader.js:25-31 | a concrete post splits into its two-line header and its body at the first closing line |
| FrontMatter.PostTitle | js/post-loader.js:90 | the heading is the truthy `title`; otherwise "제목 없음" |
| FrontMatter.MetaLine | js/post-loader.js:99-102 | the meta line holds the date and the category joined by " · ", each only when truthy, and its separator only when both are |
| FrontMatter.TagChips | js/post-loader.js:107-113 | tag chips are written exactly when `tags` is a non-empty list, one per item |
| Posts.WithTag | js/app.js:71-73 | the tag filter keeps every copy of each post whose `tags` array contains the tag, and no other post, in their original order |
| Posts.WithTagIdempotent | js/app.js:71-73 | filtering by a tag twice equals filtering once |
| Posts.Shown | js/app.js:155-160 | a falsy field shows as the empty string, and any other field as its text |
| Posts.Description | js/app.js:127 | the card description is `description`, else `excerpt`, else empty; it is non-empty exactly when one of the two is truthy |
| Posts.CardOf | js/app.js:111-147 | a card shows the link target, title, date, the category only when truthy, the description only when non-empty, and the tags array |
| Posts.Cards | js/app.js:111-149 | one card per post, in the order of the posts |
| Posts.CardsAppend | js/app.js:111-149 | the cards of two lists joined are the two card lists joined |
| TagIndex.CountInPositive | js/app.js:37-39 | a tag's count in one array is positive exactly when the array contains it |
| TagIndex.OccurrencesPositive | js/app.js:34-41 | a tag occurs across the posts exactly when the tag filter keeps some post, so no tag button leads to an empty list |
| TagIndex.NoneCarries | js/app.js:71-73 | the tag filter keeps nothing exactly when no post carries the tag |
| TagIndex.CountTags | js/app.js:34-41 | the nested loops map each tag to its total occurrences across all `tags` arrays, exactly for the tags that occur; non-arrays contribute nothing; keys are recorded once each |
| TagIndex.CountPostTags | js/app.js:37-39 | the inner loop adds one post's tags to the count and to the keys |
| TagIndex.BelowTotal | js/app.js:43 | the default string order ranks any two different strings |
| TagIndex.BelowTransitive | js/app.js:43 | the default string order is transitive |
| TagIndex.Insert | js/app.js:43 | insertion adds exactly the one element |
| TagIndex.Sort | js/app.js:43 | sorting permutes the keys |
| TagIndex.SortSorted | js/app.js:43 | sorting distinct keys gives them strictly ascending |
| TagIndex.SortedUnique | js/app.js:43 | two strictly sorted lists with the same elements are equal, so `allTags` depends only on which tags occur |
| TagIndex.AllTagsSpec | js/app.js:43 | `Object.keys(tagCount).sort()` is strictly ascending and holds exactly the tags some post carries |
| ListApp.RestyledSpec | js/app.js:86-91 | after restyling, a button is active exactly by the rule (no active tag and no truthy `data-tag`, or `data-tag` equal to the active tag); its tag and count are kept |
| ListApp.OnlyActiveTagButton | js/app.js:83-93 | in the tag bar with an active tag, only that tag's button is active; with none, only "전체" (and the button of an empty tag) |
| ListApp.App.constructor | js/app.js:7-9 | the page starts with no posts, no tags and no active tag |
| ListApp.App.FetchPosts | js/app.js:14-24 | on success `allPosts` is the parsed list and is returned; on failure `[]` is returned and `allPosts` is unchanged |
| ListApp.App.IndexTags | js/app.js:34-77 | the tags are strictly sorted and exactly those some post carries; the bar is "전체" (active) followed by one inactive button per tag with its occurrence count |
| ListApp.App.BuildTagBar | js/app.js:48-77 | the `allTags.forEach` appends the buttons of the tag bar in order |
| ListApp.App.RenderTags | js/app.js:29-77 | with a tags container, `allTags` and the buttons are the sorted tags and their bar; without one, nothing changes |
| ListApp.App.UpdateActiveTagButton | js/app.js:83-93 | every button is restyled by the rule, and nothing else changes |
| ListApp.App.RenderPosts | js/app.js:98-150 | with a container, the cards are one per post in order; the no-results element is shown exactly when the list is empty and hidden otherwise; without a container nothing changes |
| ListApp.App.ClickAll | js/app.js:52-60 | "전체" clears the active tag, restyles the buttons, renders every post (the no-results element shown exactly when there are none), and empties the search box; without a posts container the cards and the no-results element are unchanged |
| ListApp.App.ClickTag | js/app.js:68-75 | a tag button makes its tag active, restyles the buttons, and renders exactly the posts carrying it, showing the no-results element exactly when none does; without a posts container the cards and the no-results element are unchanged |
| ListApp.App.Init | js/app.js:165-180 | after `init`, `allPosts` is the fetched list; with a tags container, `allTags` is strictly sorted and holds exactly the carried tags, and the bar is built from it; with a posts container, the cards are built from the list and the no-results element is shown exactly when it is empty; a missing container leaves its part unchanged; `blogApp` is published |
| ListApp.App.SearchPosts | js/search.js:12-62 | before `blogApp` is published, nothing is rendered; afterwards the cards are those of the search result, and the no-results element is shown exactly when the result is empty |
| Search.NormalizedShape | js/search.js:17 | the normalised query neither starts nor ends with white space, and has no upper-case ASCII letter |
| Search.NormalizeIdempotent | js/search.js:17 | normalising a normalised query changes nothing |
| Search.Candidates | js/search.js:20-24 | with a truthy active tag, the candidates are every copy of each post carrying it, and no other post; otherwise all posts |
| Search.SomeTagHits | js/search.js:52-56 | `tags.some(...)` holds exactly when some tag, lower-cased, contains the query |
| Search.FilterPosts | js/search.js:12-62 | a blank query renders the candidates unchanged; otherwise every copy of each candidate that matches is kept, and nothing else; the result is a subsequence of the candidates |
| Search.TagThenText | js/search.js:20-31 | with an active tag and a non-blank query, the search equals one filter by "carries the tag and matches" |
| Search.BlankQueryShowsAll | js/search.js:26-29 | a query of only white space renders the tag-narrowed candidates unchanged |
| Search.AbsentFieldsNeverMatch | js/search.js:33-58 | a post whose text fields are all falsy and whose `tags` is not an array is never found |
| Search.QueryCaseIrrelevant | js/search.js:17 | the query and its lower-cased form give the same results |
| Search.SearchBox.constructor | js/search.js:68 | the search box starts with the given text |
| Search.SearchBox.Reset | js/search.js:67-72 | `resetSearch` only empties the input value |
| Theme.PreferredTheme | js/theme.js:11-23 | the preferred theme is the stored one when it is non-empty; otherwise "dark" exactly when the system prefers dark, else "light"; it is never empty |
| Theme.PreferredPins | js/theme.js:28-30 | storing the preferred theme pins it: afterwards the preference no longer depends on the system scheme |
| Theme.Toggled | js/theme.js:53-57 | toggling gives "light" exactly after "dark", and "dark" after anything else |
| Theme.ToggleTwice | js/theme.js:53-57 | toggling twice from "dark" or "light" restores it |
| Theme.GiscusTheme | js/theme.js:42 | the Giscus theme is "dark" exactly when the theme is "dark", else "light" |
| Theme.SchemeTheme | js/theme.js:77 | a system change proposes "dark" exactly when the dark scheme matches |
| Theme.ThemePage.Load | js/theme.js:60 | at load, the attribute and the stored key are set to the preferred theme, which pins it |
| Theme.ThemePage.ApplyTheme | js/theme.js:28-47 | the attribute and the stored key both become the theme; a Giscus message is appended exactly when the frame exists |
| Theme.ThemePage.Toggle | js/theme.js:53-57 | the toggle applies the toggled current attribute and leaves the theme pinned |
| Theme.ThemePage.SystemChange | js/theme.js:74-79 | a system change applies its theme only when no theme is stored; otherwise nothing changes; afterwards the theme is pinned, so every later system change is ignored |

## Left out

- Fetching `posts.json` and the Markdown file, `response.ok`, and the order of the async `init` steps are not modelled. A fetch outcome is an input value (`Option<seq<Post>>`).
- DOM construction, `innerHTML` markup, `document.title` and element lookup are not modelled. Elements are modelled as the values they show. Whether an element exists is a constant of the page.
- Posts.Shown: `escapeHtml` is modelled only as "a falsy input gives the empty string". The browser's HTML serialisation is not modelled.
- `marked.parse`, `Prism.highlightAllUnder`, the Giscus script injection and `configureMarked` are third-party library calls, and are not modelled.
- FrontMatter.StoredValue: `JSON.parse` is a parameter that returns a list of strings or fails. A JSON value that is not an array of strings is not modelled.
- The `setTimeout`/`clearTimeout` debounce of the search input is wall-clock timing and is not modelled. The Enter key handler, which cancels the pending timer and searches at once, is left out along with it. Each search is a direct call of `SearchPosts`.
- Strings.Lower: only ASCII letters are lower-cased. Unicode case mapping, including mappings that change the length, is not modelled.
- TagIndex.Below: strings are compared character by character, as code points. JavaScript's `sort` compares UTF-16 code units, so the order can differ for characters outside the Basic Multilingual Plane.
- TagIndex.CountTags: `tagCount` is modelled as a map from tag strings. Tags that collide with `Object.prototype` properties are not modelled (`__proto__`, `constructor`). Neither are non-string tags.
- FrontMatter.MetadataOf / FrontMatter.MetadataKeys: the header dictionary is a map, so a line keyed `__proto__` adds that key. In JavaScript, `metadata["__proto__"] = value` goes to the prototype setter and adds no own key; this key is not modelled.
- Theme.PreferredTheme: a missing `window.matchMedia` is folded into `systemDark = false`. `localStorage` exceptions are not modelled.
- `postMessage` delivery is reduced to the list of theme values sent to the Giscus frame. The frame's existence is fixed for the page's lifetime.
- `getFileParam` (`URLSearchParams`), `encodeURIComponent` of the card link, and the post page's loading sequence are not modelled.
- The model follows the code for an empty-string tag. Its button has a falsy `data-tag`, so with no active tag it is marked active together with "전체" (`ListApp.OnlyActiveTagButton`). An active tag `""` does not narrow the search, because `if (activeTag)` treats it as absent (`Search.Candidates`).
