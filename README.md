# Articles table and scroll spy of a technical writer's portfolio site

The site is a set of presentational pages on a documentation-site framework.
Two pieces of it hold logic, and this project models and proves both:

- **The DigitalOcean articles table** (`src/components/DoArticlesCard/index.js`).
  Each article record from the data file is normalised. Its category is
  trimmed and kept only if it is one of four listed categories, otherwise it
  becomes "Misc". Its title, description and link are trimmed, and a missing
  value becomes the empty string. The table shows the normalised records of
  the selected category that have a title and a link, sorted by title. An
  empty description is shown as a fixed dash string. All of this is pure, so
  it is modelled as functions over sequences (modules `Text`, `DoArticles`).
- **The scroll spy of the experience page** (`website/src/pages/experience.js`).
  On every scroll, and once when the page mounts, a handler walks the section
  ids in the order of the navigation list. It starts from the first id. Ids with no element are skipped. Every id whose element
  starts at or above the scroll position plus 140 pixels replaces the current
  choice. The handler is a loop that reassigns a local, so it is modelled as a
  method with a loop invariant (`ScrollSpy.ScrollHandler`). That method is
  proved equal to a pure specification (`ScrollSpy.Active`), and the
  properties of the selection are proved about that specification.

Modelling choices:

- An object property that may be missing is an `Option<string>`. `x || ""`
  reads `None` as the empty string.
- `String.prototype.trim` is `Text.Trim`. It removes the ECMAScript white
  space and line terminator code points from both ends (`Text.IsSpace`). The
  trim lemmas in `Text` hold for any `IsSpace`. `DoArticles.CategoriesAreTrimmed`,
  and through it the two idempotence lemmas of `DoArticles`, also need the
  first and last letters of the four category names not to be white space.
- `localeCompare` is a parameter `cmp: (string, string) -> int`. Title x may
  precede title y when `cmp(x, y) <= 0`. Sorting and adjacent order need only
  that every pair is comparable (`Total`). Order between any two rows also
  needs transitivity (`Transitive`).
- The array sort is modelled as a stable insertion sort. Records whose titles
  compare equal keep their input order, as the stable `Array.prototype.sort`
  does.
- For the scroll spy, the document is a map from element id to the element's
  `offsetTop`. An id outside the map has no element (`getElementById` gives
  `null`). The window's scroll position is a parameter. With no ids the
  handler's `ids[0]` is `undefined`; the model returns `None` then.
- The dash at line 127 of the articles component is a UTF-8 em dash that was
  decoded as Windows-1252. It is modelled as the three characters it is in
  the file: U+00E2, U+20AC, U+201D (`DoArticles.Dash`).

## Model

| member | source | states |
|---|---|---|
| `Optional.OrEmpty` | src/components/DoArticlesCard/index.js:12 | `x || ""` on a property that holds a string or nothing: a missing value reads as the empty string, a present one as itself |
| `Text.IsSpace` | src/components/DoArticlesCard/index.js:12 | the code points `trim` removes: the ECMAScript WhiteSpace and LineTerminator set |
| `Text.TrimStart` | src/components/DoArticlesCard/index.js:12 | the result is a suffix of the input; everything dropped is white space; the result does not start with white space |
| `Text.TrimEnd` | src/components/DoArticlesCard/index.js:12 | the result is a prefix of the input; everything dropped is white space; the result does not end with white space |
| `Text.Trim` | src/components/DoArticlesCard/index.js:12 | the trimmed string has no white space at either end and is no longer than the input |
| `Text.TrimIsSlice` | src/components/DoArticlesCard/index.js:12 | the trimmed string is a contiguous piece of the input with only white space before and after it |
| `Text.TrimUnique` | src/components/DoArticlesCard/index.js:12 | any split of a string into white space, a piece with no white space at its ends, and white space has that piece as its trim (an independent characterisation of trim) |
| `Text.TrimmedIsFixed` | src/components/DoArticlesCard/index.js:12 | a string with no white space at either end is its own trim |
| `Text.TrimIdempotent` | src/components/DoArticlesCard/index.js:22-24 | trimming twice is the same as trimming once |
| `DoArticles.NormalizeCategory` | src/components/DoArticlesCard/index.js:11-14 | the result is always one of the four listed categories; a trimmed input that is listed is returned as is; any other input gives "Misc" |
| `DoArticles.MissingCategoryIsMisc` | src/components/DoArticlesCard/index.js:12-13 | a missing category gives "Misc" |
| `DoArticles.CategoriesAreTrimmed` | src/components/DoArticlesCard/index.js:4-9 | each listed category is unchanged by trim |
| `DoArticles.NormalizeCategoryIdempotent` | src/components/DoArticlesCard/index.js:11-14 | normalising a normalised category gives the same category |
| `DoArticles.NormalizeText` | src/components/DoArticlesCard/index.js:22-24 | a missing field becomes ""; a present one becomes its trim; either way no white space is left at its ends |
| `DoArticles.Normalize` | src/components/DoArticlesCard/index.js:19-25 | the record's category is a listed one and is the normalised category; title, description and link are the normalised text fields; all other fields are kept |
| `DoArticles.NormalizeAll` | src/components/DoArticlesCard/index.js:18-26 | the normalised list has one record per article, in the same order |
| `DoArticles.NormalizeIdempotent` | src/components/DoArticlesCard/index.js:19-25 | normalising an already normalised record gives the same record |
| `DoArticles.FilterShown` | src/components/DoArticlesCard/index.js:32 | every kept record has the selected category, a title and a link; each record that passes appears as often as in the input and no other record appears |
| `DoArticles.FilterShownAppend` | src/components/DoArticlesCard/index.js:32 | the filter keeps records in input order: filtering a concatenation gives the filtered parts concatenated |
| `DoArticles.FilterShownSingle` | src/components/DoArticlesCard/index.js:32 | a single record is kept exactly when it passes; with `FilterShownAppend` this fixes the filtered list, order included |
| `DoArticles.Shown` | src/components/DoArticlesCard/index.js:32 | the filter predicate: the selected category, a non-empty title and a non-empty link; what it means for the rows is stated by `FilterShown` and `DisplayedMembership` |
| `DoArticles.InsertByTitle` | src/components/DoArticlesCard/index.js:33 | inserting into a title-ordered list gives a title-ordered list: the new record is placed at one position and the other records keep their relative order; no other record is added or removed |
| `DoArticles.SortByTitle` | src/components/DoArticlesCard/index.js:33 | the result is a permutation of the input and neighbouring records are in title order |
| `DoArticles.OrderedIsSorted` | src/components/DoArticlesCard/index.js:33 | for a transitive ordering, title order between neighbours gives title order between any two records |
| `DoArticles.FilterThenSort` | src/components/DoArticlesCard/index.js:31-33 | filtering then sorting keeps exactly the records that pass, with their multiplicities, in title order |
| `DoArticles.Displayed` | src/components/DoArticlesCard/index.js:30-34 | the table's rows: no more rows than articles, and every row passes the filter; the full contract is delivered by `DisplayedRows`, `DisplayedMembership`, `DisplayedSorted` and `UnlistedSelectionShowsNothing` |
| `DoArticles.DisplayedRows` | src/components/DoArticlesCard/index.js:30-34 | every row has the selected category, a non-empty title and a non-empty link; the rows are a permutation of the normalised records that pass the filter; neighbouring rows are in title order |
| `DoArticles.DisplayedMembership` | src/components/DoArticlesCard/index.js:31-33 | a record is a row if and only if it is a normalised record that passes the filter |
| `DoArticles.DisplayedSorted` | src/components/DoArticlesCard/index.js:33 | any two rows, not just neighbours, are in title order |
| `DoArticles.UnlistedSelectionShowsNothing` | src/components/DoArticlesCard/index.js:11-34 | selecting a category outside the list shows no rows, because every normalised record has a listed category |
| `DoArticles.DescriptionText` | src/components/DoArticlesCard/index.js:127 | the shown description is never empty: the description when it is non-empty, the dash otherwise |
| `ScrollSpy.ReferenceLine` | website/src/pages/experience.js:52 | the reference line is the scroll position plus 140 |
| `ScrollSpy.Qualifies` | website/src/pages/experience.js:56-58 | an id qualifies when it has an element and that element's top is at or above the reference line; an id with no element is skipped |
| `ScrollSpy.LastQualifying` | website/src/pages/experience.js:55-59 | no position is found exactly when no id has an element at or above the line; a found position qualifies and no later id does |
| `ScrollSpy.ActiveIndex` | website/src/pages/experience.js:52-59 | the highlighted position is within the ids |
| `ScrollSpy.Active` | website/src/pages/experience.js:50-60 | with ids, the highlighted id is one of them; with none, there is none |
| `ScrollSpy.ScrollHandler` | website/src/pages/experience.js:51-61 | the loop computes exactly `Active` for the reference line scrollY + 140: the last qualifying id, or the first id when none qualifies |
| `ScrollSpy.ActiveIsLastQualifying` | website/src/pages/experience.js:55-59 | when some id qualifies, the highlighted one is the last id in list order that does |
| `ScrollSpy.ActiveDefaultsToFirst` | website/src/pages/experience.js:53-58 | when no id qualifies, the first id is highlighted |
| `ScrollSpy.MissingSectionNotChosen` | website/src/pages/experience.js:53-57 | an id with no element is highlighted only if it is the first id and no id qualifies |
| `ScrollSpy.ActiveIndexMonotonic` | website/src/pages/experience.js:52-59 | scrolling further down never moves the highlight to an earlier position |

## Left out

- All JSX rendering, CSS modules, inline styles and the `Layout` and `Link` components: presentation only.
- The other pages, the sidebar component, the article card and the site configuration: they hold static markup and no logic.
- `window.addEventListener` / `removeEventListener`, passive scroll events, `document.getElementById` and `offsetTop`: DOM input and output. The element offsets are an input map and the scroll position an input integer. Fractional scroll positions (floating point) are not modelled.
- `setActiveId` and `useState` / `useMemo`: framework state and memoisation. The model returns the id the handler passes to `setActiveId`.
- The wiring of the experience page: its nav items carry no `id` field, so the ids the handler walks are all `undefined` there. The selection rule is modelled over any given list of ids.
- `localeCompare`: locale-dependent collation. It is a parameter, assumed total (and transitive where stated).
- `DoArticles.SortByTitle`: does not state stability (records with equal titles keep their input order), although the insertion sort that defines it is stable.
- The data file `src/data/doArticles.json` is not part of this model. The articles are an arbitrary input sequence. The `articles || []` fallback is not modelled; it gives no articles when the data file holds `null` or another falsy value.
- Field values that are neither strings nor missing: `(x || "").trim()` throws on a truthy non-string, and the model only takes strings. Fields other than the four the table uses are modelled as string-valued.
- The initial selection ("Foundations") and the drop-down's change handler: framework state. Every selection is an input of `DoArticles.Displayed`.
