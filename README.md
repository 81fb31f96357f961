# Prompt library: the category and attachment logic of the explore and categories pages

The prompt library is a Supabase-backed site. Its explore page, `pages/explore/explore.js`, does four things:

- it lists public prompts in a category sidebar;
- it narrows the list by a `?category=` name taken from the URL;
- it turns each prompt's stored `file_url` into a link and, for images, a preview;
- it labels each prompt's author.

Its categories page, `pages/categories/categories.js`, shows one card per category, with a prompt count, a keyword-chosen icon and a rotating background.

This project models the logic inside those two scripts and proves what it promises:

- **Text helpers.** `Text` covers what the pages use from JavaScript strings: truthiness, `||`, `trim` with the ECMAScript whitespace set, ASCII lower-casing, `includes`, `indexOf`, `split('?')[0]` and `slice(0, n)`. `Collections` has de-duplication in first-occurrence order (`[...new Set(xs)]`) and filtering. `Wrappers` has the `Option` type.
- **Labels and counts.** `CategoryIndex` defines the label a row is grouped under: the trimmed name, or "Uncategorized". It also defines the per-label count and the first truthy category id. Both pages depend on these definitions.
- **Sorting.** `Ordering` is the shared comparator: count descending, then name order. Name order is an abstract relation `le` that stands in for `localeCompare`. Sorting is an insertion sort standing in for `Array.prototype.sort`. With a total `le`, and no two different entries sharing a key (`Ordering.KeyInjective`; both pages list each name once), its result is fully determined (`Ordering.SortIgnoresInputOrder`).
- **Explore sidebar.** `ExploreCategories` holds the aggregation loop of `fetchCategories` and the sort, plus the prototype-lookup defect described under Findings.
- **URL filter.** `ExploreFilter` is the page state as a class. It holds the initial filter name, `activeCategoryId` and `hasUnmatchedUrlFilter`, with the URL-filter step, sidebar clicks and the start of `fetchPrompts`.
  - A sidebar link's `data-id` attribute holds the entry's id converted to text, so an entry without an id carries "null" (`ExploreFilter.DataId`).
  - Clicking such an entry therefore selects the id `"null"`, not "all categories" (`ExploreFilter.ExplorePage.ClickEntry`).
- **Attachment references.** `AttachmentRefs` models `isAbsoluteUrl`, `getFilePathWithoutQuery`, `isImageFile` and `getAuthorLabel`.
- **Attachment resolution.** `AttachmentResolution` holds the `forEach` passes of `fetchPrompts`:
  - partitioning the references;
  - the signed-URL and public-URL fallback for storage paths;
  - the overlay of absolute references;
  - the preview map;
  - what a card shows.
- **Categories page.** `CategoriesPage` holds the icon rule table, the background class, the counting loop, the sort and the rendered page. It also proves that its list equals the explore sidebar without ids.

Supabase is not called. Each reply is an input:

- the RPC result is an `RpcResult`;
- each `createSignedUrls` reply is an optional batch of `SignedUrlItem`s;
- `getPublicUrl` is a given map from path to URL.

`new URL(v).pathname` is a parameter `pathname: string -> Option<string>`, where `None` means the constructor throws.

## Model

| member | source | states |
|---|---|---|
| `AttachmentRefs.IsAbsoluteUrl` | pages/explore/explore.js:58-60 | only a truthy reference can be absolute |
| `AttachmentRefs.IsAbsoluteUrlMeaning` | pages/explore/explore.js:58-60 | a reference is absolute exactly when its lower-cased text starts with "http://" or "https://"; null and "" are not |
| `AttachmentRefs.SchemeMatch` | pages/explore/explore.js:59 | reading the pattern left to right (letters case-free, optional "s", then "://") is the same as having one of the two lower-case prefixes |
| `AttachmentRefs.MatchesScheme` | pages/explore/explore.js:59 | the pattern `/^https?:\/\//i` read left to right; what it means is `SchemeMatch` |
| `AttachmentRefs.GetFilePathWithoutQuery` | pages/explore/explore.js:62-76 | "" for a falsy reference; the parsed pathname for an absolute URL that parses; otherwise the longest prefix before the first "?"; never a "?" when parsed pathnames have none |
| `AttachmentRefs.ExtensionOf` | pages/explore/explore.js:79 | the extension is None exactly when there is no "."; otherwise it contains no "." and the path ends with "." followed by it |
| `AttachmentRefs.IsImageFile` | pages/explore/explore.js:78-80 | only a truthy reference can be an image |
| `AttachmentRefs.IsImageFileMeaning` | pages/explore/explore.js:78-80 | a reference is an image exactly when the extension of its lower-cased query-free path is jpeg, jpg, gif, png or webp |
| `AttachmentRefs.ExtensionOfSuffix` | pages/explore/explore.js:79 | a path ending in "." followed by dot-free text has exactly that text as extension |
| `AttachmentRefs.AbsoluteIgnoresQuery` | pages/explore/explore.js:58-60 | appending a query to a "?"-free reference does not change whether it is absolute |
| `AttachmentRefs.IsImageIgnoresQuery` | pages/explore/explore.js:62-80 | appending a query to a "?"-free reference changes neither absoluteness nor whether it is an image; for an absolute URL, given that the parser drops the query |
| `AttachmentRefs.QueriedImageExample` | pages/explore/explore.js:75-79 | "a.png?x=1" is an image |
| `AttachmentRefs.AbsoluteImageExample` | pages/explore/explore.js:67-79 | "https://x/y.jpg", whose pathname is "/y.jpg", is an image |
| `AttachmentRefs.UpperCaseImageExample` | pages/explore/explore.js:79 | "B.JPEG" is an image: the match ignores case |
| `AttachmentRefs.DocumentExample` | pages/explore/explore.js:79 | "b.PDF" is not an image |
| `AttachmentRefs.EmptyIsNotImage` | pages/explore/explore.js:63-65 | neither null nor "" is an image |
| `AttachmentRefs.GetAuthorLabel` | pages/explore/explore.js:82-97 | never empty; the text before the first "@" when that is at a position above 0; the whole email when "@" is first or missing; "Unknown author" without email and user id; else "User " and the first at most 8 characters of the id |
| `AttachmentRefs.EmailExample` | pages/explore/explore.js:84-86 | "ada@example.org" is labelled "ada" |
| `AttachmentRefs.HandleExample` | pages/explore/explore.js:89 | "@handle" stays whole |
| `AttachmentRefs.UserIdExamples` | pages/explore/explore.js:92-96 | a 10-character id is cut to 8 after "User "; an empty id gives "Unknown author" |
| `CategoryIndex.NormalizeName` | pages/explore/explore.js:112 | `(name || 'Uncategorized').trim() || 'Uncategorized'`, the same expression as categories.js:80; its properties are `NormalizeNameFacts` |
| `CategoryIndex.NormalizeNameFacts` | pages/explore/explore.js:112 | labels are non-empty and trimmed; missing, empty and whitespace-only names become "Uncategorized"; other names are trimmed |
| `CategoryIndex.BlankNamesMerge` | pages/categories/categories.js:80 | any two rows with missing or blank names share the one "Uncategorized" label |
| `CategoryIndex.FirstSeenIsNameSet` | pages/explore/explore.js:110-126 | the labels in creation order have no repeats and are exactly the labels some row carries |
| `CategoryIndex.CountIsMultiplicity` | pages/explore/explore.js:121 | the count of a label is its multiplicity among the rows' labels |
| `CategoryIndex.CountPositiveIffPresent` | pages/explore/explore.js:113-121 | a label's count is positive exactly when some row carries it |
| `CategoryIndex.FirstIdIsEarliest` | pages/explore/explore.js:115-125 | a label's id is null exactly when no row of it has a truthy id; otherwise it is the id of the earliest such row |
| `CategoryIndex.FirstIdNeverReplaced` | pages/explore/explore.js:123-125 | once a label has an id, later rows never replace it |
| `CategoryIndex.CountsCoverAllRows` | pages/explore/explore.js:111-126 | over distinct names covering every row's label, the counts add up to the number of rows |
| `CategoryIndex.CountsSumToRowCount` | pages/explore/explore.js:111-126 | the counts of all labels add up to the number of rows |
| `Collections.Dedupe` | pages/explore/explore.js:262 | the de-duplicated paths have no repeats, the same members, and are no longer than the input |
| `Collections.DedupeKeepsFirstOccurrenceOrder` | pages/explore/explore.js:262 | de-duplication keeps first occurrences in their input order |
| `Ordering.Precedes` | pages/explore/explore.js:128-133 | the comparator is not positive: a larger count first, and for equal counts `le` on the names (also categories.js:86-91); total and transitive for a total `le` (`PrecedesTotal`, `PrecedesTransitive`) |
| `Ordering.Sort` | pages/explore/explore.js:128-133 | `sort` with that comparator (also categories.js:86-91): the result is a permutation of the input, of the same length; sortedness is `SortSorted` |
| `Ordering.SortSorted` | pages/explore/explore.js:128-134 | with a total name order, the sort's output is ordered by count descending, then name |
| `Ordering.SortedUnique` | pages/explore/explore.js:128-134 | two sorted arrangements of the same entries with distinct keys are equal |
| `Ordering.SortIgnoresInputOrder` | pages/explore/explore.js:128 | with a total name order and distinct keys, the sorted result does not depend on the input order |
| `Ordering.SortKeepsTotal` | pages/explore/explore.js:128-134 | sorting keeps the sum of the counts |
| `Ordering.SortKeepsNamesDistinct` | pages/explore/explore.js:128-134 | sorting entries with distinct names keeps them distinct |
| `Ordering.SortMapCommutes` | pages/categories/categories.js:84-92 | mapping entries to others with the same key commutes with sorting |
| `ExploreCategories.AggregateByName` | pages/explore/explore.js:110-126 | after the loop, the keys in creation order are the labels in first-seen order; each entry holds its label's row count and first truthy id |
| `ExploreCategories.CountRow` | pages/explore/explore.js:113-125 | one iteration of the loop body: a map, creation order and rows that agree with the counts and first ids of the rows seen so far agree again once the row is added |
| `ExploreCategories.StepRepresents` | pages/explore/explore.js:113-125 | one loop step turns the map for some rows into the map for those rows plus one |
| `ExploreCategories.SummaryOfSnoc` | pages/explore/explore.js:121-125 | a new row adds one to its own label's count, fills in a missing id from its truthy id, and leaves other labels alone |
| `ExploreCategories.Bumped` | pages/explore/explore.js:113-125 | the loop body on an own entry as written: created if missing, counted, given the row's truthy id if it had none; what a run of it builds is `AsWrittenEntry` |
| `ExploreCategories.BuildCategoryIndex` | pages/explore/explore.js:105-134 | the sorted list built from a reply is the sorted summary of its rows (`prompts \|\| []`) |
| `ExploreCategories.RowsOf` | pages/explore/explore.js:111 | `prompts \|\| []`: a missing reply is no rows; used by `BuildCategoryIndex` |
| `ExploreCategories.SidebarEntries` | pages/explore/explore.js:110-134 | each sidebar entry is a present label with its count (positive) and first id; every label has exactly one entry |
| `ExploreCategories.SidebarSorted` | pages/explore/explore.js:128-134 | with a total name order the sidebar is sorted, and its counts never increase |
| `ExploreCategories.SidebarTotal` | pages/explore/explore.js:110-134 | the sidebar's counts add up to the number of rows |
| `ExploreCategories.SidebarEmptyIffNoRows` | pages/explore/explore.js:153-156 | the sidebar is empty, and the empty state shown, exactly when there are no rows |
| `ExploreCategories.SidebarIgnoresEnumerationOrder` | pages/explore/explore.js:128 | the order in which the map's values are enumerated does not affect the sorted sidebar |
| `ExploreCategories.AsWrittenRun` | pages/explore/explore.js:110-126 | the loop as written: an own entry is bumped; a "__proto__" row writes its id onto `Object.prototype`; another inherited member name gets no entry; a first "id" row after that throws and ends the loop; its properties are `AsWrittenSnoc`, `AsWrittenEntry` and `AsWrittenCompletes`, with the two examples after them |
| `ExploreCategories.AsWrittenSnoc` | pages/explore/explore.js:111-126 | as written, a completed run after one more row bumps that row's entry, or changes no entry when the label names an inherited member; the run before it completed too |
| `ExploreCategories.AsWrittenEntry` | pages/explore/explore.js:110-126 | as written, when the loop completes, a label has an entry exactly when some row carries it and it is not an `Object.prototype` member name; such an entry is the proper one |
| `ExploreCategories.AsWrittenCompletes` | pages/explore/explore.js:113-125 | as written, without a "__proto__" row carrying a truthy id, nothing is written onto `Object.prototype.id` and the loop does not throw |
| `ExploreCategories.PrototypeLookupDropsCategory` | pages/explore/explore.js:113 | a row in category "constructor" has a label, yet the map as written has no entry at all |
| `ExploreCategories.PrototypeIdBreaksLoad` | pages/explore/explore.js:113-125 | as written, a "__proto__" row with id "c1" and then a row labelled "id" make the loop throw |
| `ExploreFilter.FindByName` | pages/explore/explore.js:137-139 | the index found is the first entry whose lower-cased name equals the lower-cased filter; none exactly when no entry matches |
| `ExploreFilter.MatchedId` | pages/explore/explore.js:137-141 | `matchedCategory?.id` when truthy; its meaning is `MatchedIdMeaning` |
| `ExploreFilter.MatchedIdMeaning` | pages/explore/explore.js:137-141 | the filter selects an id exactly when the first matching entry has a truthy id, and then it is that id |
| `ExploreFilter.FilterSelectsLabel` | pages/explore/explore.js:110-141 | on the sidebar of rows, a filter matching one label (ignoring case) selects that label's first truthy id |
| `ExploreFilter.FilterWithoutLabel` | pages/explore/explore.js:136-147 | a filter matching no label selects nothing |
| `ExploreFilter.DataId` | pages/explore/explore.js:174 | the `data-id` text of an entry: its id, or "null" without one; what a click on it selects is `ExplorePage.ClickEntry` |
| `ExploreFilter.SidebarOf` | pages/explore/explore.js:153-182 | empty exactly for no entries; otherwise one item per entry in order, highlighted exactly when its id is the active one, and "All Categories" highlighted exactly when no id is active |
| `ExploreFilter.ExplorePage.constructor` | pages/explore/explore.js:16-29 | the filter name is the trimmed `category` parameter, or ""; no id is active; the filter is not unmatched |
| `ExploreFilter.ExplorePage.ApplyUrlFilter` | pages/explore/explore.js:136-149 | an empty filter changes nothing; a match with an id selects it and clears the unmatched flag; otherwise the flag is set and the active id is kept |
| `ExploreFilter.ExplorePage.SelectCategory` | pages/explore/explore.js:190-193 | a non-empty `data-id` becomes the active id, an empty one clears it; the unmatched flag is cleared |
| `ExploreFilter.ExplorePage.ClickEntry` | pages/explore/explore.js:174-193 | clicking an entry selects its id; an entry without an id selects the text "null"; the unmatched flag is cleared |
| `ExploreFilter.ExplorePage.ClickAll` | pages/explore/explore.js:164-193 | clicking "All Categories" clears the selection and the unmatched flag |
| `ExploreFilter.ExplorePage.PromptsRequest` | pages/explore/explore.js:213-223 | an unmatched filter shows the empty state without a query; otherwise prompts are queried for the active id |
| `ExploreFilter.ExplorePage.LoadCategories` | pages/explore/explore.js:99-204 | a failed call shows the failure and changes no state; otherwise the sidebar of the sorted rows, after the URL filter has been applied as above |
| `AttachmentResolution.RefsAreFileUrls` | pages/explore/explore.js:239-243 | the references considered are exactly the truthy `file_url`s of the rows |
| `AttachmentResolution.StorageRefs` | pages/explore/explore.js:244-251 | `attachmentPaths`: the non-absolute references in row order, repeats kept (also `storageImagePaths`, line 293); which paths are requested is `RequestOnce` |
| `AttachmentResolution.ImageRefs` | pages/explore/explore.js:248-255 | exactly the image references are queued for previews |
| `AttachmentResolution.DirectTable` | pages/explore/explore.js:244-245 | the direct map has exactly the absolute references, each mapped to itself |
| `AttachmentResolution.PartitionReferences` | pages/explore/explore.js:236-256 | the loop yields the storage paths in order, the image references, and the direct map |
| `AttachmentResolution.ClassifyReference` | pages/explore/explore.js:244-255 | one reference goes to the direct map when absolute, else to the storage paths, and to the image list when it is an image |
| `AttachmentResolution.SignedTable` | pages/explore/explore.js:267-272 | the granted-URL map, later entries overwriting earlier ones; characterised by `SignedTableFacts` |
| `AttachmentResolution.SignedTableFacts` | pages/explore/explore.js:267-272 | a path has a signed URL exactly when some batch entry grants it (no error, truthy path and URL), and it is the last granted one |
| `AttachmentResolution.CollectSignedUrls` | pages/explore/explore.js:268-272 | the loop builds exactly the granted-URL table |
| `AttachmentResolution.FallbackTable` | pages/explore/explore.js:275-285 | the public-URL fallback over the requested paths; characterised by `FallbackFacts` |
| `AttachmentResolution.FallbackFacts` | pages/explore/explore.js:275-285 | a listed path keeps a truthy URL, else takes its truthy public URL, else stays absent; unlisted paths are untouched |
| `AttachmentResolution.FallBackToPublicUrls` | pages/explore/explore.js:275-285 | the loop is the public-URL fallback |
| `AttachmentResolution.OverlayDirect` | pages/explore/explore.js:288-290 | the direct entries overwrite the resolved map: the result is their union with direct entries winning |
| `AttachmentResolution.ResolvedUrls` | pages/explore/explore.js:257-290 | `resolvedAttachmentUrlsMap`: the fallback table when there are storage paths, overlaid by the direct map; what each reference resolves to is `ResolutionFacts` |
| `AttachmentResolution.ResolutionFacts` | pages/explore/explore.js:239-290 | an absolute reference resolves to itself; a storage path to its signed URL when granted, else its truthy public URL, else to nothing |
| `AttachmentResolution.RequestOnce` | pages/explore/explore.js:261-265 | the signed-URL request lists each storage path once, and all of them |
| `AttachmentResolution.PreviewTable` | pages/explore/explore.js:300-305 | the preview batch's map, every entry without an error writing its URL under its path; characterised by `PreviewTableFacts` |
| `AttachmentResolution.PreviewTableFacts` | pages/explore/explore.js:300-305 | a key is written exactly when an entry without error carries it (a null path as "null"), with the last such entry's URL |
| `AttachmentResolution.KeyOf` | pages/explore/explore.js:303 | the property key `signedUrlsMap[item.path]` writes: the path itself, a null path as "null"; its meaning inside the table is `PreviewTableFacts` |
| `AttachmentResolution.SelfPreviews` | pages/explore/explore.js:309-313 | exactly the absolute image references are mapped to themselves |
| `AttachmentResolution.PreviewUrls` | pages/explore/explore.js:292-314 | `signedUrlsMap`: the preview table when storage image paths were requested, overlaid by every absolute image reference mapped to itself; per reference it is `StoragePreviewEntry` and `AbsoluteImageShowsItself` |
| `AttachmentResolution.CollectPreviewEntries` | pages/explore/explore.js:301-305 | the loop builds exactly the preview table of the batch |
| `AttachmentResolution.AddSelfPreviews` | pages/explore/explore.js:309-313 | the loop overlays every absolute image reference, mapped to itself, on the preview map: the result is the map given overridden by `SelfPreviews` |
| `AttachmentResolution.CollectPreviewUrls` | pages/explore/explore.js:292-314 | the storage image paths are requested, and the preview map is the batch's table overlaid by the absolute image references |
| `AttachmentResolution.ResolveAttachments` | pages/explore/explore.js:236-314 | the two requests and the two maps the cards read, as the functions above define them |
| `AttachmentResolution.AttachmentViewOf` | pages/explore/explore.js:325-335 | no button without a reference; otherwise the resolved URL or ""; a preview only for images, never empty: the truthy preview-map URL, else the truthy resolved URL, else none |
| `AttachmentResolution.StoragePreviewEntry` | pages/explore/explore.js:292-314 | a storage image's preview-map value is the URL of the last error-free batch entry for it; it is truthy only when that URL is |
| `AttachmentResolution.StorageImagePreview` | pages/explore/explore.js:239-335 | a storage image row previews the last error-free image-batch URL for it when truthy; otherwise its attachment-batch signed URL, else its truthy public URL, else nothing |
| `AttachmentResolution.AbsoluteImageShowsItself` | pages/explore/explore.js:239-335 | a row whose reference is an absolute image URL links to it and previews it |
| `CategoriesPage.CategoryIcon` | pages/categories/categories.js:17-37 | the icon is one of the five classes |
| `CategoriesPage.CategoryIconIsRuleTable` | pages/categories/categories.js:17-37 | the chain of conditionals is the ordered keyword table applied first-match to the lower-cased name |
| `CategoriesPage.FirstMatchIsEarliest` | pages/categories/categories.js:20-34 | the first rule that matches decides the icon |
| `CategoriesPage.NoMatchIsDefault` | pages/categories/categories.js:36 | without a matching rule the icon is "bi-folder2-open" |
| `CategoriesPage.CodeRuleBeatsDesign` | pages/categories/categories.js:20-26 | a name with both "code" and "design" matches the image rule too, yet gets "bi-code-slash" |
| `CategoriesPage.NullNameIcon` | pages/categories/categories.js:18 | a null name gets "bi-folder2-open" |
| `CategoriesPage.BackgroundClass` | pages/categories/categories.js:7-15 | the background is always one of the seven pastel classes |
| `CategoriesPage.BackgroundPeriod` | pages/categories/categories.js:45 | backgrounds repeat every seven cards |
| `CategoriesPage.BackgroundsDifferWithinPeriod` | pages/categories/categories.js:7-15 | any seven consecutive cards have seven different backgrounds |
| `CategoriesPage.CountByName` | pages/categories/categories.js:77-82 | after the loop, the keys in creation order are the labels in first-seen order, each with its row count |
| `CategoriesPage.CountOneRow` | pages/categories/categories.js:80-81 | one iteration: a count map and creation order that agree with the rows seen so far agree again once the row is added |
| `CategoriesPage.ListCategories` | pages/categories/categories.js:70-92 | the sorted list from a reply is the sorted count listing of its rows |
| `CategoriesPage.ListingIsExploreWithoutIds` | pages/categories/categories.js:77-92 | for the same rows the list equals the explore sidebar with its ids dropped, in the same order |
| `CategoriesPage.ListingEntriesCounted` | pages/categories/categories.js:77-92 | each listed entry is a present label with its positive row count |
| `CategoriesPage.ListingComplete` | pages/categories/categories.js:84-85 | every label is listed, and none twice |
| `CategoriesPage.ListingSorted` | pages/categories/categories.js:86-92 | with a total name order the list is sorted by count descending, then name |
| `CategoriesPage.ListingTotal` | pages/categories/categories.js:77-92 | the listed counts add up to the number of rows |
| `CategoriesPage.ListingEmptyIffNoRows` | pages/categories/categories.js:96-99 | the list is empty, and the empty state shown, exactly when there are no rows |
| `CategoriesPage.ListingIgnoresEnumerationOrder` | pages/categories/categories.js:84-86 | the enumeration order of the map's entries does not affect the sorted list |
| `CategoriesPage.SameLabelsSameCounts` | pages/categories/categories.js:77-85 | rows with the same labels equally often give every label the same count and the same set of entries |
| `CategoriesPage.ListingIgnoresRowOrder` | pages/categories/categories.js:77-92 | with a total name order, rearranging the rows gives the same list |
| `CategoriesPage.SidebarCountsIgnoreRowOrder` | pages/explore/explore.js:110-134 | with a total name order, rearranging the rows gives the same sidebar names and counts in the same order |
| `CategoriesPage.DesignExample` | pages/categories/categories.js:79-92 | rows named "Design " and "" list Design with 1, then Uncategorized with 1, when Design comes first in name order |
| `CategoriesPage.Cards` | pages/categories/categories.js:39-62 | one card per entry, with its name, count, icon and the pastel class of its position; the ensures is this rendering projection written out, and what icon and class mean is `CategoryIconIsRuleTable` and `BackgroundsDifferWithinPeriod` |
| `CategoriesPage.RenderCategories` | pages/categories/categories.js:64-116 | a failed call shows the failure, no rows the empty state, otherwise the cards of the sorted list |
| `Text.TrimIsInfix` | pages/explore/explore.js:112 | the trimmed text is a contiguous part of the input, only whitespace is cut off around it, and it has no whitespace at either end |
| `Text.Trim` | pages/explore/explore.js:112 | `String.prototype.trim`; what it keeps and cuts is `TrimIsInfix`, `TrimEmptyIffBlank` and `TrimIdempotent` |
| `Text.TrimEmptyIffBlank` | pages/explore/explore.js:112 | trimming gives "" exactly when the text is all whitespace |
| `Text.TrimIdempotent` | pages/explore/explore.js:17 | trimming twice is trimming once |
| `Text.IndexOf` | pages/explore/explore.js:84 | the position of the first occurrence, or -1 exactly when there is none |
| `Text.BeforeFirst` | pages/explore/explore.js:71-75 | the prefix before the first separator: a prefix without the separator, ending at the end or at a separator |
| `Text.Take` | pages/explore/explore.js:96 | the first min(n, length) characters |
| `Text.LowerAscii` | pages/categories/categories.js:18 | `toLowerCase` on ASCII: the same length, each character lower-cased on its own |

## Left out

- Strings are sequences of characters. `slice(0, 8)`, `indexOf` and lengths are therefore counted in characters, not UTF-16 code units.
- `toLowerCase` is modelled as ASCII lower-casing. Exact for the patterns, whose letters are all ASCII, but not for the names compared by the URL filter.
- `localeCompare` is an abstract relation `le`. Sortedness and order-independence are proved for any total order.
- `Array.prototype.sort` is modelled as an insertion sort. With a total order and distinct names, every correct sort gives the same result (`Ordering.SortedUnique`).
- JavaScript object key enumeration order lists integer-like keys first. The model enumerates keys in creation order. The sorted result is proved independent of that order (`ExploreCategories.SidebarIgnoresEnumerationOrder`, `CategoriesPage.ListingIgnoresEnumerationOrder`).
- The sorted lists are also independent of the order the rows arrive in (`CategoriesPage.ListingIgnoresRowOrder`). On the explore page this holds for names and counts only (`CategoriesPage.SidebarCountsIgnoreRowOrder`): each id is the first truthy one in row order, so it can depend on that order.
- Both row-order lemmas need `le` to be antisymmetric. `localeCompare` can return 0 for two different names ("é" as one character or as "e" plus an accent), and the stable sort then keeps creation order, which follows row order.
- CategoriesPage.CountByName: models the intended count for every label. As written, a label equal to an `Object.prototype` member name reads the inherited value first. "constructor" therefore gets a string instead of a count, and "__proto__" gets no entry.
- AttachmentResolution.ResolvedUrls: paths are looked up as own keys only. A storage path equal to an `Object.prototype` member name (for example "toString") would find an inherited, truthy value and skip its public URL.
- AttachmentResolution.AttachmentViewOf: looks up own keys only. An inherited value under a reference named like an `Object.prototype` member is not modelled.
- The `__proto__` key of a plain object is an inherited accessor. On the categories page the value assigned to it is a string, which the setter ignores, so that label gets no entry. On the explore page the existence test already finds `Object.prototype`, and the row's count and id are written onto it (`ExploreCategories.AsWrittenRun`). Elsewhere `__proto__` is not modelled.
- ExploreCategories.AsWrittenRun: each run starts from an untouched `Object.prototype`. Writes left on it by an earlier run in the same page are not modelled, and of those writes only the `id` is tracked; the count written there (NaN) is never read back as truthy.
- AttachmentRefs.IsImageIgnoresQuery: for an absolute URL it assumes that the parser gives the same pathname with and without the query. WHATWG parsing does so, but URL parsing is a parameter of the model, so this is not proved.
- The "View Attachment" click handler (pages/explore/explore.js:356-388) is not modelled. It opens the resolved URL, else an absolute reference, else one `createSignedUrl` reply, else the public URL, and otherwise shows an alert; it makes calls of its own at click time.
- The label on a prompt card, `prompt.category_name || 'Uncategorized'` (pages/explore/explore.js:317), is display text only and not modelled. Unlike the sidebar label it is not trimmed.
- The DOM is not modelled. This covers the markup, headers (`updateExploreHeader`), URL syncing (`syncCategoryFilterInUrl`, `history.pushState`), modals, `window.open` and console logging.
- The order of asynchronous calls, and races between overlapping `fetchCategories`/`fetchPrompts` runs, are not modelled. The page is modelled one call at a time.
- Supabase calls (`rpc`, `createSignedUrls`, `getPublicUrl`) are not made. Their replies are inputs, and the signed-URL lifetime (3600) is not modelled.
- `new URL(v).pathname` is a parameter of the model. WHATWG URL parsing is not modelled.
- Ids are strings. A numeric `category_id` would print the same way in `data-id`.
- pages/admin/admin.js, utils/auth.js, utils/roles.js, utils/seedData.js, the generated dist/ bundle and the stub pages are not part of this model. They are I/O wrappers, build output or placeholders.

## Findings

| source | as written | input that shows it | evidently intended | confidence | as-written member | corrected member |
|---|---|---|---|---|---|---|
| pages/explore/explore.js:113 | `!categoryMap[name]` on a plain object also sees `Object.prototype` members, so no entry is created for such a label and its count lands on the inherited object | one row whose `category_name` is "constructor" | every label present among the rows gets an entry with its count | not executed | `ExploreCategories.PrototypeLookupDropsCategory` | `ExploreCategories.AggregateByName` |
| pages/explore/explore.js:121-125 | a "__proto__" row writes its id onto `Object.prototype`; a later first row labelled "id" then finds that string and `count += 1` on it throws, so the sidebar shows "Failed to load categories" | a "__proto__" row with id "c1", then a row labelled "id" | the sidebar lists both labels | not executed | `ExploreCategories.PrototypeIdBreaksLoad` | `ExploreCategories.AggregateByName` |
