# wallpeypers: the catalog logic in Dafny

wallpeypers is a wallpaper gallery. The catalog is an ordered list of
records `{filename, season, style, source, created, url, thumbUrl, tags}`.
Offline Node scripts fill and maintain it, and a Next.js page shows it.
This project models the parts of those programs that decide what goes into
the catalog and what the page shows. It proves what they guarantee.

- **Ingestion** (`scripts/process-all.mjs`, `process-images.mjs`).
  - The captioning model's reply becomes a description: a kebab-case name,
    a season and one of eight style categories.
  - A name is made unique with a counter loop.
  - Records are appended to the catalog.
  - The helpers that appear in both scripts are defined once, in module
    `Naming`. The two loops are `ProcessAll` and `ProcessImages`.
  - `process-all.mjs` names files only against the catalog as it was
    loaded. `ProcessAll.SameReplySameName` shows that two files of one run
    with the same reply and extension get the same name.
  - `process-images.mjs` writes every file before choosing the next name.
    `ProcessImages.NamesFreshDistinct` proves its names pairwise distinct.
  - A reply that cannot be parsed stops a `process-all.mjs` run before the
    catalog is written. The files before it have been uploaded and removed
    by then. `process-images.mjs` gives that file no record and goes on;
    it still removes the file.
- **Gallery** (`src/pages/index.tsx`, `context/FavoritesContext.tsx`).
  - The page's state is a `ViewState` value. Its transitions are
    functions.
  - The derived views are modelled: the style list, the newest-first
    order, the filter, the placeholder count and the selected wallpaper.
  - The favourites toggle is modelled once, in `Favorites`. The page's
    own copy calls it.
- **Maintenance passes** (`scripts/backfill-tags.mjs`,
  `scripts/updateThumbUrls.mjs`).
  - Tag-line parsing.
  - The tag backfill loop, which fills only untagged entries that have a
    thumbnail and counts them.
  - The `thumbUrl` rewrite and the list of entries still missing a
    thumbnail.

Every foreign call becomes a parameter:
- the model's reply: `Option<string>`, with `None` when there is no text;
- the mime extension: a string, `""` when the lookup fails;
- the creation timestamp: an `int`;
- the uploaded blob's URL: a string;
- "file exists": a set of names.

Shared modules:
- `Wrappers`: `Option` and `Result`.
- `Text`: JavaScript string primitives, with ASCII case mapping.
- `Seqs`: `filter`, subsequences, duplicates, first-appearance order.
- `Catalog`: the record.

## Model

| member | source | states |
|---|---|---|
| Catalog.FilenameSetMembers | scripts/process-all.mjs:98 | a name is taken exactly when some catalog record carries it |
| Text.Lower | scripts/process-all.mjs:24 | `toLowerCase` keeps the length, maps each character on its own and leaves no upper-case letter |
| Text.Trim | scripts/process-all.mjs:71 | `trim` returns the infix of its input left after removing the white space at both ends: only white space precedes and follows it, and it neither starts nor ends with white space |
| Text.Split | scripts/process-all.mjs:71 | `split` on one character gives at least one part, and no part contains the separator |
| Text.JoinSplit | scripts/process-all.mjs:71 | splitting loses nothing: joining the parts with the separator gives back the text |
| Text.TrimmedLines | scripts/backfill-tags.mjs:47 | the reply gives one trimmed line per `\n`-separated part |
| Text.Dec | scripts/process-all.mjs:84 | the counter in a template string is a non-empty string of decimal digits |
| Text.ParseDecOfDec | scripts/process-all.mjs:84 | reading the rendered counter back gives the counter |
| Text.DecInjective | scripts/process-all.mjs:84 | distinct counters render to distinct strings |
| Seqs.FilterMembers | src/pages/index.tsx:54 | `filter` keeps exactly the elements that satisfy the predicate, each as many times as it occurs in the input |
| Seqs.FilterIsSubseq | src/pages/index.tsx:54 | `filter` keeps the order of the elements it keeps |
| Seqs.UniqueInOrder | src/pages/index.tsx:42-44 | a `Set` built by insertion holds no duplicates and exactly the elements of the list |
| Seqs.UniqueInOrderFirstAppearance | src/pages/index.tsx:42-44 | the `Set`'s elements come in the order of their first appearance |
| Naming.CollapseRuns | scripts/process-all.mjs:24 | replacing each run of non-`[a-z0-9]` by one `-` leaves only letters, digits and single dashes |
| Naming.Words | scripts/process-all.mjs:24 | the maximal runs of `[a-z0-9]` in a string, in order: each is a non-empty run of letters and digits, and there is none exactly when the string has no letter or digit |
| Naming.CollapseRunsWords | scripts/process-all.mjs:24 | collapsing runs gives the words joined by single dashes, with one dash before them when the text starts with a separator run and one after when it ends with one |
| Naming.KebabCase | scripts/process-all.mjs:24 | `toKebabCase`; `KebabCaseIsWords`, `KebabCaseIsSlug` and `KebabCaseIdempotent` state what it gives |
| Naming.KebabCaseIsWords | scripts/process-all.mjs:24 | `toKebabCase` is the words of the lower-cased text joined by `-`: every separator run between two words becomes one dash, and those at the ends vanish |
| Naming.KebabCaseSplitsIntoWords | scripts/process-all.mjs:24 | splitting the kebab case at `-` gives back the words of the lower-cased text, when it has any |
| Naming.DropLeadingDashes | scripts/process-all.mjs:24 | `^-+` removal keeps a suffix that starts with no dash and removes only dashes |
| Naming.DropTrailingDashes | scripts/process-all.mjs:24 | `-+$` removal keeps a prefix that ends with no dash and removes only dashes |
| Naming.KebabCaseIsSlug | scripts/process-all.mjs:24 | `toKebabCase` returns only `a-z`, `0-9` and `-`, never a leading or trailing dash, never `--` |
| Naming.KebabCaseKeepsLettersAndDigits | scripts/process-all.mjs:24 | the letters and digits of the result are those of the lower-cased input, in order |
| Naming.CollapseRunsKeepsSlugChars | scripts/process-all.mjs:24 | collapsing runs keeps every letter and digit, in order |
| Naming.SlugIsFixed | scripts/process-all.mjs:24 | a string that is already a slug is its own kebab case |
| Naming.KebabCaseIdempotent | scripts/process-all.mjs:24 | applying `toKebabCase` to its own output changes nothing |
| Naming.Capitalize | process-images.mjs:33 | `capitalize` keeps the length, upper-cases the first character and lower-cases the rest; `""` stays `""` |
| Naming.CapitalizeIgnoresCase | scripts/process-all.mjs:25 | `capitalize` gives the same result whatever the case of its input |
| Naming.StyleFrom | scripts/process-all.mjs:37-39 | the table scan from any position returns one of the eight categories |
| Naming.StyleOf | scripts/process-all.mjs:26-40 | `simplifyStyle` always returns one of the eight categories |
| Naming.SimplifyStyle | scripts/process-all.mjs:37-39 | the early-return loop over the keyword table returns the style of the lower-cased description |
| Naming.StyleFromIsFirstKeyword | scripts/process-all.mjs:37-39 | the scan returns `Illustration` when no keyword occurs, and otherwise the category of the first keyword, in table order, that occurs |
| Naming.StyleOfIsFirstKeyword | scripts/process-all.mjs:27-38 | the style is the category of the first table keyword contained in the text, or `Illustration` when none is |
| Naming.CuteIsKawaii | scripts/process-all.mjs:28 | a description containing "cute" in any case is `Kawaii`, whatever else it contains |
| Naming.SeasonWordAt | scripts/process-all.mjs:75 | the season word found at a position occurs there, case-insensitively, and `None` means none of the remaining words does |
| Naming.SeasonMatchFrom | scripts/process-all.mjs:75 | the regex search finds the leftmost position where a season word occurs, or reports that none occurs |
| Naming.ExtractSeason | scripts/process-all.mjs:75 | the season of the second line; `ExtractSeasonSpec` states it |
| Naming.ExtractSeasonSpec | scripts/process-all.mjs:75 | the season is in {Spring, Summer, Fall, Autumn, Winter, Any}; it is `Any` exactly when no season word occurs; otherwise it is the capitalised word at the leftmost match |
| Naming.CapitalizedSeasons | scripts/process-all.mjs:25 | the five season words capitalise to Spring, Summer, Fall, Autumn (not Fall) and Winter, and `Any` to itself |
| Naming.ParseReply | scripts/process-all.mjs:70-77 | the parse of a reply, or why the script throws; `ParseReplySpec` states when it succeeds and what it gives |
| Naming.Describe | scripts/process-all.mjs:70-77 | the description step computes the reply's parse, and fails exactly where the script throws |
| Naming.ParseReplySpec | scripts/process-all.mjs:70-77 | the reply parses exactly when there is text with at least three lines; the name is then a slug, the season one of the six and the style one of the eight |
| Naming.SourceLabel | process-images.mjs:126 | the source is `Peyton` exactly when the lower-cased file name starts with `peyyyyyy`, and `Other` otherwise |
| Naming.ResolvedExt | scripts/process-all.mjs:111 | the extension is never empty, and it is the mime extension whenever the lookup gives one |
| Naming.NameFor | scripts/process-all.mjs:81-84 | the `k`-th candidate name: `base.ext` for 0, `base-k.ext` after; `NameForInjective` states the candidates differ |
| Naming.NameForInjective | scripts/process-all.mjs:81-84 | distinct counters give distinct candidate names |
| Naming.SmallestFreeIsUnique | scripts/process-all.mjs:80-88 | the first free candidate name is determined by the base, the extension and the taken names |
| Naming.UniqueFilename | scripts/process-all.mjs:80-88 | the name returned is not taken; it is `base.ext` when that is free, else `base-k.ext` for the smallest free `k >= 1` |
| ProcessAll.ExtName | scripts/process-all.mjs:101 | `path.extname`; `ExtNameOfImageName` states what it gives on image names |
| ProcessAll.LastIndexOf | scripts/process-all.mjs:101 | finds the last occurrence of a character, or reports that there is none |
| ProcessAll.IsInputImage | scripts/process-all.mjs:99-106 | the filter of the directory listing; `InputImageByName` states which names pass |
| ProcessAll.InputFiles | scripts/process-all.mjs:99-106 | the ingested files, in directory order; `Run` states one record is appended per file |
| ProcessAll.InputImageByName | scripts/process-all.mjs:99-106 | an entry is ingested exactly when it is a regular file whose name ends, in any case, in `.jpg`, `.jpeg` or `.png` after at least one other character |
| ProcessAll.ExtNameOfImageName | scripts/process-all.mjs:101 | a name ending in an image extension has that extension as its lower-cased `extname` |
| ProcessAll.RecordFor | scripts/process-all.mjs:122-129 | the pushed record: the chosen name, the parsed season and style, the source label, the timestamp and the blob URL; `IngestFile` states it is what one turn appends |
| ProcessAll.Run | scripts/process-all.mjs:91-142 | the run completes exactly when every ingested file's reply parses; then the old records are kept and one record per ingested file follows, named against the starting catalog; a failure names a file whose reply does not parse |
| ProcessAll.IngestFiles | scripts/process-all.mjs:108-138 | the loop stops at the first reply that does not parse; otherwise it appends exactly one record per file, in order, after the unchanged existing records |
| ProcessAll.IngestFile | scripts/process-all.mjs:110-129 | one turn appends exactly the record for the current file and keeps the earlier ones |
| ProcessAll.SameReplySameName | scripts/process-all.mjs:98-116 | two files with the same reply and extension get the same name in one run, because the taken names are never extended |
| ProcessImages.Accepted | process-images.mjs:123-147 | the files that get a record, with their descriptions; `AcceptedPrefix` and `AcceptedFiles` state which |
| ProcessImages.RecordFor | process-images.mjs:136-142 | the pushed record; `AcceptedDescription` and `RecordsAt` state how it is built and named |
| ProcessImages.AcceptedPrefix | process-images.mjs:120-147 | each file adds its record only when its extension is jpg, jpeg or png and its description succeeds; otherwise it adds nothing |
| ProcessImages.AcceptedFiles | process-images.mjs:123-147 | the files that get a record are exactly the files with an image extension and a parsable reply, in folder order |
| ProcessImages.AcceptedDescription | process-images.mjs:129-142 | every record is built from its file's parsed reply |
| ProcessImages.RecordsAt | process-images.mjs:131-142 | each record is named against the names on disk plus the names of the records written before it |
| ProcessImages.NamesFreshDistinct | process-images.mjs:131-134 | names chosen in one run are new on disk and pairwise distinct |
| ProcessImages.ProcessFolder | process-images.mjs:114-153 | the folder pass keeps the old records and appends one record per accepted file, in order; its names are fresh and distinct, and the disk gains exactly those names |
| ProcessImages.ProcessFile | process-images.mjs:121-149 | one file appends at most one record, named with the first name free on disk, and the disk gains that name |
| ProcessImages.AppendRecord | process-images.mjs:136-142 | a successful file's record, named with the first free name, extends the records of the earlier files |
| ProcessImages.NamesFreshAppend | process-images.mjs:155-164 | names fresh against the disk after one folder stay distinct from those chosen in earlier folders |
| ProcessImages.DirectoriesAccepted | process-images.mjs:155-164 | the files that get a record in a run, folder after folder and only for directories; `ProcessSubfolders` states the run appends their records |
| ProcessImages.InTurnAppend | process-images.mjs:155-164 | two runs of records in a row, the second named against the disk the first left, are one run |
| ProcessImages.RecordsAppend | process-images.mjs:155-164 | the records of two folders in a row are the records of their accepted files in a row |
| ProcessImages.FolderRecords | process-images.mjs:158-162 | one subfolder more adds the records of its accepted files when it is a directory, and nothing otherwise |
| ProcessImages.ProcessSubfolders | process-images.mjs:155-164 | the run keeps the old records and appends, folder after folder and only for directories, one record per accepted file, each named against the disk as it was then; all names chosen are fresh and distinct, and the disk gains exactly those names |
| Favorites.Toggle | context/FavoritesContext.tsx:28-32 | toggling an absent name lengthens the list by one; toggling a present name shortens it |
| Favorites.ToggleFlips | context/FavoritesContext.tsx:28-34 | after a toggle, `isFavorite` is flipped for the toggled name and unchanged for every other name |
| Favorites.ToggleAbsentAppends | context/FavoritesContext.tsx:28-32 | toggling an absent name appends it at the end and keeps the list before it |
| Favorites.ToggleRemovesAll | context/FavoritesContext.tsx:30 | toggling a present name removes every occurrence and keeps the other names in order |
| Favorites.ToggleTwice | context/FavoritesContext.tsx:28-32 | toggling an absent name twice gives back the original list |
| Favorites.ToggleKeepsNoDup | context/FavoritesContext.tsx:30 | a duplicate-free list stays duplicate-free after any toggle |
| Gallery.Styles | src/pages/index.tsx:41-45 | the style menu; `StylesSpec` states it |
| Gallery.StylesSpec | src/pages/index.tsx:41-45 | `styles` is `All Styles` followed by every catalog style exactly once, in order of first appearance |
| Gallery.Insert | src/pages/index.tsx:47-51 | inserting one record adds exactly that record |
| Gallery.InsertDescending | src/pages/index.tsx:47-51 | inserting into a newest-first list keeps it newest-first |
| Gallery.SortDescending | src/pages/index.tsx:47-51 | the newest-first sort; `SortDescendingOrdered`, `SortDescendingPermutes` and `SortDescendingStable` state it |
| Gallery.SortDescendingOrdered | src/pages/index.tsx:47-51 | the sort orders records by non-increasing timestamp |
| Gallery.SortDescendingPermutes | src/pages/index.tsx:47-51 | the sort is a permutation of its input |
| Gallery.InsertStable | src/pages/index.tsx:47-51 | inserting a record keeps the catalog order of the records that share a timestamp |
| Gallery.SortDescendingStable | src/pages/index.tsx:47-51 | records with equal timestamps keep their catalog order, since `Array.prototype.sort` is stable |
| Gallery.NewestFirst | src/pages/index.tsx:47-51 | `sortedWallpapers` is a permutation of the catalog, newest first |
| Gallery.Matches | src/pages/index.tsx:55-60 | the four conditions of the filter; `FilteredSpec` states their use |
| Gallery.Filtered | src/pages/index.tsx:53-62 | `filtered`; `FilteredSpec` states it |
| Gallery.FilteredSpec | src/pages/index.tsx:53-62 | `filtered` is a subsequence of the sorted list holding exactly the records that meet all four conditions, each as often as in the sorted list |
| Gallery.InitialShowsAll | src/pages/index.tsx:13-20 | a fresh page shows the whole sorted list, with nothing selected and no favourite |
| Gallery.DefaultsShowAll | src/pages/index.tsx:56-59 | with every filter at its default, `filtered` is the whole sorted list |
| Gallery.OtherSeasonsOnlyUnderAll | src/pages/index.tsx:40-56 | a record whose season is not among the menu choices (`Autumn`, `Any`) is shown only under `All Seasons` |
| Gallery.ResetFilters | src/pages/index.tsx:64-69 | the reset restores the four filter defaults and leaves the selection and the favourites alone |
| Gallery.ResetShowsAll | src/pages/index.tsx:64-69 | after a reset the page shows the whole newest-first catalog |
| Gallery.ToggleFavorite | src/pages/index.tsx:71-75 | the page's toggle changes only the favourites |
| Gallery.ToggleFavoriteFlips | src/pages/index.tsx:71-75 | the page's toggle flips membership of the given name and keeps every other name's |
| Gallery.PlaceholdersNeeded | src/pages/index.tsx:77-78 | tiles plus placeholders number at least five, exactly five when fewer than five are shown, with no placeholder from five on |
| Gallery.GoPrev | src/pages/index.tsx:202 | the previous-arrow; `NavigationInBounds` states it |
| Gallery.GoNext | src/pages/index.tsx:210 | the next-arrow; `NavigationInBounds` states it |
| Gallery.NavigationInBounds | src/pages/index.tsx:199-214 | prev is offered only above 0 and next only below the last index, so a step moves by one and stays on a shown wallpaper |
| Gallery.Select | src/pages/index.tsx:135 | clicking a tile; `SelectAndClose` states it |
| Gallery.Close | src/pages/index.tsx:176-184 | closing the viewer; `SelectAndClose` states it |
| Gallery.Selected | src/pages/index.tsx:79 | `selected`; `SelectAndClose` and `NavigationInBounds` state it |
| Gallery.SelectAndClose | src/pages/index.tsx:79 | selecting a tile shows that wallpaper, and closing shows none |
| BackfillTags.FindTagLine | scripts/backfill-tags.mjs:48-49 | `find` returns the first line that is a tag line, or reports that none is |
| BackfillTags.TagLine | scripts/backfill-tags.mjs:47-49 | the tag line is the first trimmed line containing `,` whose lower-case form does not contain `style`, or `""` when there is none |
| BackfillTags.CleanTag | scripts/backfill-tags.mjs:51 | a cleaned piece is the piece without the white space at its ends, lower-cased; it is trimmed and lower case |
| BackfillTags.CleanedPiecesClean | scripts/backfill-tags.mjs:51 | every piece of the tag line is trimmed and lower case after cleaning |
| BackfillTags.TagsOf | scripts/backfill-tags.mjs:47-51 | the tags read from a reply; `TagsWellFormed` states them |
| BackfillTags.TagsWellFormed | scripts/backfill-tags.mjs:51 | every tag is non-empty, trimmed and lower case; the tags are the non-empty cleaned pieces, in order, each as often as it occurs |
| BackfillTags.NoTagLineNoTags | scripts/backfill-tags.mjs:47-51 | a reply without a tag line gives no tags |
| BackfillTags.Tagged | scripts/backfill-tags.mjs:59-75 | one entry after the pass; `TaggedSpec` states it |
| BackfillTags.TaggedSpec | scripts/backfill-tags.mjs:59-75 | an entry changes only in `tags`, and only when it has no tags, has a thumbnail and gets a non-empty tag list, which is then its new `tags` |
| BackfillTags.CountAssignedSpec | scripts/backfill-tags.mjs:69-71 | `updatedCount` equals the number of entries that were assigned tags |
| BackfillTags.Backfill | scripts/backfill-tags.mjs:54-80 | the pass either stops at the first consulted entry without a reply, or returns the catalog with the same length and order where only the tags of assigned entries change, and `updatedCount` is their number |
| BackfillTags.BackfillEntry | scripts/backfill-tags.mjs:59-75 | one turn tags the current entry when it qualifies, counts it, and leaves the other entries alone |
| BackfillTags.LoopStateStep | scripts/backfill-tags.mjs:58-76 | one turn of the loop keeps the pass's invariant: the entries seen so far are tagged and counted |
| UpdateThumbUrls.WithThumb | scripts/updateThumbUrls.mjs:19-25 | only `thumbUrl` changes; it is `/wallpapers/thumbs/` plus the filename when the thumbnail exists, and null otherwise |
| UpdateThumbUrls.UpdateThumbUrls | scripts/updateThumbUrls.mjs:18-26 | the rewrite keeps the catalog's length and order and rewrites each entry on its own |
| UpdateThumbUrls.UpdateIdempotent | scripts/updateThumbUrls.mjs:18-26 | running the rewrite twice gives the same catalog as running it once |
| UpdateThumbUrls.MissingThumbs | scripts/updateThumbUrls.mjs:29 | `missingThumbs`; `MissingThumbsSpec` states it |
| UpdateThumbUrls.MissingThumbsSpec | scripts/updateThumbUrls.mjs:29 | `missingThumbs` keeps catalog order and holds exactly the entries whose thumbnail is absent, each as often as it occurs |

## Left out

- Foreign I/O is not modelled; its results are parameters. This covers the OpenAI chat calls, exiftool and `statSync` dates, `sharp` resizing, Vercel Blob `put`, `readFileSync`/`writeFileSync`/`unlinkSync`/`mkdirSync`, `ensureDir`, the prompts and every console log.
- Failures of those calls are not modelled either: a failed upload or thumbnail in `process-all.mjs`, an unreadable entry in a `process-images.mjs` subfolder, or a catalog file that is not JSON.
- The input folders are not modelled, so neither is the removal of input files. `process-images.mjs` removes every file whose extension passed (`process-images.mjs:149`), also one whose description failed. Only a file skipped for its extension (`process-images.mjs:124`) stays.
- When a reply does not parse, `process-all.mjs` stops. By then the files before it were uploaded (`scripts/process-all.mjs:119`), got thumbnails (`scripts/process-all.mjs:133`) and were removed (`scripts/process-all.mjs:136`). The catalog is not written (`scripts/process-all.mjs:140`). The model returns only the failure; those earlier effects are I/O it leaves out.
- The thumbnail that `process-all.mjs` writes for each record is left out. It is a side effect on disk that the catalog does not record.
- `created` is an integer timestamp. `new Date(...)`, `toISOString` and `getTime` are not modelled.
- Text.Lower: maps ASCII letters only. Unicode `toLowerCase` and `toUpperCase` also map other letters, which the model leaves as they are.
- BackfillTags.CleanTag: does not state that a tag contains no comma. `Text.Split` proves that of the raw pieces.
- BackfillTags.Backfill: the model's reply for every entry is given up front. The entries that the pass never consults simply ignore theirs.
- The `mime` lookup is a given extension string. `""` stands for a failed lookup.
- The gallery's `isMobile` resize effect, the `imageLoaded` fade, the suggestion modal and the rendering are left out. The `localStorage` persistence of favourites in both the page and the context is left out too.
- The other scripts, the email routes, the components, `types/filters.ts` and `next.config.ts` are not part of this model. They are download, resize, upload and presentation code.
