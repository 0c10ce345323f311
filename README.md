# Store locator: a verified model of its core rules

This project models the core rules of a store-locator web application. The
application is an Express server over a MongoDB collection of stores, users
and reviews, with a small browser script for quick search. The model covers
these parts:

- **Store model (`models/Store.js`).**
  - The pre-save hook derives a unique URL slug from the store name. It
    counts the committed slugs that match `^(base)((-[0-9]*$)?)$`,
    case-insensitively, and appends `-(count+1)` when the count is not zero.
  - The `getTagsList` aggregation gives each tag with its number of
    occurrences, most frequent first.
  - The `getTopStores` aggregation gives the ten best-rated stores that have
    at least two reviews.
  - The `reviews` virtual relation.
- **Store controller (`controllers/storeController.js`).**
  - Pagination of the store list, four stores per page, newest first. It
    includes the redirects for bad and out-of-range pages.
  - The owner check and the tag filter.
  - The favourite toggle: `$pull` when the store is already a favourite,
    `$addToSet` otherwise.
  - Forcing `location.type` to `"Point"` on update.
  - The upload filter (`image/*` only) and the `<uuid>.<subtype>` photo
    name.
- **Quick search (`public/javascripts/modules/typeAhead.js`).**
  - The HTML generated for the search hits.
  - The results box being hidden and shown.
  - The keyboard state machine: Down and Up move the active result
    cyclically, and Enter follows its link.
- **Account handlers (`controllers/authController.js`).**
  - Issuing a password-reset token valid for one hour.
  - Checking a token: it must match, and its expiry must be strictly later
    than now.
  - Setting the password, which clears both reset fields.
  - The password-confirmation gate and the logged-in gate.

Files:

| file | contents |
|---|---|
| `common.dfy` | `Option`, a pass/fail `Outcome`, order-preserving `Filter` (what `find`, `$match` and `$pull` do to a collection), `FirstIndex` (what `findOne` and `querySelector` return) |
| `ranking.dfy` | A stable descending sort on a key, and the first k of it (`$sort: {key: -1}`, `$limit`) |
| `slugs.dfy` | The slug match predicate, the decimal suffix, slug resolution, the uniqueness of sequentially saved slugs, and a corrected rule that is always fresh |
| `catalog.dfy` | `Store` and `Review`; the `trim` setter of the name; a `StoreDocument` class with the save hook; the reviews relation; tag counts; top stores |
| `store_controller.dfy` | Pagination, owner check, tag filter, hearts (with a `User` class), upload rules, and the submitted form (a `StoreForm` class) |
| `type_ahead.dfy` | The `SearchBox` class (results box, result items, browser location); the keyup transition `Press`; the results template and its parser |
| `auth.dfy` | User records with optional reset token and expiry; the `Accounts` class with `Forgot` and `Update`; the two gates |

Inputs that are not computed by the core become parameters:

- clock: `now`;
- random token: `token`;
- uuid: `uuid`;
- request host: `host`;
- the `slug` library's transliteration: `slugify`, a function.

The database query order among equal keys is not specified, so the model
fixes a stable order.

The code is followed wherever it and the design intent could differ:

- The slug pattern accepts an empty digit run after the hyphen, so
  `palace-` matches `palace`.
- The save hook's suffix is a count, not a maximum, so it can repeat a slug
  already taken (see "## Findings"). `Catalog.StoreDocument.PreSave` keeps
  the rule as written. The corrected rule is `Slugs.FreshSlug`, and
  `Slugs.FreshAgreesOnRuns` shows that the two agree on sequential saves of
  one base, starting where nothing matches the base.
- `updateStore` uses `findOneAndUpdate`, and that does not run the save
  hook. Only `save` (`Catalog.StoreDocument.Save`) resolves a slug, so the
  model gives no update path that re-slugs a renamed store.
- On an empty catalogue, `pages` is 0. A page beyond the first then
  redirects to page 0, and page 0 redirects to page 1. This is stated in
  `StoreController.EmptyCatalogRedirectChain`.

## Model

| member | source | states |
|---|---|---|
| Common.Filter | controllers/storeController.js:137 | the result holds exactly those elements of the input that satisfy the condition, and is no longer than the input |
| Common.FilterCounts | controllers/storeController.js:201 | each selected element keeps its number of occurrences and every other element disappears |
| Common.FilterAppend | controllers/storeController.js:201 | filtering a concatenation is the concatenation of the filtered parts |
| Common.FilterKeepsAll | controllers/storeController.js:136-137 | a condition every element meets keeps the collection as it is |
| Common.FirstIndex | controllers/authController.js:33 | `findOne` finds the first element satisfying the condition, and finds nothing only when no element does |
| Ranking.Insert | models/Store.js:75 | inserting into a sorted list adds exactly that one element (the multiset grows by it) |
| Ranking.InsertNonIncreasing | models/Store.js:75 | insertion keeps a descending list descending |
| Ranking.NonIncreasingCons | models/Store.js:75 | a head no smaller than every later key extends a descending list |
| Ranking.SortDesc | models/Store.js:75 | `$sort` descending: the result is non-increasing in the key and is a permutation of the input |
| Ranking.TopK | models/Store.js:93-94 | `$sort` then `$limit k`: descending, exactly min(k, n) elements, none of them more often than in the input |
| Ranking.TopKDominates | models/Store.js:93-94 | an element cut off by the limit ranks no higher than any element kept |
| Slugs.LowerStrAt | models/Store.js:63 | ASCII case folding for the regex's `i` flag lower-cases each character in place |
| Slugs.Matches | models/Store.js:63 | `^(base)((-[0-9]*$)?)$` with the `i` flag: the slug is the base, or the base, a hyphen and zero or more digits, ignoring letter case |
| Slugs.MatchingSlugs | models/Store.js:63-64 | the query returns exactly the committed slugs that match the pattern |
| Slugs.MatchingSlugsCounts | models/Store.js:64 | each matching slug is returned as often as it is committed, and no other slug |
| Slugs.CountMatches | models/Store.js:64-65 | `storesWithSlug.length`, the number of committed slugs that match |
| Slugs.DecimalString | models/Store.js:66 | the decimal suffix is a non-empty run of digits |
| Slugs.DecimalRoundTrip | models/Store.js:66 | reading the suffix back gives the number it was written from |
| Slugs.DecimalInjective | models/Store.js:66 | different numbers give different suffixes |
| Slugs.ResolveSlug | models/Store.js:61-67 | the new slug is the base exactly when no committed slug matches |
| Slugs.ResolvedSlugShape | models/Store.js:63-67 | the new slug matches its own base; when k slugs matched, it is `base-` followed by the digits of k+1 |
| Slugs.MatchesItself | models/Store.js:63 | the base matches its own pattern |
| Slugs.LowerSuffixed | models/Store.js:63 | case folding leaves the hyphen and the digits alone |
| Slugs.SuffixedMatches | models/Store.js:63 | the base, a hyphen and any digits match the pattern |
| Slugs.NthSlugInjective | models/Store.js:66 | the m-th slug of a family determines m |
| Slugs.NthSlugMatches | models/Store.js:63-66 | every numbered slug of a family matches the family's pattern |
| Slugs.ResolvedSlugIsFresh | models/Store.js:62-67 | if the slugs matching the base are exactly `base`, `base-2` … `base-k`, the new slug collides with no committed slug |
| Slugs.SlugCollisionAfterGap | models/Store.js:61-67 | as written: `base` is saved, then a store whose base is `base-3` gets `base-3`, then the next store with the base `base` gets `base-3` again, a collision |
| Slugs.SuffixValueOfSuffixed | models/Store.js:63 | `base-` and the digits of k match the base and carry the number k |
| Slugs.MaxSuffixBound | models/Store.js:62-67 | corrected rule: no committed slug of the family carries a number above the maximum |
| Slugs.MaxSuffixAttained | models/Store.js:62-67 | corrected rule: a nonzero maximum is the number of some committed slug of the family |
| Slugs.MaxSuffixAppend | models/Store.js:62-67 | corrected rule: one more committed slug raises the maximum to its number when that is larger |
| Slugs.FreshSlugIsFresh | models/Store.js:62-67 | corrected rule: the new slug is never a committed one, matches its base, and is the base exactly when nothing matches |
| Slugs.FreshSlug | models/Store.js:62-67 | the corrected suffix rule: the base when nothing matches, otherwise one above the largest number in use; its meaning is stated by `FreshSlugIsFresh` |
| Slugs.FreshSlugAfterGap | models/Store.js:62-67 | corrected rule: on the collision's collection (`base`, `base-3`) the new slug is `base-4` |
| Slugs.NthSuffixValue | models/Store.js:63-66 | the slug numbered m matches its base and carries the number m |
| Slugs.FamilySuffix | models/Store.js:63-66 | a slug of the family up to k carries a number of at most k |
| Slugs.MaxSuffixOfRun | models/Store.js:62-67 | after n sequential saves with a fresh base the largest number in use is n |
| Slugs.FreshAgreesOnRuns | models/Store.js:62-67 | on sequential saves with a fresh base the corrected rule gives the slug the code gives |
| Slugs.SaveMany | models/Store.js:56-69 | n sequential saves append n slugs |
| Slugs.CountAppend | models/Store.js:64-65 | saving one slug raises the match count by one exactly when it matches |
| Slugs.SaveManyNumbers | models/Store.js:62-67 | after n saves with a fresh base there are n matches, and the n-th store got `NthSlug(base, n)` |
| Slugs.SaveStep | models/Store.js:62-67 | after n-1 numbered saves the next appends the slug numbered n, and then n slugs match |
| Slugs.SaveOneMore | models/Store.js:63-67 | with m matching slugs committed, the save produces the slug numbered m+1, after which m+1 slugs match |
| Slugs.SaveManyFamily | models/Store.js:62-67 | after n saves with a fresh base, every matching slug is one of the family `base`, `base-2` … `base-n` |
| Slugs.NoneCommitted | models/Store.js:64-65 | a match count of 0 means no committed slug matches |
| Slugs.SaveManyNumbered | models/Store.js:62-67 | the m-th of n sequential saves gets `base` (m = 1) or `base-m` |
| Slugs.SaveManyUnique | models/Store.js:62-67 | sequential saves of a fresh base give pairwise distinct slugs, none of them committed before |
| Slugs.SaveManyPrefix | models/Store.js:56-69 | later saves never change the slugs of earlier ones |
| Catalog.TrimStart | models/Store.js:8 | the leading white space is removed: a suffix of the input that is empty or starts with a non-space character |
| Catalog.TrimEnd | models/Store.js:8 | the trailing white space is removed: a prefix of the input that is empty or ends with a non-space character |
| Catalog.Trim | models/Store.js:8 | the `trim: true` setter (`String.prototype.trim`): no longer than the input, and neither end of the result is white space |
| Catalog.TrimStartDropsSpace | models/Store.js:8 | what `TrimStart` drops is white space only |
| Catalog.TrimEndDropsSpace | models/Store.js:8 | what `TrimEnd` drops is white space only |
| Catalog.TrimEndKeepsFront | models/Store.js:8 | trimming the end keeps a non-space first character in front |
| Catalog.TrimIdempotent | models/Store.js:8 | trimming a trimmed name changes nothing |
| Catalog.TrimStartAppend | models/Store.js:8 | a character appended to a string that is not all white space survives `TrimStart` |
| Catalog.TrimAppendSpace | models/Store.js:8 | a trailing white space character does not change the trimmed name |
| Catalog.StoreDocument.constructor | models/Store.js:6-11 | a new document holds its name trimmed (`trim: true`), has no slug and counts as having a modified name |
| Catalog.StoreDocument.SetName | models/Store.js:6-11 | the name is stored trimmed; it is marked modified only when the trimmed value differs from the current name; the slug is left alone |
| Catalog.StoreDocument.PreSave | models/Store.js:56-69 | unchanged name: slug untouched; changed name: slug becomes `ResolveSlug(slugify(name), committed)` |
| Catalog.StoreDocument.Save | models/Store.js:56-69 | the hook runs and the document is then no longer modified |
| Catalog.SameBaseScenario | models/Store.js:8-67 | two stores whose trimmed names give the same base, saved one after the other, get `base` and `base-2`; re-assigning the first its name, or its name with a trailing space, and saving keeps `base` |
| Catalog.ReviewsOf | models/Store.js:98-103 | the relation holds every review whose `store` is this store (with multiplicity) and no other |
| Catalog.Unwind | models/Store.js:73 | `$unwind` yields each tag as often as it occurs over all stores, duplicates within a store included |
| Catalog.Distinct | models/Store.js:74 | the group keys are the tags that occur, each exactly once |
| Catalog.Group | models/Store.js:74 | `$group` with `$sum: 1`: one entry per distinct tag, whose count is the tag's number of occurrences |
| Catalog.TagsList | models/Store.js:71-77 | `getTagsList`: `$unwind`, `$group` and `$sort` composed; what it returns is stated by the four lemmas that follow |
| Catalog.TagsListOrdered | models/Store.js:75 | the counts never increase along the list |
| Catalog.TagsListCounts | models/Store.js:73-74 | every listed count equals the tag's occurrences and is positive |
| Catalog.ListsPermutation | models/Store.js:75 | sorting does not lose any listed tag |
| Catalog.TagsListComplete | models/Store.js:71-76 | a tag is listed exactly when some store carries it |
| Catalog.TagsListDistinct | models/Store.js:74-75 | no tag is listed twice |
| Catalog.TwoIndicesCountTwice | models/Store.js:74 | an element at two positions occurs at least twice |
| Catalog.DistinctKeysOnce | models/Store.js:74 | in a list with distinct keys each entry occurs once |
| Catalog.Average | models/Store.js:90-92 | `$avg` of the ratings: their sum over their number |
| Catalog.Qualifies | models/Store.js:89 | `reviewDetails.1` exists: at least two reviews refer to the store |
| Catalog.Ranked | models/Store.js:90-92 | the `$addFields` stage for one store: the store itself, its at least two reviews, and the `$avg` of their ratings |
| Catalog.Joined | models/Store.js:82-92 | `$lookup`, `$match` and `$addFields` store by store; stated by the next two lemmas |
| Catalog.JoinedSound | models/Store.js:82-92 | every joined entry is a store of the collection with two or more reviews, its own reviews and their average |
| Catalog.JoinedComplete | models/Store.js:82-89 | every store with two or more reviews is joined |
| Catalog.TopStores | models/Store.js:79-96 | `getTopStores`: the joined stores ranked by average, first ten; stated by the three lemmas that follow |
| Catalog.TopStoresQualify | models/Store.js:79-94 | every top store has at least two reviews, all of them its own |
| Catalog.TopStoresOrdered | models/Store.js:93-94 | the averages never increase, and there are at most ten entries |
| Catalog.TopStoresDominate | models/Store.js:93-94 | a qualifying store left out ranks no higher than any store kept |
| Catalog.TopStoresExample | models/Store.js:79-96 | with ratings 3 and 5 for one store and a single review for another, the result is the first store alone with average 4 (its steps: `$lookup` finds two reviews and one, the ratings sum to 8, `$match` drops the second store, the join keeps the first alone) |
| Catalog.JoinedSingle | models/Store.js:89 | a single store drops out of the join exactly when it has fewer than two reviews |
| StoreController.PageNumber | controllers/storeController.js:74 | `req.params.page || 1`: a missing page is page 1 |
| StoreController.Skip | controllers/storeController.js:80 | `(page * limit) - limit` stores are skipped |
| StoreController.NewestFirst | controllers/storeController.js:82 | `sort({ created: 'desc' })`: the same stores with the same multiplicity, creation times never increasing |
| StoreController.PageCount | controllers/storeController.js:86 | `Math.ceil(count / 4)`: the least page count whose pages hold every store |
| StoreController.GetStores | controllers/storeController.js:73-94 | redirect to page 1 exactly for a non-numeric page or a page below 1 |
| StoreController.PageContents | controllers/storeController.js:79-82 | a rendered page is the slice from (page-1)*4 of the newest-first order, at most four stores, with the total count and `ceil(count/4)` pages |
| StoreController.Window | controllers/storeController.js:80-82 | `skip(s).limit(4)`: at most four elements, those from position s on |
| StoreController.RedirectBeyondLastPage | controllers/storeController.js:88-92 | a valid page redirects to the last page exactly when its slice is empty and it is not page 1 |
| StoreController.LastPageRenders | controllers/storeController.js:86-93 | in a non-empty catalogue the last page renders |
| StoreController.EmptyCatalogRedirectChain | controllers/storeController.js:86-92 | in an empty catalogue a page above 1 redirects to page 0, which redirects to page 1 |
| StoreController.TenStores | controllers/storeController.js:79-93 | ten stores: three pages, four on page 1, two on page 3, and page 4 redirects to page 3 |
| StoreController.ConfirmOwner | controllers/storeController.js:97-101 | passes exactly when the user is the author; otherwise fails with the ownership message |
| StoreController.StoresByTag | controllers/storeController.js:134-137 | with a tag: exactly the stores carrying it, with multiplicity; without one: every store |
| StoreController.TagSelects | controllers/storeController.js:136-137 | the query `tags: tag`, falling back to `{ $exists: true }`: a missing or empty tag selects every store, otherwise the stores whose tags contain it |
| StoreController.HeartOperator | controllers/storeController.js:197-198 | `$pull` exactly when the store id is already a favourite |
| StoreController.ApplyHeart | controllers/storeController.js:198-201 | `{ [operator]: { hearts: id } }`: the id is present afterwards exactly for `$addToSet`, and no other id changes |
| StoreController.Pull | controllers/storeController.js:201 | `$pull` removes every occurrence of the id and changes no other id |
| StoreController.AddToSet | controllers/storeController.js:201 | `$addToSet` leaves the id present exactly once if it was absent, and changes no other id |
| StoreController.Toggle | controllers/storeController.js:196-203 | one heart flips whether the store is a favourite |
| StoreController.ToggleEffect | controllers/storeController.js:198-201 | a present id is removed entirely; an absent one is appended once at the end; other ids keep their counts |
| StoreController.ToggleTwiceRestores | controllers/storeController.js:196-203 | hearting twice from a list without the id gives the original list back |
| StoreController.ToggleTimes | controllers/storeController.js:196-203 | after n hearts the store is a favourite exactly when it was one and n is even, or was not and n is odd |
| StoreController.User.constructor | controllers/storeController.js:197 | a user with the given favourites |
| StoreController.User.HeartStore | controllers/storeController.js:196-203 | chooses the operator from the stored list and replaces the list with its toggle |
| StoreController.FileFilter | controllers/storeController.js:11-18 | accepts exactly the mimetypes starting with `image/`; otherwise fails with the filetype message |
| StoreController.Split | controllers/storeController.js:33 | `split('/')` gives at least one part, none containing the separator |
| StoreController.SplitJoin | controllers/storeController.js:33 | joining the parts with the separator gives the string back |
| StoreController.SplitFirst | controllers/storeController.js:33 | the first part is the longest separator-free prefix |
| StoreController.SplitAfterPrefix | controllers/storeController.js:33 | a separator-free prefix followed by the separator is split off as the first part |
| StoreController.SplitWithoutSeparator | controllers/storeController.js:33 | a string without the separator is a single part |
| StoreController.Extension | controllers/storeController.js:33 | `mimetype.split('/')[1]`: the second part, `undefined` when there is none; never contains `/` |
| StoreController.PhotoFilename | controllers/storeController.js:34 | the template `${uuid}.${extension}` |
| StoreController.AcceptedExtension | controllers/storeController.js:12-33 | for an accepted upload the extension is the subtype after `image/`, up to the next `/` or the end |
| StoreController.SubtypeFilename | controllers/storeController.js:33-34 | an `image/<subtype>` upload is named `<uuid>.<subtype>` |
| StoreController.StoreForm.constructor | controllers/storeController.js:111-113 | a submitted form with the given location and photo |
| StoreController.StoreForm.ForcePointType | controllers/storeController.js:111-113 | with a location the type becomes `"Point"` and nothing else changes; without one the handler fails |
| StoreController.StoreForm.Resize | controllers/storeController.js:25-34 | no file: the photo field is untouched; otherwise it becomes `<uuid>.<extension>` |
| TypeAhead.ActiveIndex | public/javascripts/modules/typeAhead.js:50 | `current` is the first active item, or none exactly when no item is active |
| TypeAhead.Target | public/javascripts/modules/typeAhead.js:53-60 | Down goes to (i+1) mod n and Up to (i-1) mod n; with nothing active, Down goes to 0 and Up to n-1; there is no target exactly when the list is empty |
| TypeAhead.Or | public/javascripts/modules/typeAhead.js:54-58 | JavaScript's `or` on two possibly missing elements: the first when it exists, otherwise the second |
| TypeAhead.NextSibling | public/javascripts/modules/typeAhead.js:54 | `nextElementSibling`: the following item, missing after the last |
| TypeAhead.PreviousSibling | public/javascripts/modules/typeAhead.js:58 | `previousElementSibling`: the preceding item, missing before the first |
| TypeAhead.ItemAt | public/javascripts/modules/typeAhead.js:54-58 | `items[k]`: the item at k, `undefined` outside the list (so `items[-1]` on an empty list) |
| TypeAhead.SiblingsFollowTarget | public/javascripts/modules/typeAhead.js:53-60 | the sibling-or-first and sibling-or-last walk of the handler reaches exactly the cyclic target |
| TypeAhead.Deactivate | public/javascripts/modules/typeAhead.js:66-68 | only `current` loses the active class; links are unchanged |
| TypeAhead.Press | public/javascripts/modules/typeAhead.js:44-70 | a keyup never changes the links |
| TypeAhead.PressCases | public/javascripts/modules/typeAhead.js:46-63 | other keys change nothing; Enter with nothing active fails; Enter on a linked item navigates and leaves the list alone; Enter on the linkless "No results" item removes its class and then fails; an arrow on an empty list fails; only an arrow on a non-empty list moves the class |
| TypeAhead.ArrowSelectsTarget | public/javascripts/modules/typeAhead.js:53-69 | after an arrow the target item is active, and with at most one active before, it is the only active one |
| TypeAhead.PressKeepsAtMostOne | public/javascripts/modules/typeAhead.js:66-69 | no keyup makes two items active |
| TypeAhead.SelectedIsActive | public/javascripts/modules/typeAhead.js:50 | when exactly one item is active, `current` is that item |
| TypeAhead.SelectionDetermines | public/javascripts/modules/typeAhead.js:51 | same links and same active item mean the same list |
| TypeAhead.DownThenUpRestores | public/javascripts/modules/typeAhead.js:53-58 | Down then Up gives the original list back |
| TypeAhead.UpThenDownRestores | public/javascripts/modules/typeAhead.js:53-58 | Up then Down gives the original list back |
| TypeAhead.DownAdvances | public/javascripts/modules/typeAhead.js:53-54 | one Down moves a single selection to the next item, or from the last to the first |
| TypeAhead.IterateAdd | public/javascripts/modules/typeAhead.js:44 | a presses followed by b presses are a+b presses |
| TypeAhead.StepsForward | public/javascripts/modules/typeAhead.js:53-54 | m forward steps from item i, short of the end, select item i+m |
| TypeAhead.StepsWrap | public/javascripts/modules/typeAhead.js:53-54 | stepping past the last item selects the first |
| TypeAhead.StepsCycle | public/javascripts/modules/typeAhead.js:53-54 | n forward steps over n items give the original list |
| TypeAhead.DownsCycle | public/javascripts/modules/typeAhead.js:53-54 | n presses of Down over n results give the original list back |
| TypeAhead.EnterList | public/javascripts/modules/typeAhead.js:55-60 | with nothing active, Down selects only the first item and Up only the last |
| TypeAhead.Links | public/javascripts/modules/typeAhead.js:8 | one inactive item per hit, in order, linking to `/stores/<slug>` |
| TypeAhead.SearchBox.constructor | public/javascripts/modules/typeAhead.js:18-19 | an empty results box with no active item |
| TypeAhead.SearchBox.OnInput | public/javascripts/modules/typeAhead.js:21-28 | an empty value hides the box and changes nothing else; otherwise the box is shown and emptied |
| TypeAhead.SearchBox.ShowResults | public/javascripts/modules/typeAhead.js:31-37 | hits become links; no hits become the single "No results" item without a link |
| TypeAhead.SearchBox.OnKeyUp | public/javascripts/modules/typeAhead.js:44-70 | the handler's sibling-or-wrap steps do exactly what `Press` states, keep at most one item active, and only a navigation changes the location |
| TypeAhead.Anchor | public/javascripts/modules/typeAhead.js:7-11 | one hit's anchor: the template pieces around its slug and its name |
| TypeAhead.Render | public/javascripts/modules/typeAhead.js:6-12 | `map` of the hits to anchors, then `join('')`; read back by `ParseRender` |
| TypeAhead.ResultsHtml | public/javascripts/modules/typeAhead.js:5-13 | the HTML is empty exactly when there are no hits |
| TypeAhead.Span | public/javascripts/modules/typeAhead.js:8-9 | the longest prefix free of the delimiter, stopped by the delimiter |
| TypeAhead.SpanOf | public/javascripts/modules/typeAhead.js:8-9 | a delimiter-free value followed by the delimiter is read back whole |
| TypeAhead.AnchorPieces | public/javascripts/modules/typeAhead.js:7-11 | an anchor followed by more HTML is the template pieces around the slug and the name |
| TypeAhead.AnchorCuts | public/javascripts/modules/typeAhead.js:7-11 | in one anchor of a plain hit the slug ends at the template's `"`, the name at its `<`, and the rest follows the closing piece |
| TypeAhead.ParseAnchor | public/javascripts/modules/typeAhead.js:7-11 | one anchor of a hit with no `"` in its slug and no `<` in its name reads back as that hit |
| TypeAhead.ParseRender | public/javascripts/modules/typeAhead.js:5-13 | for any delimited template, the rendered hits parse back to the same hits, one anchor each, in order |
| TypeAhead.ResultsHtmlReadsBack | public/javascripts/modules/typeAhead.js:5-13 | for plain hits (no `"` in a slug, no `<` in a name), the search results HTML holds exactly one anchor per hit, in input order, with its slug and name |
| Auth.IsLoggedIn | controllers/authController.js:21-28 | goes on exactly for an authenticated request; otherwise redirects to `/login` |
| Auth.ConfirmedPasswords | controllers/authController.js:69-75 | goes on exactly when the two fields are strictly equal; otherwise redirects back |
| Auth.TokenValid | controllers/authController.js:56-59 | the token matches and `resetPasswordExpires` is strictly later than now (`$gt`) |
| Auth.FindByEmail | controllers/authController.js:33 | the first user with that email, or none exactly when no user has it |
| Auth.FindByToken | controllers/authController.js:56-59 | the first user whose token matches and has not expired, or none exactly when no user holds it |
| Auth.Issue | controllers/authController.js:39-40 | the expiry is exactly now + 3600000; email and password are unchanged |
| Auth.IssuedTokenWindow | controllers/authController.js:40-58 | an issued token validates at t exactly when t < now + 3600000 |
| Auth.ReissueRetires | controllers/authController.js:39-40 | a new token makes the user's previous token invalid |
| Auth.Reset | controllers/authController.js:88-93 | the password is set and both reset fields are cleared |
| Auth.ResetRetiresEveryToken | controllers/authController.js:92-93 | after the reset no token validates for that user at any time |
| Auth.ResetUrl | controllers/authController.js:43 | `http://<host>/account/reset/<token>` |
| Auth.RunForgotAsWritten | controllers/authController.js:31-52 | as written: always redirects to `/login`; throws exactly for an unknown email, and then no user has changed; mails a link exactly for a known one |
| Auth.RunForgot | controllers/authController.js:31-52 | the corrected handler always redirects to `/login`, never throws, and keeps the number of users |
| Auth.ForgotAsWrittenThrows | controllers/authController.js:33-39 | as written, an unknown email redirects and then throws, with no user changed and no link mailed |
| Auth.ForgotAsWrittenThrowsOnEmpty | controllers/authController.js:33-39 | for example, with no user registered at all |
| Auth.ForgotUnknownEmail | controllers/authController.js:33-37 | corrected: the users are unchanged and no link is sent exactly for an unknown email; for a known email it agrees with the code as written |
| Auth.ForgotIssues | controllers/authController.js:38-51 | a known email: the first matching user gets the token for one hour, no other user changes, and the link ends in the token |
| Auth.ResetPageFor | controllers/authController.js:55-66 | the form is shown exactly when some user holds the token unexpired |
| Auth.UpdateUsers | controllers/authController.js:79-94 | an invalid or expired token changes no user, and the collection keeps its size |
| Auth.UpdateEffect | controllers/authController.js:88-94 | success changes exactly the token holder: new password, and no token validates for them again |
| Auth.ResetAgreesWithUpdate | controllers/authController.js:56-59 | `reset` shows the form exactly when `update` would accept the token |
| Auth.ForgotThenReset | controllers/authController.js:39-65 | the mailed token opens the reset form until the hour is over, and from then on no longer validates for the user it was mailed to |
| Auth.Accounts.constructor | controllers/authController.js:3 | the accounts hold the given users |
| Auth.Accounts.Forgot | controllers/authController.js:31-52 | the stored users and the mailed link are those of the corrected `RunForgot` |
| Auth.Accounts.Update | controllers/authController.js:78-100 | the users become `UpdateUsers`; refused exactly when no user holds the token unexpired |

## Left out

- The `slug` library's transliteration and normalisation is not modelled. It is a foreign call, passed in as the function `slugify`.
- Slugs.Matches: the base is treated as literal text. The code builds a regular expression from it, so regex metacharacters in the base would behave differently.
- Slugs.LowerStrAt: case folding covers ASCII letters only, not the full Unicode case-insensitive match of the `i` flag.
- Concurrency is left out: `Promise.all` and the race between the slug query and the save. Saves are modelled as sequential against a given snapshot of committed slugs.
- The database does not define an order among equal sort keys. The model fixes the input order, so every ordering lemma holds for any tie order, but the exact sequence among ties is the model's choice.
- `searchStores` (`$text` relevance scoring) and `mapStores` (`$near` spherical distance) are left out. Their results are computed by the database engine.
- Image decoding and resizing (jimp), multer buffering and uuid generation are left out. The uuid is a parameter.
- Rendering, flash messages, the mail sent by `forgot`, passport's password hashing (`setPassword`) and the login session (`req.login`) are left out. The model stores the new password as given.
- StoreController.PageNumber: fractional or exponent page numbers are not modelled, only missing, non-numeric and integer values.
- TypeAhead.SearchBox.OnInput: the search request itself and the `dompurify` sanitising are left out. `ShowResults` is the response handler applied to the hits, and the text of the "No results" message is not kept.
- TypeAhead.Links: an anchor's `href` property gives an absolute URL, but the model keeps the path it was written with.
- TypeAhead.ParseRender: the round trip needs slugs without `"` and names without `<`. The template does not escape those characters.
- TypeAhead.ResultsHtmlReadsBack: stated for plain hits only, for the same reason as `TypeAhead.ParseRender`: the unescaped template cannot carry `"` in a slug or `<` in a name.
- Catalog.Average: `$avg` computes a double. The model uses an exact `real` mean of integer ratings, so floating-point rounding and non-integer ratings are not modelled.
- StoreController.StoresByTag: without a tag the query is `tags: { $exists: true }`. The model takes every store to have a `tags` field (the schema gives every document an array, empty by default), so every store is selected.
- `Catalog.StoreDocument` models a document and its save hook. The write to the database and the other schema hooks (`autopopulate`, the indexes) are left out.
- Catalog.StoreDocument.SetName: only the name and the slug of a document are modelled. The `required` validators and the `trim` of `description` are left out, because they do not bear on the slug.
- `public/javascripts/modules/map.js`, `autocomplete.js`, `handlers/passport.js`, `controllers/userController.js` and `login`/`logout` are not part of this model. They are library wiring and UI.

## Findings

| source | as written | input that shows it | evidently intended | confidence | as-written member | corrected member |
|---|---|---|---|---|---|---|
| models/Store.js:62-67 | the suffix is the number of matching slugs plus one, which is guaranteed fresh only when the matches are exactly base, base-2 … base-k; a store whose own base is a suffixed slug breaks that | save a store with the base `palace`, then one whose name gives the base `palace-3`, then another with the base `palace`: the last gets `palace-3` a second time | every new slug differs from the committed ones | not executed | Slugs.SlugCollisionAfterGap | Slugs.FreshSlugIsFresh |
| controllers/authController.js:34-39 | after the redirect for an unregistered email the handler has no `return`, so it goes on to assign `resetPasswordToken` on `null` and throws a TypeError after the response was sent | any email no user has, for instance `nobody@example.com` with no users at all | stop after the redirect; change no user and mail nothing | not executed | Auth.ForgotAsWrittenThrows | Auth.ForgotUnknownEmail |
