# XKCD comic synchronisation, modelled in Dafny

The XKCD iOS app keeps a local Realm table of comics, one `XKCD` row per comic
number, and a folder of comic images on disk. `ComicFetcher` fills both from the
xkcd JSON API:

- it catches up forward from the newest stored comic until a number fails;
- it pages backward in blocks that end at the oldest stored comic, which is requested again;
- it upserts the comics a page or the forward catch-up collects as fresh rows; as written, `refreshComics` drops those of the forward catch-up (see Findings).

`FeedSectionProxy` shows the table newest first. When the fifth item from the end
comes into view, it asks the fetcher for another page.

The model has these modules:

- `Xkcd`: the row record, its defaults, its primary key and the table type.
- `Decimal`: the integer rendering and parsing that file names and date components go through.
- `ImageStorage`: a class over the image folder's contents.
- `ComicTable`: the "sorted by number, descending" query.
- `ComicFetcher`: the engine as a class over the table, with specification functions for every outcome.
- `FetcherProperties`: lemmas relating the operations.
- `FeedSectionProxy`: the feed section as a class.

The network is the `ComicFetcher.Remote` value: what the metadata request for each
number and the image request for each URL deliver. Concurrent requests complete in
an order the caller supplies:

- `completed` is the order of the fan-out of a page;
- `forwardLast` says whether the forward chain finishes after the page.

The forward recursion terminates because the caller names a failing number `stop`
at or above its start. `stop` is a ghost parameter that only bounds the recursion,
and `FetcherProperties.UpToNewestStopIrrelevant` shows the result does not depend
on which `stop` is chosen.

## Model

| member | source | states |
|---|---|---|
| Xkcd.New | XKCD/Models/XKCD.swift:19-30 | a fresh record has number 0, empty title and caption, zero image sizes, `isSaved` false and the current date |
| Xkcd.OneRowPerNumber | XKCD/Models/XKCD.swift:32-34 | with `number` as primary key, two rows with the same number are the same row |
| Decimal.RenderRoundTrip | XKCD/Handlers/ImageStorage.swift:23 | parsing the decimal text `"\(n)"` gives back `n`, negative numbers included |
| Decimal.ParseIntRoundTrip | XKCD/Handlers/ComicFetcher.swift:91-93 | `Int("\(n)") == n` for every 64-bit `n` |
| Decimal.ParseIntAcceptsIntegerText | XKCD/Handlers/ComicFetcher.swift:91-93 | `Int(s)` yields a value exactly for an optional sign followed by one or more digits whose value fits in 64 bits, and that value is the one the text denotes |
| Decimal.ParseIntAcceptsExamples | XKCD/Handlers/ComicFetcher.swift:91-93 | `Int` reads `"2020"`, `"+007"` and `"-12"` as 2020, 7 and -12 |
| Decimal.ParseIntRejectsExamples | XKCD/Handlers/ComicFetcher.swift:91-93 | `Int` yields nil for an empty text, a lone sign and stray characters |
| Decimal.RenderInjective | XKCD/Handlers/ImageStorage.swift:23 | distinct numbers render as distinct strings |
| ImageStorage.FileName | XKCD/Handlers/ImageStorage.swift:23 | comic `n`'s file name ends in `.jpeg` and what precedes the extension parses back to `n` |
| ImageStorage.FileNameInjective | XKCD/Handlers/ImageStorage.swift:23 | distinct comic numbers never share a file |
| ImageStorage.PathOf | XKCD/Handlers/ImageStorage.swift:23 | the image path is the directory followed by the comic's file name |
| ImageStorage.SaveReplacesOnlyItsOwn | XKCD/Handlers/ImageStorage.swift:22-25 | writing comic `n`'s file replaces its blob and leaves every other comic's blob unchanged |
| ImageStorage.ImageStorage.constructor | XKCD/Handlers/ImageStorage.swift:13-20 | the directory is the `comics` folder inside the documents directory |
| ImageStorage.ImageStorage.Save | XKCD/Handlers/ImageStorage.swift:22-25 | the folder gains or overwrites exactly comic `number`'s file with the given bytes |
| ImageStorage.ImageStorage.GetImage | XKCD/Handlers/ImageStorage.swift:27-49 | the image is read from `PathOf(directory, number)`, the path `Save` writes, and is found exactly when that file exists |
| ImageStorage.SaveThenGet | XKCD/Handlers/ImageStorage.swift:22-49 | loading a comic right after saving it yields exactly the saved bytes |
| ComicTable.Max | XKCD/Handlers/ComicFetcher.swift:209-215 | the largest element of a non-empty set belongs to it and bounds every element |
| ComicTable.SortedDescending | XKCD/Proxy/Feed/FeedSectionProxy.swift:14-16 | lists exactly the elements of a set, each once, strictly decreasing |
| ComicTable.ByNumberDescending | XKCD/Proxy/Feed/FeedSectionProxy.swift:14-16 | the query has one row per stored comic, taken from the table in descending key order |
| ComicTable.ByNumberDescendingRows | XKCD/Proxy/Feed/FeedSectionProxy.swift:14-16 | every row of the sorted query is the table's row under its own number |
| ComicTable.ByNumberDescendingCovers | XKCD/Proxy/Feed/FeedSectionProxy.swift:14-16 | every stored number appears in the sorted query |
| ComicTable.ByNumberDescendingSorted | XKCD/Proxy/Feed/FeedSectionProxy.swift:14-16 | the sorted query is strictly decreasing in `number` |
| ComicTable.RowsBeforeAreLarger | XKCD/Proxy/Feed/FeedSectionProxy.swift:71-77 | every row before position `i` is stored and has a larger number than row `i` |
| ComicTable.LargerNumbersComeBefore | XKCD/Proxy/Feed/FeedSectionProxy.swift:71-77 | every stored number larger than row `i`'s sits at a position before `i` |
| ComicFetcher.FromJson | XKCD/Handlers/ComicFetcher.swift:54-69 | a decoded model carries the JSON's number and image URL, and its size is zero until the image arrives |
| ComicFetcher.SuccessesMembers | XKCD/Handlers/ComicFetcher.swift:131-155 | a fan-out collects only results of requested numbers, and collects every successful one |
| ComicFetcher.SuccessesPermutation | XKCD/Handlers/ComicFetcher.swift:131-155 | the comics collected by a fan-out are the same multiset whatever order its requests complete in |
| ComicFetcher.ConsecutiveMembers | XKCD/Handlers/ComicFetcher.swift:126 | a run of consecutive numbers holds exactly the numbers in its half-open range |
| ComicFetcher.UpToNewestChain | XKCD/Handlers/ComicFetcher.swift:106-117 | the forward chain holds the comics of `from, from+1, …` in increasing order, and the number right after it fails, so the chain is empty when `from` fails |
| ComicFetcher.MostRecentIsLargest | XKCD/Handlers/ComicFetcher.swift:209-215 | `mostRecentComicNumber` is the largest stored number, or 2278 when the table is empty |
| ComicFetcher.LeastRecentIsSmallest | XKCD/Handlers/ComicFetcher.swift:217-223 | `leastRecentComicNumber` is the smallest stored number, or 2278 when the table is empty |
| ComicFetcher.PageNumbersRange | XKCD/Handlers/ComicFetcher.swift:126 | for least number `L`, the page is the increasing closed range `max(0, L-15) ... L`, holding `min(L,15)+1` numbers and including `L` |
| ComicFetcher.OlderPageNumbersRange | XKCD/Handlers/ComicFetcher.swift:119-126 | the corrected page is the increasing range of the up to 15 numbers below `L`, and excludes `L` |
| ComicFetcher.SuccessesAppend | XKCD/Handlers/ComicFetcher.swift:131-155 | collecting from two request lists in turn equals collecting from their concatenation |
| ComicFetcher.SuccessesRemove | XKCD/Handlers/ComicFetcher.swift:131-155 | removing one request from a fan-out removes exactly its own result, if any |
| ComicFetcher.AfterFetchesAppend | XKCD/Handlers/ComicFetcher.swift:131-155 | the image writes of two request lists in turn equal those of their concatenation |
| ComicFetcher.UpsertedKeyedByNumber | XKCD/Handlers/ComicFetcher.swift:79-100 | upserting rows keeps every row under its own number, the primary-key invariant |
| ComicFetcher.ComicFetcher.constructor | XKCD/Handlers/ComicFetcher.swift:12 | the fetcher works on the given table and image storage |
| ComicFetcher.ComicFetcher.Store | XKCD/Handlers/ComicFetcher.swift:79-100 | the loop writes the upsert of a fresh row per comic in batch order, and the table stays keyed by number |
| ComicFetcher.ComicFetcher.FetchImage | XKCD/Handlers/ComicFetcher.swift:194-204 | a missing image fails with `notFound`; otherwise the PNG is saved under the comic's number before the size is reported |
| ComicFetcher.ComicFetcher.FetchComic | XKCD/Handlers/ComicFetcher.swift:162-191 | no data gives `networkIssue`, undecodable data gives `notFound`, and an image failure gives `imageMissing`; success carries the image size, and the image is written only then |
| ComicFetcher.ComicFetcher.FetchUpToNewest | XKCD/Handlers/ComicFetcher.swift:106-117 | the result is the accumulator followed by the forward chain; the image folder is what fetching each number tried, up to and including the failing one, leaves in order |
| ComicFetcher.ComicFetcher.FetchComics | XKCD/Handlers/ComicFetcher.swift:131-155 | the result is the successes in completion order, which is a permutation of the successes of the requested numbers, and every completed fetch's image writes happen |
| ComicFetcher.ComicFetcher.FetchNextPage | XKCD/Handlers/ComicFetcher.swift:120-128 | a least recent number ≤ 0 completes with nothing and no request; otherwise the result is the successes of the closed page range |
| ComicFetcher.ComicFetcher.FetchMoreComics | XKCD/Handlers/ComicFetcher.swift:44-48 | the table becomes the upsert of the next page's results, and the image folder holds the page's writes in completion order, untouched when no page is requested |
| ComicFetcher.ComicFetcher.RefreshComics | XKCD/Handlers/ComicFetcher.swift:17-41 | as written, the stored batch is the backward page (doubled when the forward completion runs last); with 15 or more stored comics there is no page and the table is unchanged; the image folder holds the forward chain's writes, then the page's |
| ComicFetcher.ComicFetcher.RefreshComicsIntended | XKCD/Handlers/ComicFetcher.swift:17-41 | corrected: the stored batch is the forward chain and the page, in completion order; the image folder holds the forward chain's writes, then the page's |
| FetcherProperties.NumbersOfMembers | XKCD/Handlers/ComicFetcher.swift:79-100 | the numbers of a batch are exactly those of its entries |
| FetcherProperties.LastIndexWith | XKCD/Handlers/ComicFetcher.swift:82-97 | finds the last batch entry carrying a given number |
| FetcherProperties.UpsertedAppend | XKCD/Handlers/ComicFetcher.swift:79-100 | storing two batches in turn equals storing their concatenation |
| FetcherProperties.UpsertedKeys | XKCD/Handlers/ComicFetcher.swift:79-100 | after `store`, the stored numbers are the old ones plus the batch's numbers, each with one row |
| FetcherProperties.UpsertedRow | XKCD/Handlers/ComicFetcher.swift:79-100 | a batch number's row is built from its last batch entry; rows of numbers outside the batch are unchanged |
| FetcherProperties.UpsertedIdempotent | XKCD/Handlers/ComicFetcher.swift:79-100 | storing the same batch twice equals storing it once |
| FetcherProperties.UpsertedRowsUnsaved | XKCD/Handlers/ComicFetcher.swift:83-97 | every row `store` writes has `isSaved` false, whatever was stored before |
| FetcherProperties.SavedImageIffSuccess | XKCD/Handlers/ComicFetcher.swift:162-204 | `fetchComic` writes an image exactly when it succeeds, under the reported comic's number, and with an honest API that is the requested number |
| FetcherProperties.AfterFetchesGrows | XKCD/Handlers/ComicFetcher.swift:194-204 | fetching never deletes image files |
| FetcherProperties.EveryCollectedComicHasImage | XKCD/Handlers/ComicFetcher.swift:131-204 | every comic a fan-out collects has its image file on disk |
| FetcherProperties.UpToNewestStopIrrelevant | XKCD/Handlers/ComicFetcher.swift:106-117 | the forward chain does not depend on which failing bound is chosen |
| FetcherProperties.FreshComicsAreNew | XKCD/Handlers/ComicFetcher.swift:106-117 | with an honest API, the forward chain from `mostRecent+1` holds consecutive numbers, none of them already stored |
| FetcherProperties.HonestFanOutRow | XKCD/Handlers/ComicFetcher.swift:131-155 | a number gets a row from a stored fan-out iff it was requested and fetched successfully, and then the row is built from its fetch |
| FetcherProperties.StoreIgnoresCompletionOrder | XKCD/Handlers/ComicFetcher.swift:131-155 | with an honest API, the table after storing a fan-out is the same for every completion order |
| FetcherProperties.RefreshStoresPageOnly | XKCD/Handlers/ComicFetcher.swift:23-24 | as written, the refresh stores the same table as storing the page alone |
| FetcherProperties.AfterChainGrows | XKCD/Handlers/ComicFetcher.swift:106-117 | the forward chain never deletes image files |
| FetcherProperties.ChainWritesFirstImage | XKCD/Handlers/ComicFetcher.swift:106-117 | with an honest API, a forward chain whose first fetch succeeds leaves that comic's image file on disk |
| FetcherProperties.AfterPageGrows | XKCD/Handlers/ComicFetcher.swift:119-129 | fetching a page never deletes image files |
| FetcherProperties.RefreshWritesNewImage | XKCD/Handlers/ComicFetcher.swift:17-41 | with an honest API and comic `mostRecent+1` published, a refresh leaves that comic's image file on disk, whether or not it also pages |
| FetcherProperties.PageMissesNewComic | XKCD/Handlers/ComicFetcher.swift:25-29 | every comic the refresh's page collects has a number no larger than the oldest stored one, which is no larger than the newest |
| FetcherProperties.RefreshSavesImageWithoutRow | XKCD/Handlers/ComicFetcher.swift:23-24 | for any number of stored comics, with comic `mostRecent+1` published, the refresh as written writes that comic's image but stores no row for it |
| FetcherProperties.RefreshMissesNewComic | XKCD/Handlers/ComicFetcher.swift:23-29 | for any number of stored comics, with comic `mostRecent+1` published, the refresh as written does not store it, whatever the page brings; the corrected refresh does |
| FetcherProperties.IntendedRefreshStoresAll | XKCD/Handlers/ComicFetcher.swift:17-41 | the corrected refresh stores a row for every forward and every page comic |
| FetcherProperties.PageResetsOldestSaved | XKCD/Handlers/ComicFetcher.swift:126 | the page as written refetches the oldest stored comic and resets its `isSaved` flag to false |
| FetcherProperties.OlderPageKeepsStoredRows | XKCD/Handlers/ComicFetcher.swift:119-126 | the corrected page leaves every stored row unchanged |
| FeedSectionProxy.PrefetchItem | XKCD/Proxy/Feed/FeedSectionProxy.swift:79-83 | exactly one item, `count - 5`, triggers the prefetch when count ≥ 5, and none does otherwise |
| FeedSectionProxy.FeedSectionProxy.constructor | XKCD/Proxy/Feed/FeedSectionProxy.swift:21-36 | a new section is detached, at section 0, and observing the sorted comics |
| FeedSectionProxy.FeedSectionProxy.OnChange | XKCD/Proxy/Feed/FeedSectionProxy.swift:36-49 | an initial notification reloads the section and an update batch-updates it, both at the index `didMove` recorded; an error redraws nothing; the registered cells stay as they are |
| FeedSectionProxy.FeedSectionProxy.DidMove | XKCD/Proxy/Feed/FeedSectionProxy.swift:52-58 | records the view, the parent and the section index, and registers the feed cell |
| FeedSectionProxy.FeedSectionProxy.Deinit | XKCD/Proxy/Feed/FeedSectionProxy.swift:60-62 | invalidates the notification token and nothing else |
| FeedSectionProxy.FeedSectionProxy.NumberOfItemsInSection | XKCD/Proxy/Feed/FeedSectionProxy.swift:67-69 | the item count is the number of stored comics |
| FeedSectionProxy.FeedSectionProxy.CellForItemAt | XKCD/Proxy/Feed/FeedSectionProxy.swift:71-77 | item `i` shows a stored row with exactly `i` stored comics numbered above it, the (i+1)-th largest |
| FeedSectionProxy.FeedSectionProxy.WillDisplay | XKCD/Proxy/Feed/FeedSectionProxy.swift:79-83 | displaying item `count - 5` stores the next page and writes its images; any other item changes neither the table nor the images |

## Left out

- Network and JSON decoding: `URLSession` and `JSONDecoder` are replaced by the `Remote` value. URL construction and its force-unwraps are not modelled; an image URL is its string.
- Concurrency: `DispatchGroup` joins and callback queues are not modelled. A fan-out is modelled as its requests finishing one after another, in the `completed` order. The join of `refreshComics` is the `forwardLast` flag.
- Image writes in `refreshComics`: the forward chain's writes are modelled before the page's. In the app the two interleave, but no two requests write the same number unless the API repeats a number.
- The unsynchronised appends to `results` from concurrent callbacks are not modelled as a data race; each append is atomic in the model.
- 64-bit `Int`: comic numbers are unbounded integers. `number + 1` and `mostRecentComicNumber() + 1` (XKCD/Handlers/ComicFetcher.swift:106-110) trap at `Int.max` in the app, and a JSON `num` outside `Int` fails decoding there, but `Remote.metadata` may decode any integer.
- Realm failures: `try! Realm()` and `try! realm.write` (XKCD/Handlers/ComicFetcher.swift lines 29, 80-81, 210 and 218) crash the app when Realm fails; the model's table is always available.
- Dates: `Calendar.current.date(from:)!` is foreign. The row keeps the parsed year, month and day components, and a date the calendar rejects (a crash in the app) is not modelled. The default `Date()` of a fresh row is the `now` parameter.
- Images: `UIImage` decoding, `pngData`, thumbnailing in `getImage` and `UIScreen` scale are foreign or floating point. An image is its PNG bytes and an opaque size. `GetImage` returns the stored bytes at the path, not a thumbnail, and `None` where the app would crash on a missing file.
- The `createDirectory` call in `ImageStorage.directory` and file-system errors (`try!`, `try?`) are not modelled; a write always succeeds.
- Realm: change notifications and their diffs are computed inside Realm, so `OnChange` takes the change as a parameter. `comics` is recomputed from the table rather than being a live result set.
- `print(error)` calls and the `onCompletion` callbacks, beyond the data they carry, are not modelled. `refreshComics`'s `onCompletion` runs after `store`, which the model reflects by storing at the end of the method.
- `CollectionView` reduces `UICollectionView` to the cell classes registered with it and the redraws asked of it; its layout, cells and animation are not modelled.
- UI: `sizeForItemAt` (float text layout), the spacing and inset callbacks, cell dequeuing and `FeedCell`'s contents are not modelled. `ContentViewController` is an empty class, and weak references are plain optional fields.
- `MainViewController` and the rest of the app are not part of this model.
- UpToNewest: termination relies on a ghost bound `stop`, a number at or above the start whose fetch fails. A remote that never fails is therefore outside the model. The app would recurse forever there.
- RefreshComics: the `count < 15` test is made once, at the start of the method. That is where line 29 runs in practice, since the forward chain's callbacks come later.

## Findings

| source | as written | input that shows it | evidently intended | confidence | as-written member | corrected member |
|---|---|---|---|---|---|---|
| XKCD/Handlers/ComicFetcher.swift:23-24 | the forward completion appends `results` to itself, dropping `freshComics` | any stored table, and comic `mostRecent + 1` published and fetchable | append `freshComics`, so newer comics are stored | high, not executed | ComicFetcher.ComicFetcher.RefreshComics, FetcherProperties.RefreshMissesNewComic, FetcherProperties.RefreshSavesImageWithoutRow | ComicFetcher.ComicFetcher.RefreshComicsIntended, FetcherProperties.IntendedRefreshStoresAll |
| XKCD/Handlers/ComicFetcher.swift:126 | the closed range `max(0, L-15) ... L` requests the already stored oldest comic `L` again | the oldest stored comic `L > 0` has `isSaved` true and still fetches; the next page resets its flag to false | the 15 comics older than the oldest one (doc comment at line 119): `max(0, L-15) ..< L` | medium, not executed | ComicFetcher.PageNumbers, FetcherProperties.PageResetsOldestSaved | ComicFetcher.OlderPageNumbers, FetcherProperties.OlderPageKeepsStoredRows |
