/**
 * The comic synchronisation engine (`struct ComicFetcher`): it fetches comic
 * metadata and images from the xkcd API, catches up forward from the newest
 * stored comic, pages backward from the oldest one, and upserts what it got
 * into the comic table.
 *
 * The network is the `Remote` value: what the metadata request for a number
 * and the image request for a URL deliver. The order in which concurrent
 * requests complete is a parameter of the operations that fan out.
 */
module ComicFetcher {
  import opened Wrappers
  import opened Xkcd
  import opened ComicTable
  import Decimal
  import ImageStorage

  type Bytes = ImageStorage.Bytes

  /** The anchor used when the table is empty. */
  const FallbackComicNumber: int := 2278
  /** How far below the oldest stored comic a page reaches. */
  const PageSize: int := 15
  /** Below this many stored comics, a refresh also fetches a page of older ones. */
  const MinimumStoredComics: int := 15

  datatype Size = Size(width: real, height: real)

  /** The fields of the API's `info.0.json` object that the app decodes. */
  datatype ComicJson = ComicJson(
    num: int, title: string, alt: string, img: string,
    year: string, month: string, day: string)

  /** `ComicResultModel`: the decoded JSON plus the size of the fetched image. */
  datatype ComicResultModel = ComicResultModel(
    num: int, title: string, alt: string, img: string,
    year: string, month: string, day: string,
    size: Size)

  datatype ComicAPIError = NotFound | NetworkIssue | ImageMissing

  /** What the metadata request for one comic number yields. */
  datatype MetadataResponse =
    | NoData                  // the data task delivered no data
    | Undecodable             // data arrived but is not a comic JSON object
    | Decoded(json: ComicJson)

  /** What the image request for one URL yields. */
  datatype ImageResponse =
    | NoImage                        // no data, or data that is not an image
    | Image(png: Bytes, size: Size)  // the image, its PNG encoding and its size

  /** The xkcd API, as seen from the app at the time of a sync. */
  datatype Remote = Remote(metadata: int -> MetadataResponse, image: string -> ImageResponse)

  /** A freshly decoded model: `size` keeps its default of zero. */
  function FromJson(json: ComicJson): (c: ComicResultModel)
    ensures c.num == json.num && c.img == json.img && c.size == Size(0.0, 0.0)
  {
    ComicResultModel(json.num, json.title, json.alt, json.img, json.year, json.month, json.day, Size(0.0, 0.0))
  }

  // ---------------------------------------------------------------------------
  // Specification of one fetch

  /** The outcome of `fetchImage(at:forComic:)`. */
  function ImageOutcome(remote: Remote, url: string): Result<Size, ComicAPIError> {
    match remote.image(url)
    case NoImage => Failure(NotFound)
    case Image(_, size) => Success(size)
  }

  /** The outcome of `fetchComic(number:)`. */
  function Fetch(remote: Remote, number: int): Result<ComicResultModel, ComicAPIError> {
    match remote.metadata(number)
    case NoData => Failure(NetworkIssue)
    case Undecodable => Failure(NotFound)
    case Decoded(json) =>
      match ImageOutcome(remote, json.img)
      case Success(size) => Success(FromJson(json).(size := size))
      case Failure(_) => Failure(ImageMissing)
  }

  /** The image file `fetchComic(number:)` writes, if any: the comic's own number and the PNG bytes. */
  function SavedImage(remote: Remote, number: int): Option<(int, Bytes)> {
    match remote.metadata(number)
    case Decoded(json) =>
      (match remote.image(json.img)
       case Image(png, _) => Some((json.num, png))
       case NoImage => None)
    case _ => None
  }

  /** The image folder after `fetchComic(number:)` has finished. */
  function AfterFetch(files: map<string, Bytes>, remote: Remote, number: int): map<string, Bytes> {
    match SavedImage(remote, number)
    case Some((num, png)) => files[ImageStorage.FileName(num) := png]
    case None => files
  }

  /** The image folder after fetching `numbers` one after the other. */
  function AfterFetches(files: map<string, Bytes>, remote: Remote, numbers: seq<int>): map<string, Bytes>
    decreases |numbers|
  {
    if numbers == [] then files
    else AfterFetch(AfterFetches(files, remote, numbers[..|numbers| - 1]), remote, numbers[|numbers| - 1])
  }

  /** The image folder after fetching `from`, `from + 1`, …, `from + count - 1` one after the other. */
  function AfterChain(files: map<string, Bytes>, remote: Remote, from: int, count: nat): map<string, Bytes>
    decreases count
  {
    if count == 0 then files else AfterChain(AfterFetch(files, remote, from), remote, from + 1, count - 1)
  }

  /**
   * The successful results among fetches of `numbers`, in the order of
   * `numbers`; failures contribute nothing.
   */
  function Successes(remote: Remote, numbers: seq<int>): (r: seq<ComicResultModel>)
    ensures |r| <= |numbers|
    decreases |numbers|
  {
    if numbers == [] then []
    else
      var front := Successes(remote, numbers[..|numbers| - 1]);
      match Fetch(remote, numbers[|numbers| - 1])
      case Success(c) => front + [c]
      case Failure(_) => front
  }

  /** Every collected comic is the result of a requested number, and every successful request is collected. */
  lemma {:induction false} SuccessesMembers(remote: Remote, numbers: seq<int>)
    ensures forall c :: c in Successes(remote, numbers) ==> exists n :: n in numbers && Fetch(remote, n) == Success(c)
    ensures forall n :: n in numbers && Fetch(remote, n).Success? ==> Fetch(remote, n).value in Successes(remote, numbers)
    decreases |numbers|
  {
    if numbers != [] {
      var init := numbers[..|numbers| - 1];
      var last := numbers[|numbers| - 1];
      SuccessesMembers(remote, init);
      assert forall n :: n in init ==> n in numbers;
      assert forall n :: n in numbers ==> n in init || n == last;
    }
  }

  /** The consecutive numbers `from, from + 1, …, from + count - 1`. */
  function Consecutive(from: int, count: nat): seq<int> {
    seq(count, i => from + i)
  }

  lemma ConsecutiveMembers(from: int, count: nat)
    ensures forall n :: n in Consecutive(from, count) <==> from <= n < from + count
  {
    var r := Consecutive(from, count);
    forall n | from <= n < from + count
      ensures n in r
    {
      assert r[n - from] == n;
    }
  }

  /**
   * `fetchUpToNewest(from:comics:)` without its accumulator: the comics of
   * the run of successful fetches that starts at `from`. `stop`, a number at
   * or above `from` whose fetch fails, only bounds the recursion.
   */
  function UpToNewest(remote: Remote, from: int, stop: int): (r: seq<ComicResultModel>)
    requires from <= stop && Fetch(remote, stop).Failure?
    ensures |r| <= stop - from
    decreases stop - from
  {
    match Fetch(remote, from)
    case Success(c) => [c] + UpToNewest(remote, from + 1, stop)
    case Failure(_) => []
  }

  /**
   * The forward chain holds the comics of `from, from + 1, …` in order, and
   * the number right after its last comic fails (`from` itself when the
   * chain is empty).
   */
  lemma {:induction false} UpToNewestChain(remote: Remote, from: int, stop: int)
    requires from <= stop && Fetch(remote, stop).Failure?
    ensures forall i :: 0 <= i < |UpToNewest(remote, from, stop)| ==>
      Fetch(remote, from + i) == Success(UpToNewest(remote, from, stop)[i])
    ensures Fetch(remote, from + |UpToNewest(remote, from, stop)|).Failure?
    decreases stop - from
  {
    if Fetch(remote, from).Success? {
      UpToNewestChain(remote, from + 1, stop);
      var r := UpToNewest(remote, from, stop);
      var rest := UpToNewest(remote, from + 1, stop);
      assert r == [Fetch(remote, from).value] + rest;
      forall i | 1 <= i < |r|
        ensures Fetch(remote, from + i) == Success(r[i])
      {
        assert r[i] == rest[i - 1];
        assert from + i == (from + 1) + (i - 1);
      }
    }
  }

  // ---------------------------------------------------------------------------
  // Anchors and pages

  /** `mostRecentComicNumber()`: the number of the first row by descending number, or 2278. */
  function MostRecentComicNumber(t: Table): int
    requires KeyedByNumber(t)
  {
    var rows := ByNumberDescending(t);
    if |rows| == 0 then FallbackComicNumber else rows[0].number
  }

  /** `leastRecentComicNumber()`: the number of the first row by ascending number, or 2278. */
  function LeastRecentComicNumber(t: Table): int
    requires KeyedByNumber(t)
  {
    var rows := ByNumberDescending(t);
    if |rows| == 0 then FallbackComicNumber else rows[|rows| - 1].number
  }

  /** The most recent number is the largest stored number, or 2278 for an empty table. */
  lemma MostRecentIsLargest(t: Table)
    requires KeyedByNumber(t)
    ensures t == map[] ==> MostRecentComicNumber(t) == FallbackComicNumber
    ensures t != map[] ==> MostRecentComicNumber(t) in t && forall k :: k in t ==> k <= MostRecentComicNumber(t)
  {
    var keys := SortedDescending(t.Keys);
    var rows := ByNumberDescending(t);
    if |rows| != 0 {
      assert keys[0] in t;
      assert rows[0].number == keys[0];
      forall k | k in t
        ensures k <= keys[0]
      {
        assert k in keys;
      }
    }
  }

  /** The least recent number is the smallest stored number, or 2278 for an empty table. */
  lemma LeastRecentIsSmallest(t: Table)
    requires KeyedByNumber(t)
    ensures t == map[] ==> LeastRecentComicNumber(t) == FallbackComicNumber
    ensures t != map[] ==> LeastRecentComicNumber(t) in t && forall k :: k in t ==> LeastRecentComicNumber(t) <= k
  {
    var keys := SortedDescending(t.Keys);
    var rows := ByNumberDescending(t);
    if |rows| != 0 {
      var last := |rows| - 1;
      assert keys[last] in t;
      assert rows[last].number == keys[last];
      forall k | k in t
        ensures keys[last] <= k
      {
        assert k in keys;
        var j :| 0 <= j < |keys| && keys[j] == k;
        assert j == last || keys[j] > keys[last];
      }
    }
  }

  function MaxInt(a: int, b: int): int {
    if a < b then b else a
  }

  /**
   * The numbers `fetchNextPage` requests below a positive least recent
   * number: the closed range `max(0, least - 15) ... least`.
   */
  function PageNumbers(least: int): seq<int>
    requires least > 0
  {
    var low := MaxInt(0, least - PageSize);
    Consecutive(low, least - low + 1)
  }

  /** A page holds, in increasing order, the 16 numbers ending at `least` (fewer near the first comic), `least` included. */
  lemma PageNumbersRange(least: int)
    requires least > 0
    ensures forall n :: n in PageNumbers(least) <==> MaxInt(0, least - PageSize) <= n <= least
    ensures |PageNumbers(least)| == (if least < PageSize then least else PageSize) + 1
    ensures forall i, j :: 0 <= i < j < |PageNumbers(least)| ==> PageNumbers(least)[i] < PageNumbers(least)[j]
  {
    var low := MaxInt(0, least - PageSize);
    ConsecutiveMembers(low, least - low + 1);
  }

  /**
   * The page the doc comment of `fetchNextPage` describes: the (at most) 15
   * numbers strictly below `least`, i.e. the half-open range
   * `max(0, least - 15) ..< least`.
   */
  function OlderPageNumbers(least: int): seq<int>
    requires least > 0
  {
    var low := MaxInt(0, least - PageSize);
    Consecutive(low, least - low)
  }

  /** The corrected page holds, in increasing order, the up to 15 numbers below `least`, and not `least`. */
  lemma OlderPageNumbersRange(least: int)
    requires least > 0
    ensures forall n :: n in OlderPageNumbers(least) <==> MaxInt(0, least - PageSize) <= n < least
    ensures |OlderPageNumbers(least)| == if least < PageSize then least else PageSize
    ensures forall i, j :: 0 <= i < j < |OlderPageNumbers(least)| ==> OlderPageNumbers(least)[i] < OlderPageNumbers(least)[j]
  {
    var low := MaxInt(0, least - PageSize);
    ConsecutiveMembers(low, least - low);
  }

  /** What `fetchNextPage` hands its completion, given the order `completed` in which its requests finish. */
  function PageResults(remote: Remote, t: Table, completed: seq<int>): seq<ComicResultModel>
    requires KeyedByNumber(t)
  {
    if LeastRecentComicNumber(t) > 0 then Successes(remote, completed) else []
  }

  /** The page a refresh collects: the next page's results when fewer than 15 comics are stored, nothing otherwise. */
  function RefreshPage(remote: Remote, t: Table, completed: seq<int>): seq<ComicResultModel>
    requires KeyedByNumber(t)
  {
    if |t| < MinimumStoredComics then PageResults(remote, t, completed) else []
  }

  /** The image folder after `fetchNextPage`: untouched when no page is requested. */
  function AfterPage(files: map<string, Bytes>, remote: Remote, t: Table, completed: seq<int>): map<string, Bytes>
    requires KeyedByNumber(t)
  {
    if LeastRecentComicNumber(t) > 0 then AfterFetches(files, remote, completed) else files
  }

  /**
   * The image folder after `refreshComics`: the forward chain's writes (the
   * failing number that ends it included), then the page's if one is requested.
   */
  function AfterRefresh(files: map<string, Bytes>, remote: Remote, t: Table, stop: int, pageCompleted: seq<int>): map<string, Bytes>
    requires KeyedByNumber(t)
    requires MostRecentComicNumber(t) + 1 <= stop && Fetch(remote, stop).Failure?
  {
    var from := MostRecentComicNumber(t) + 1;
    var afterChain := AfterChain(files, remote, from, |UpToNewest(remote, from, stop)| + 1);
    if |t| < MinimumStoredComics then AfterPage(afterChain, remote, t, pageCompleted) else afterChain
  }

  // ---------------------------------------------------------------------------
  // Storing

  /** The date components `store` sets from the JSON's strings. */
  function DateOf(c: ComicResultModel): Date {
    Date(Decimal.ParseInt(c.year), Decimal.ParseInt(c.month), Decimal.ParseInt(c.day))
  }

  /**
   * The row `store` writes for `c`: a fresh `XKCD()` with every feed field
   * set from `c`; `isSaved` keeps the fresh record's default.
   */
  function Row(c: ComicResultModel): XKCD {
    XKCD(c.num, c.title, c.alt, DateOf(c), c.size.height, c.size.width, false)
  }

  /** The table after `realm.add(row, update: .all)` of each comic's row, in batch order. */
  function Upserted(t: Table, comics: seq<ComicResultModel>): Table
    decreases |comics|
  {
    if comics == [] then t
    else
      var last := comics[|comics| - 1];
      Upserted(t, comics[..|comics| - 1])[last.num := Row(last)]
  }

  // ---------------------------------------------------------------------------
  // Refresh

  /** The folder after the forward chain and then, when paging, after the page, is `AfterRefresh`. */
  lemma AfterRefreshSteps(files: map<string, Bytes>, remote: Remote, t: Table, stop: int, pageCompleted: seq<int>,
                          afterChain: map<string, Bytes>, result: map<string, Bytes>)
    requires KeyedByNumber(t)
    requires MostRecentComicNumber(t) + 1 <= stop && Fetch(remote, stop).Failure?
    requires afterChain == AfterChain(files, remote, MostRecentComicNumber(t) + 1, |UpToNewest(remote, MostRecentComicNumber(t) + 1, stop)| + 1)
    requires result == if |t| < MinimumStoredComics then AfterPage(afterChain, remote, t, pageCompleted) else afterChain
    ensures result == AfterRefresh(files, remote, t, stop, pageCompleted)
  {
  }

  /**
   * The batch `refreshComics` stores. Its forward completion appends `results`
   * to itself instead of the fresh comics, so the batch is made of the page
   * alone: once if that completion runs first (while `results` is still
   * empty), twice if it runs after the page's.
   */
  function RefreshBatch(page: seq<ComicResultModel>, forwardLast: bool): seq<ComicResultModel> {
    if forwardLast then page + page else page
  }

  /** The batch `refreshComics` evidently means to store: the newer comics and the page, in completion order. */
  function IntendedRefreshBatch(newer: seq<ComicResultModel>, page: seq<ComicResultModel>, forwardLast: bool): seq<ComicResultModel> {
    if forwardLast then page + newer else newer + page
  }

  // ---------------------------------------------------------------------------
  // Lemmas the engine's proofs rely on

  lemma {:induction false} SuccessesAppend(remote: Remote, a: seq<int>, b: seq<int>)
    ensures Successes(remote, a + b) == Successes(remote, a) + Successes(remote, b)
    decreases |b|
  {
    if b == [] {
      assert a + b == a;
    } else {
      var init := b[..|b| - 1];
      assert (a + b)[..|a + b| - 1] == a + init;
      assert (a + b)[|a + b| - 1] == b[|b| - 1];
      SuccessesAppend(remote, a, init);
    }
  }

  /** Taking one request out of a fan-out takes its comic, if any, out of the collected ones. */
  lemma SuccessesRemove(remote: Remote, b: seq<int>, i: int)
    requires 0 <= i < |b|
    ensures multiset(Successes(remote, b))
         == multiset(Successes(remote, b[..i] + b[i + 1..])) + multiset(Successes(remote, [b[i]]))
  {
    var before, after := b[..i], b[i + 1..];
    assert b == before + [b[i]] + after;
    SuccessesAppend(remote, before + [b[i]], after);
    SuccessesAppend(remote, before, [b[i]]);
    SuccessesAppend(remote, before, after);
  }

  /** The comics a fan-out collects do not depend on the order its requests complete in, up to order. */
  lemma {:induction false} SuccessesPermutation(remote: Remote, a: seq<int>, b: seq<int>)
    requires multiset(a) == multiset(b)
    ensures multiset(Successes(remote, a)) == multiset(Successes(remote, b))
    decreases |a|
  {
    if a == [] {
      assert |multiset(b)| == 0;
    } else {
      var init := a[..|a| - 1];
      var i := RemoveLast(a, b);
      SuccessesPermutation(remote, init, b[..i] + b[i + 1..]);
      assert a == init + [b[i]];
      SuccessesAppend(remote, init, [b[i]]);
      SuccessesRemove(remote, b, i);
    }
  }

  /** When `b` is a permutation of a non-empty `a`, removing `a`'s last element from both leaves permutations. */
  lemma RemoveLast(a: seq<int>, b: seq<int>) returns (i: int)
    requires |a| > 0 && multiset(a) == multiset(b)
    ensures 0 <= i < |b| && b[i] == a[|a| - 1]
    ensures multiset(a[..|a| - 1]) == multiset(b[..i] + b[i + 1..])
  {
    var x := a[|a| - 1];
    assert a == a[..|a| - 1] + [x];
    assert x in multiset(b);
    i :| 0 <= i < |b| && b[i] == x;
    assert b == b[..i] + [x] + b[i + 1..];
    assert multiset(a[..|a| - 1]) == multiset(a) - multiset{x};
    assert multiset(b[..i] + b[i + 1..]) == multiset(b) - multiset{x};
  }

  lemma {:induction false} AfterFetchesAppend(files: map<string, Bytes>, remote: Remote, a: seq<int>, b: seq<int>)
    ensures AfterFetches(files, remote, a + b) == AfterFetches(AfterFetches(files, remote, a), remote, b)
    decreases |b|
  {
    if b == [] {
      assert a + b == a;
    } else {
      var init := b[..|b| - 1];
      assert (a + b)[..|a + b| - 1] == a + init;
      assert (a + b)[|a + b| - 1] == b[|b| - 1];
      AfterFetchesAppend(files, remote, a, init);
    }
  }

  lemma ConcatAssociative<T>(a: seq<T>, b: seq<T>, c: seq<T>)
    ensures (a + b) + c == a + (b + c)
  {
  }

  lemma ConcatEmpty<T>(a: seq<T>)
    ensures [] + a == a && a + [] == a
  {
  }

  lemma UpToNewestStep(remote: Remote, from: int, stop: int)
    requires from <= stop && Fetch(remote, stop).Failure? && Fetch(remote, from).Success?
    ensures from + 1 <= stop
    ensures UpToNewest(remote, from, stop) == [Fetch(remote, from).value] + UpToNewest(remote, from + 1, stop)
  {
  }

  /** Upserting rows built by `Row` keeps every row under its own number. */
  lemma {:induction false} UpsertedKeyedByNumber(t: Table, comics: seq<ComicResultModel>)
    requires KeyedByNumber(t)
    ensures KeyedByNumber(Upserted(t, comics))
    decreases |comics|
  {
    if comics != [] {
      UpsertedKeyedByNumber(t, comics[..|comics| - 1]);
    }
  }

  // ---------------------------------------------------------------------------
  // The engine

  class ComicFetcher {
    /** The Realm comic table. */
    var table: Table
    /** Where fetched images are written. */
    const storage: ImageStorage.ImageStorage

    ghost predicate Valid()
      reads this
    {
      KeyedByNumber(table)
    }

    constructor (table: Table, storage: ImageStorage.ImageStorage)
      requires KeyedByNumber(table)
      ensures Valid() && this.table == table && this.storage == storage
    {
      this.table := table;
      this.storage := storage;
    }

    /** `store(comics:)`: upsert one fresh row per comic, in one write transaction; `now` is the clock `XKCD()` reads. */
    method Store(comics: seq<ComicResultModel>, now: Date)
      requires Valid()
      modifies this
      ensures Valid()
      ensures table == Upserted(old(table), comics)
    {
      var i := 0;
      while i < |comics|
        invariant 0 <= i <= |comics|
        invariant table == Upserted(old(table), comics[..i])
      {
        var comic := comics[i];
        var xkcd := New(now);
        xkcd := xkcd.(number := comic.num);
        xkcd := xkcd.(title := comic.title);
        xkcd := xkcd.(caption := comic.alt);
        xkcd := xkcd.(imageWidth := comic.size.width);
        xkcd := xkcd.(imageHeight := comic.size.height);
        xkcd := xkcd.(date := DateOf(comic));
        table := table[xkcd.number := xkcd];
        assert comics[..i + 1][..i] == comics[..i];
        i := i + 1;
      }
      assert comics[..i] == comics;
      UpsertedKeyedByNumber(old(table), comics);
    }

    /** `fetchImage(at:forComic:)`: on success the image is written under `number` before the size is reported. */
    method FetchImage(remote: Remote, url: string, number: int) returns (result: Result<Size, ComicAPIError>)
      modifies storage
      ensures result == ImageOutcome(remote, url)
      ensures storage.files == (match remote.image(url)
                                case Image(png, _) => old(storage.files)[ImageStorage.FileName(number) := png]
                                case NoImage => old(storage.files))
    {
      var response := remote.image(url);
      match response
      case NoImage =>
        result := Failure(NotFound);
      case Image(png, size) =>
        storage.Save(png, number);
        result := Success(size);
    }

    /** `fetchComic(number:)`. */
    method FetchComic(remote: Remote, number: int) returns (result: Result<ComicResultModel, ComicAPIError>)
      modifies storage
      ensures result == Fetch(remote, number)
      ensures storage.files == AfterFetch(old(storage.files), remote, number)
    {
      var response := remote.metadata(number);
      match response
      case NoData =>
        result := Failure(NetworkIssue);
      case Undecodable =>
        result := Failure(NotFound);
      case Decoded(json) =>
        var comic := FromJson(json);
        var image := FetchImage(remote, json.img, comic.num);
        match image
        case Success(size) =>
          comic := comic.(size := size);
          result := Success(comic);
        case Failure(_) =>
          result := Failure(ImageMissing);
    }

    /** `fetchUpToNewest(from:comics:)`: fetch `number`, `number + 1`, … until one fails. */
    method FetchUpToNewest(remote: Remote, number: int, comics: seq<ComicResultModel>, ghost stop: int)
      returns (result: seq<ComicResultModel>)
      requires number <= stop && Fetch(remote, stop).Failure?
      modifies storage
      ensures result == comics + UpToNewest(remote, number, stop)
      ensures storage.files == AfterChain(old(storage.files), remote, number, |UpToNewest(remote, number, stop)| + 1)
      decreases stop - number
    {
      var outcome := FetchComic(remote, number);
      if outcome.Success? {
        ghost var afterFirst := storage.files;
        assert number + 1 <= stop && UpToNewest(remote, number, stop) == [outcome.value] + UpToNewest(remote, number + 1, stop) by {
          UpToNewestStep(remote, number, stop);
        }
        result := FetchUpToNewest(remote, number + 1, comics + [outcome.value], stop);
        ConcatAssociative(comics, [outcome.value], UpToNewest(remote, number + 1, stop));
        assert storage.files == AfterChain(old(storage.files), remote, number, |UpToNewest(remote, number, stop)| + 1) by {
          assert afterFirst == AfterFetch(old(storage.files), remote, number);
        }
      } else {
        result := comics;
      }
    }

    /** `fetchComics(numbers:)`: request every number; `completed` is the order in which the requests finish. */
    method FetchComics(remote: Remote, numbers: seq<int>, completed: seq<int>) returns (results: seq<ComicResultModel>)
      requires multiset(completed) == multiset(numbers)
      modifies storage
      ensures results == Successes(remote, completed)
      ensures multiset(results) == multiset(Successes(remote, numbers))
      ensures storage.files == AfterFetches(old(storage.files), remote, completed)
    {
      results := [];
      var i := 0;
      while i < |completed|
        invariant 0 <= i <= |completed|
        invariant results == Successes(remote, completed[..i])
        invariant storage.files == AfterFetches(old(storage.files), remote, completed[..i])
      {
        var outcome := FetchComic(remote, completed[i]);
        match outcome {
          case Success(model) => results := results + [model];
          case Failure(_) =>
        }
        assert completed[..i + 1][..i] == completed[..i] && completed[..i + 1][i] == completed[i];
        i := i + 1;
      }
      assert completed[..i] == completed;
      SuccessesPermutation(remote, completed, numbers);
    }

    /** `fetchNextPage`: nothing when the least recent number is not positive, else the page below it. */
    method FetchNextPage(remote: Remote, completed: seq<int>) returns (results: seq<ComicResultModel>)
      requires Valid()
      requires LeastRecentComicNumber(table) > 0 ==>
        multiset(completed) == multiset(PageNumbers(LeastRecentComicNumber(table)))
      modifies storage
      ensures results == PageResults(remote, table, completed)
      ensures LeastRecentComicNumber(table) <= 0 ==> results == [] && storage.files == old(storage.files)
      ensures LeastRecentComicNumber(table) > 0 ==>
        multiset(results) == multiset(Successes(remote, PageNumbers(LeastRecentComicNumber(table))))
        && storage.files == AfterFetches(old(storage.files), remote, completed)
    {
      if LeastRecentComicNumber(table) <= 0 {
        results := [];
        return;
      }
      var nextPageNumbers := PageNumbers(LeastRecentComicNumber(table));
      results := FetchComics(remote, nextPageNumbers, completed);
    }

    /** `fetchMoreComics`: fetch the next page and store it. */
    method FetchMoreComics(remote: Remote, completed: seq<int>, now: Date)
      requires Valid()
      requires LeastRecentComicNumber(table) > 0 ==>
        multiset(completed) == multiset(PageNumbers(LeastRecentComicNumber(table)))
      modifies this, storage
      ensures Valid()
      ensures table == Upserted(old(table), PageResults(remote, old(table), completed))
      ensures storage.files == AfterPage(old(storage.files), remote, old(table), completed)
    {
      var moreComics := FetchNextPage(remote, completed);
      Store(moreComics, now);
    }

    /**
     * `refreshComics`: catch up forward from the newest stored comic, page
     * backward if fewer than 15 comics are stored, then store the collected
     * batch. `stop` is a failing number at or above the forward start,
     * `pageCompleted` the completion order of the page's requests and
     * `forwardLast` whether the forward chain completes after the page.
     * Image writes of the forward chain are modelled before the page's.
     */
    method RefreshComics(remote: Remote, ghost stop: int, pageCompleted: seq<int>, forwardLast: bool, now: Date)
      requires Valid()
      requires MostRecentComicNumber(table) + 1 <= stop && Fetch(remote, stop).Failure?
      requires |table| < MinimumStoredComics && LeastRecentComicNumber(table) > 0 ==>
        multiset(pageCompleted) == multiset(PageNumbers(LeastRecentComicNumber(table)))
      modifies this, storage
      ensures Valid()
      ensures table == Upserted(old(table),
        RefreshBatch(RefreshPage(remote, old(table), pageCompleted), forwardLast))
      ensures |old(table)| >= MinimumStoredComics ==> table == old(table)
      ensures storage.files == AfterRefresh(old(storage.files), remote, old(table), stop, pageCompleted)
    {
      var results: seq<ComicResultModel> := [];
      ghost var table0, files0 := table, storage.files;
      var freshComics := FetchUpToNewest(remote, MostRecentComicNumber(table) + 1, [], stop);
      ghost var afterChain := storage.files;
      var oldComics: seq<ComicResultModel> := [];
      var paging := |table| < MinimumStoredComics;
      if paging {
        oldComics := FetchNextPage(remote, pageCompleted);
        assert table == table0;
      }
      assert table == table0;
      AfterRefreshSteps(files0, remote, table0, stop, pageCompleted, afterChain, storage.files);
      // The two completions, in the order they run.
      if forwardLast {
        ConcatEmpty(oldComics);
        results := results + oldComics;
        results := results + results;
      } else {
        ConcatEmpty<ComicResultModel>([]);
        results := results + results;
        ConcatEmpty(oldComics);
        results := results + oldComics;
      }
      Store(results, now);
    }

    /** `refreshComics` as evidently intended: the forward completion appends the fresh comics. */
    method RefreshComicsIntended(remote: Remote, ghost stop: int, pageCompleted: seq<int>, forwardLast: bool, now: Date)
      requires Valid()
      requires MostRecentComicNumber(table) + 1 <= stop && Fetch(remote, stop).Failure?
      requires |table| < MinimumStoredComics && LeastRecentComicNumber(table) > 0 ==>
        multiset(pageCompleted) == multiset(PageNumbers(LeastRecentComicNumber(table)))
      modifies this, storage
      ensures Valid()
      ensures table == Upserted(old(table), IntendedRefreshBatch(
        UpToNewest(remote, MostRecentComicNumber(old(table)) + 1, stop),
        RefreshPage(remote, old(table), pageCompleted),
        forwardLast))
      ensures storage.files == AfterRefresh(old(storage.files), remote, old(table), stop, pageCompleted)
    {
      var results: seq<ComicResultModel> := [];
      ghost var table0, files0 := table, storage.files;
      ghost var chain := UpToNewest(remote, MostRecentComicNumber(table0) + 1, stop);
      ghost var page := RefreshPage(remote, table0, pageCompleted);
      var freshComics := FetchUpToNewest(remote, MostRecentComicNumber(table) + 1, [], stop);
      ConcatEmpty(chain);
      assert freshComics == chain;
      ghost var afterChain := storage.files;
      var oldComics: seq<ComicResultModel> := [];
      var paging := |table| < MinimumStoredComics;
      if paging {
        oldComics := FetchNextPage(remote, pageCompleted);
        assert table == table0;
      }
      assert table == table0 && oldComics == page;
      AfterRefreshSteps(files0, remote, table0, stop, pageCompleted, afterChain, storage.files);
      // The two completions, in the order they run.
      if forwardLast {
        ConcatEmpty(oldComics);
        results := results + oldComics;
        results := results + freshComics;
        assert results == IntendedRefreshBatch(chain, page, forwardLast);
      } else {
        ConcatEmpty(freshComics);
        results := results + freshComics;
        results := results + oldComics;
        assert results == IntendedRefreshBatch(chain, page, forwardLast);
      }
      Store(results, now);
    }
  }
}
