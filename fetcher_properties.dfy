/**
 * Properties of the comic synchronisation engine: what an upsert of a batch
 * does to the table, what a fan-out collects and writes, and the two defects
 * of `refreshComics` and `fetchNextPage` next to their corrections.
 */
module FetcherProperties {
  import opened Wrappers
  import opened Xkcd
  import ImageStorage
  import opened ComicFetcher

  // ---------------------------------------------------------------------------
  // Batches

  /** The comic numbers in a batch. */
  function NumbersOf(comics: seq<ComicResultModel>): set<int>
    decreases |comics|
  {
    if comics == [] then {} else NumbersOf(comics[..|comics| - 1]) + {comics[|comics| - 1].num}
  }

  /** A number is in a batch exactly when some comic of the batch carries it. */
  lemma {:induction false} NumbersOfMembers(comics: seq<ComicResultModel>)
    ensures forall i :: 0 <= i < |comics| ==> comics[i].num in NumbersOf(comics)
    ensures forall k :: k in NumbersOf(comics) ==> exists i :: 0 <= i < |comics| && comics[i].num == k
    decreases |comics|
  {
    if comics != [] {
      var init := comics[..|comics| - 1];
      NumbersOfMembers(init);
      forall k | k in NumbersOf(comics)
        ensures exists i :: 0 <= i < |comics| && comics[i].num == k
      {
        if k in NumbersOf(init) {
          var i :| 0 <= i < |init| && init[i].num == k;
          assert comics[i].num == k;
        } else {
          assert comics[|comics| - 1].num == k;
        }
      }
    }
  }

  /** The position of the last comic of the batch that carries number `k`. */
  function LastIndexWith(comics: seq<ComicResultModel>, k: int): (i: int)
    requires k in NumbersOf(comics)
    ensures 0 <= i < |comics| && comics[i].num == k
    ensures forall j :: i < j < |comics| ==> comics[j].num != k
    decreases |comics|
  {
    if comics[|comics| - 1].num == k then |comics| - 1
    else LastIndexWith(comics[..|comics| - 1], k)
  }

  // ---------------------------------------------------------------------------
  // Upserting a batch

  lemma {:induction false} UpsertedAppend(t: Table, a: seq<ComicResultModel>, b: seq<ComicResultModel>)
    ensures Upserted(t, a + b) == Upserted(Upserted(t, a), b)
    decreases |b|
  {
    if b == [] {
      assert a + b == a;
    } else {
      var init := b[..|b| - 1];
      assert (a + b)[..|a + b| - 1] == a + init;
      assert (a + b)[|a + b| - 1] == b[|b| - 1];
      UpsertedAppend(t, a, init);
    }
  }

  /** After the upsert, the table holds exactly its old numbers and the batch's. */
  lemma {:induction false} UpsertedKeys(t: Table, comics: seq<ComicResultModel>)
    ensures Upserted(t, comics).Keys == t.Keys + NumbersOf(comics)
    decreases |comics|
  {
    if comics != [] {
      UpsertedKeys(t, comics[..|comics| - 1]);
    }
  }

  /**
   * A number of the batch holds the row of the batch's last comic with that
   * number (`update: .all` replaces the whole row); any other row is untouched.
   */
  lemma {:induction false} UpsertedRow(t: Table, comics: seq<ComicResultModel>, k: int)
    ensures k in NumbersOf(comics) ==>
      k in Upserted(t, comics) && Upserted(t, comics)[k] == Row(comics[LastIndexWith(comics, k)])
    ensures k !in NumbersOf(comics) ==>
      (k in Upserted(t, comics) <==> k in t) && (k in t ==> Upserted(t, comics)[k] == t[k])
    decreases |comics|
  {
    if comics != [] {
      UpsertedRow(t, comics[..|comics| - 1], k);
    }
  }

  /** Storing the same batch again changes nothing. */
  lemma UpsertedIdempotent(t: Table, comics: seq<ComicResultModel>)
    ensures Upserted(Upserted(t, comics), comics) == Upserted(t, comics)
  {
    var u := Upserted(t, comics);
    var v := Upserted(u, comics);
    UpsertedKeys(t, comics);
    UpsertedKeys(u, comics);
    forall k | k in v
      ensures v[k] == u[k]
    {
      UpsertedRow(t, comics, k);
      UpsertedRow(u, comics, k);
    }
  }

  /** A stored row never keeps a saved mark: `store` builds every row from a fresh record. */
  lemma UpsertedRowsUnsaved(t: Table, comics: seq<ComicResultModel>, k: int)
    requires k in NumbersOf(comics)
    ensures k in Upserted(t, comics) && !Upserted(t, comics)[k].isSaved
  {
    UpsertedRow(t, comics, k);
  }

  // ---------------------------------------------------------------------------
  // Fetching

  /** The xkcd API serves comic `n`'s own JSON at `/n/info.0.json`. */
  ghost predicate Honest(remote: Remote) {
    forall n :: remote.metadata(n).Decoded? ==> remote.metadata(n).json.num == n
  }

  /**
   * `fetchComic` writes an image exactly when it succeeds, under the number
   * of the comic it reports.
   */
  lemma SavedImageIffSuccess(remote: Remote, n: int)
    ensures SavedImage(remote, n).Some? <==> Fetch(remote, n).Success?
    ensures Fetch(remote, n).Success? ==> SavedImage(remote, n).value.0 == Fetch(remote, n).value.num
    ensures Honest(remote) && Fetch(remote, n).Success? ==> Fetch(remote, n).value.num == n
  {
  }

  /** A fetch only ever adds or replaces image files. */
  lemma {:induction false} AfterFetchesGrows(files: map<string, ImageStorage.Bytes>, remote: Remote, numbers: seq<int>)
    ensures files.Keys <= AfterFetches(files, remote, numbers).Keys
    decreases |numbers|
  {
    if numbers != [] {
      AfterFetchesGrows(files, remote, numbers[..|numbers| - 1]);
    }
  }

  /** Every comic a fan-out collects has its image on disk once the fan-out is done. */
  lemma {:induction false} EveryCollectedComicHasImage(files: map<string, ImageStorage.Bytes>, remote: Remote, numbers: seq<int>)
    ensures forall c :: c in Successes(remote, numbers) ==>
      ImageStorage.FileName(c.num) in AfterFetches(files, remote, numbers)
    decreases |numbers|
  {
    if numbers != [] {
      var init := numbers[..|numbers| - 1];
      var last := numbers[|numbers| - 1];
      var before := AfterFetches(files, remote, init);
      EveryCollectedComicHasImage(files, remote, init);
      AfterFetchesGrows(before, remote, [last]);
      assert [last][..0] == [];
      SavedImageIffSuccess(remote, last);
    }
  }

  /** Which stop bounds the forward chain does not matter. */
  lemma {:induction false} UpToNewestStopIrrelevant(remote: Remote, from: int, stop1: int, stop2: int)
    requires from <= stop1 && Fetch(remote, stop1).Failure?
    requires from <= stop2 && Fetch(remote, stop2).Failure?
    ensures UpToNewest(remote, from, stop1) == UpToNewest(remote, from, stop2)
    decreases stop1 - from
  {
    if Fetch(remote, from).Success? {
      UpToNewestStopIrrelevant(remote, from + 1, stop1, stop2);
    }
  }

  /** Against an honest API, the forward chain brings the numbers after the newest stored one, none of them stored yet. */
  lemma FreshComicsAreNew(t: Table, remote: Remote, from: int, stop: int)
    requires KeyedByNumber(t) && Honest(remote)
    requires from == MostRecentComicNumber(t) + 1
    requires from <= stop && Fetch(remote, stop).Failure?
    ensures forall i :: 0 <= i < |UpToNewest(remote, from, stop)| ==>
      UpToNewest(remote, from, stop)[i].num == from + i && UpToNewest(remote, from, stop)[i].num !in t
  {
    var newer := UpToNewest(remote, from, stop);
    UpToNewestChain(remote, from, stop);
    MostRecentIsLargest(t);
    forall i | 0 <= i < |newer|
      ensures newer[i].num == from + i && newer[i].num !in t
    {
      SavedImageIffSuccess(remote, from + i);
    }
  }

  /** With an honest API, a fan-out stores, for each requested number that succeeds, that number's comic. */
  lemma HonestFanOutRow(t: Table, remote: Remote, numbers: seq<int>, k: int)
    requires Honest(remote)
    ensures k in NumbersOf(Successes(remote, numbers)) <==> k in numbers && Fetch(remote, k).Success?
    ensures k in NumbersOf(Successes(remote, numbers)) ==>
      k in Upserted(t, Successes(remote, numbers))
      && Upserted(t, Successes(remote, numbers))[k] == Row(Fetch(remote, k).value)
  {
    var comics := Successes(remote, numbers);
    SuccessesMembers(remote, numbers);
    NumbersOfMembers(comics);
    UpsertedRow(t, comics, k);
    if k in NumbersOf(comics) {
      var c := comics[LastIndexWith(comics, k)];
      assert c in comics;
      var n :| n in numbers && Fetch(remote, n) == Success(c);
      SavedImageIffSuccess(remote, n);
    }
    if k in numbers && Fetch(remote, k).Success? {
      SavedImageIffSuccess(remote, k);
      var c := Fetch(remote, k).value;
      assert c in comics;
      var i :| 0 <= i < |comics| && comics[i] == c;
    }
  }

  /** With an honest API, the table a stored fan-out leaves does not depend on the completion order. */
  lemma StoreIgnoresCompletionOrder(t: Table, remote: Remote, a: seq<int>, b: seq<int>)
    requires Honest(remote) && multiset(a) == multiset(b)
    ensures Upserted(t, Successes(remote, a)) == Upserted(t, Successes(remote, b))
  {
    var u, v := Upserted(t, Successes(remote, a)), Upserted(t, Successes(remote, b));
    UpsertedKeys(t, Successes(remote, a));
    UpsertedKeys(t, Successes(remote, b));
    forall k
      ensures k in NumbersOf(Successes(remote, a)) <==> k in NumbersOf(Successes(remote, b))
    {
      HonestFanOutRow(t, remote, a, k);
      HonestFanOutRow(t, remote, b, k);
      assert k in a <==> k in multiset(a);
    }
    forall k | k in u
      ensures k in v && u[k] == v[k]
    {
      HonestFanOutRow(t, remote, a, k);
      HonestFanOutRow(t, remote, b, k);
      UpsertedRow(t, Successes(remote, a), k);
      UpsertedRow(t, Successes(remote, b), k);
    }
  }

  // ---------------------------------------------------------------------------
  // refreshComics: the forward completion appends `results` to itself

  /** As written, the stored batch is the page alone: doubling it changes nothing. */
  lemma RefreshStoresPageOnly(t: Table, page: seq<ComicResultModel>, forwardLast: bool)
    ensures Upserted(t, RefreshBatch(page, forwardLast)) == Upserted(t, page)
  {
    if forwardLast {
      UpsertedAppend(t, page, page);
      UpsertedIdempotent(t, page);
    }
  }

  /**
   * With comic `newest + 1` published, the refresh as written leaves that
   * comic out of the table, whatever the number of stored comics: the page
   * only reaches down from the oldest stored comic. The intended refresh
   * stores it.
   */
  lemma RefreshMissesNewComic(t: Table, remote: Remote, stop: int, pageCompleted: seq<int>, forwardLast: bool)
    requires KeyedByNumber(t) && Honest(remote)
    requires MostRecentComicNumber(t) + 1 <= stop && Fetch(remote, stop).Failure?
    requires Fetch(remote, MostRecentComicNumber(t) + 1).Success?
    requires |t| < MinimumStoredComics && LeastRecentComicNumber(t) > 0 ==>
      multiset(pageCompleted) == multiset(PageNumbers(LeastRecentComicNumber(t)))
    ensures MostRecentComicNumber(t) + 1 !in Upserted(t, RefreshBatch(RefreshPage(remote, t, pageCompleted), forwardLast))
    ensures MostRecentComicNumber(t) + 1 in
      Upserted(t, IntendedRefreshBatch(UpToNewest(remote, MostRecentComicNumber(t) + 1, stop),
                                       RefreshPage(remote, t, pageCompleted), forwardLast))
  {
    var m := MostRecentComicNumber(t);
    var newer := UpToNewest(remote, m + 1, stop);
    var page := RefreshPage(remote, t, pageCompleted);
    PageMissesNewComic(t, remote, pageCompleted);
    MostRecentIsLargest(t);
    RefreshStoresPageOnly(t, page, forwardLast);
    UpsertedKeys(t, page);
    FreshComicsAreNew(t, remote, m + 1, stop);
    assert |newer| > 0 && newer[0].num == m + 1;
    NumbersOfMembers(newer);
    IntendedRefreshStoresAll(t, newer, page, forwardLast);
  }

  /** The page a refresh collects reaches no higher than the oldest stored comic, so never past the newest. */
  lemma PageMissesNewComic(t: Table, remote: Remote, pageCompleted: seq<int>)
    requires KeyedByNumber(t) && Honest(remote)
    requires |t| < MinimumStoredComics && LeastRecentComicNumber(t) > 0 ==>
      multiset(pageCompleted) == multiset(PageNumbers(LeastRecentComicNumber(t)))
    ensures forall k :: k in NumbersOf(RefreshPage(remote, t, pageCompleted)) ==> k <= LeastRecentComicNumber(t)
    ensures LeastRecentComicNumber(t) <= MostRecentComicNumber(t)
  {
    var least := LeastRecentComicNumber(t);
    MostRecentIsLargest(t);
    LeastRecentIsSmallest(t);
    if t != map[] {
      assert least in t;
    }
    if |t| < MinimumStoredComics && least > 0 {
      PageNumbersRange(least);
      forall k | k in NumbersOf(RefreshPage(remote, t, pageCompleted))
        ensures k <= least
      {
        HonestFanOutRow(t, remote, pageCompleted, k);
        assert k in multiset(PageNumbers(least));
      }
    }
  }

  /** Fetching a chain of numbers never deletes image files. */
  lemma {:induction false} AfterChainGrows(files: map<string, ImageStorage.Bytes>, remote: Remote, from: int, count: nat)
    ensures files.Keys <= AfterChain(files, remote, from, count).Keys
    decreases count
  {
    if count > 0 {
      AfterChainGrows(AfterFetch(files, remote, from), remote, from + 1, count - 1);
    }
  }

  /** A forward chain whose first fetch succeeds writes that comic's image, under its own number for an honest API. */
  lemma ChainWritesFirstImage(files: map<string, ImageStorage.Bytes>, remote: Remote, from: int, stop: int)
    requires Honest(remote)
    requires from <= stop && Fetch(remote, stop).Failure? && Fetch(remote, from).Success?
    ensures ImageStorage.FileName(from) in AfterChain(files, remote, from, |UpToNewest(remote, from, stop)| + 1)
  {
    UpToNewestStep(remote, from, stop);
    var count := |UpToNewest(remote, from, stop)| + 1;
    var afterFirst := AfterFetch(files, remote, from);
    SavedImageIffSuccess(remote, from);
    assert ImageStorage.FileName(from) in afterFirst;
    AfterChainGrows(afterFirst, remote, from + 1, count - 1);
  }

  /**
   * The refresh as written, with comic `m + 1` published, writes that
   * comic's image but stores no row for it, whatever the number of stored
   * comics.
   */
  lemma RefreshSavesImageWithoutRow(t: Table, remote: Remote, files: map<string, ImageStorage.Bytes>, stop: int,
                                    pageCompleted: seq<int>, forwardLast: bool)
    requires KeyedByNumber(t) && Honest(remote)
    requires MostRecentComicNumber(t) + 1 <= stop && Fetch(remote, stop).Failure?
    requires Fetch(remote, MostRecentComicNumber(t) + 1).Success?
    requires |t| < MinimumStoredComics && LeastRecentComicNumber(t) > 0 ==>
      multiset(pageCompleted) == multiset(PageNumbers(LeastRecentComicNumber(t)))
    ensures ImageStorage.FileName(MostRecentComicNumber(t) + 1) in AfterRefresh(files, remote, t, stop, pageCompleted)
    ensures MostRecentComicNumber(t) + 1 !in Upserted(t, RefreshBatch(RefreshPage(remote, t, pageCompleted), forwardLast))
  {
    RefreshWritesNewImage(t, remote, files, stop, pageCompleted);
    RefreshMissesNewComic(t, remote, stop, pageCompleted, forwardLast);
  }

  /** A refresh whose first forward fetch succeeds leaves that comic's image on disk, whether or not it pages. */
  lemma RefreshWritesNewImage(t: Table, remote: Remote, files: map<string, ImageStorage.Bytes>, stop: int,
                              pageCompleted: seq<int>)
    requires KeyedByNumber(t) && Honest(remote)
    requires MostRecentComicNumber(t) + 1 <= stop && Fetch(remote, stop).Failure?
    requires Fetch(remote, MostRecentComicNumber(t) + 1).Success?
    ensures ImageStorage.FileName(MostRecentComicNumber(t) + 1) in AfterRefresh(files, remote, t, stop, pageCompleted)
  {
    var from := MostRecentComicNumber(t) + 1;
    var afterChain := AfterChain(files, remote, from, |UpToNewest(remote, from, stop)| + 1);
    ChainWritesFirstImage(files, remote, from, stop);
    AfterPageGrows(afterChain, remote, t, pageCompleted);
    var result := if |t| < MinimumStoredComics then AfterPage(afterChain, remote, t, pageCompleted) else afterChain;
    AfterRefreshSteps(files, remote, t, stop, pageCompleted, afterChain, result);
  }

  /** Fetching a page never deletes image files. */
  lemma AfterPageGrows(files: map<string, ImageStorage.Bytes>, remote: Remote, t: Table, completed: seq<int>)
    requires KeyedByNumber(t)
    ensures files.Keys <= AfterPage(files, remote, t, completed).Keys
  {
    AfterFetchesGrows(files, remote, completed);
  }

  /** The intended refresh stores every comic of the forward chain and of the page. */
  lemma IntendedRefreshStoresAll(t: Table, newer: seq<ComicResultModel>, page: seq<ComicResultModel>, forwardLast: bool)
    ensures Upserted(t, IntendedRefreshBatch(newer, page, forwardLast)).Keys == t.Keys + NumbersOf(newer) + NumbersOf(page)
  {
    UpsertedAppend(t, newer, page);
    UpsertedAppend(t, page, newer);
    UpsertedKeys(t, newer);
    UpsertedKeys(t, page);
    UpsertedKeys(Upserted(t, newer), page);
    UpsertedKeys(Upserted(t, page), newer);
  }

  // ---------------------------------------------------------------------------
  // fetchNextPage: the closed range includes the oldest stored comic

  /**
   * As written, the page re-requests the oldest stored comic, and storing it
   * replaces its row by a newer one: a saved oldest comic loses its mark.
   */
  lemma PageResetsOldestSaved(t: Table, remote: Remote, completed: seq<int>)
    requires KeyedByNumber(t) && t != map[] && Honest(remote)
    requires LeastRecentComicNumber(t) > 0
    requires multiset(completed) == multiset(PageNumbers(LeastRecentComicNumber(t)))
    requires Fetch(remote, LeastRecentComicNumber(t)).Success?
    ensures LeastRecentComicNumber(t) in t
    ensures LeastRecentComicNumber(t) in Upserted(t, PageResults(remote, t, completed))
    ensures !Upserted(t, PageResults(remote, t, completed))[LeastRecentComicNumber(t)].isSaved
    ensures t[LeastRecentComicNumber(t)].isSaved ==>
      Upserted(t, PageResults(remote, t, completed))[LeastRecentComicNumber(t)] != t[LeastRecentComicNumber(t)]
  {
    var least := LeastRecentComicNumber(t);
    LeastRecentIsSmallest(t);
    PageNumbersRange(least);
    assert least in PageNumbers(least);
    assert least in multiset(PageNumbers(least));
    assert least in completed;
    HonestFanOutRow(t, remote, completed, least);
    UpsertedRowsUnsaved(t, Successes(remote, completed), least);
  }

  /** With the corrected page, every stored row survives the page's store unchanged. */
  lemma OlderPageKeepsStoredRows(t: Table, remote: Remote, completed: seq<int>)
    requires KeyedByNumber(t) && Honest(remote)
    requires LeastRecentComicNumber(t) > 0
    requires multiset(completed) == multiset(OlderPageNumbers(LeastRecentComicNumber(t)))
    ensures forall k :: k in t ==>
      k in Upserted(t, Successes(remote, completed)) && Upserted(t, Successes(remote, completed))[k] == t[k]
  {
    var least := LeastRecentComicNumber(t);
    LeastRecentIsSmallest(t);
    OlderPageNumbersRange(least);
    forall k | k in t
      ensures k in Upserted(t, Successes(remote, completed)) && Upserted(t, Successes(remote, completed))[k] == t[k]
    {
      HonestFanOutRow(t, remote, completed, k);
      assert k !in multiset(completed);
      UpsertedRow(t, Successes(remote, completed), k);
    }
  }
}
