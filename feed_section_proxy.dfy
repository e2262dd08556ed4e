/**
 * The feed section of the main collection view (`FeedSectionProxy`): it shows
 * the stored comics newest first, asks the fetcher for another page when the
 * fifth item from the end scrolls into view, and forwards the table's change
 * notifications to the collection view it was attached to.
 */
module FeedSectionProxy {
  import opened Wrappers
  import opened Xkcd
  import opened ComicTable
  import ComicFetcher

  /** The cell class the section registers and dequeues. */
  const FeedCellIdentifier := "FeedCell"
  /** How many items before the end of the feed the next page is requested. */
  const PrefetchDistance := 5

  /** A change notification of the sorted comics query. */
  datatype RealmChange =
    | Initial
    | Update(deletions: seq<int>, insertions: seq<int>, modifications: seq<int>)
    | Error

  /** What the section asks its collection view to redraw. */
  datatype SectionUpdate =
    | ReloadSection(section: int)
    | BatchUpdate(section: int, deletions: seq<int>, insertions: seq<int>, modifications: seq<int>)

  /** The collection view, reduced to the cell classes registered with it and the redraws asked of it. */
  class CollectionView {
    var registered: set<string>
    var updates: seq<SectionUpdate>

    constructor ()
      ensures registered == {} && updates == []
    {
      registered := {};
      updates := [];
    }
  }

  /** The view controller that hosts the section. */
  class ContentViewController {
  }

  /** Whether displaying `item` of a feed of `count` items requests the next page. */
  predicate TriggersPrefetch(item: int, count: int) {
    item == count - PrefetchDistance
  }

  /** The prefetch fires for exactly one item of a feed of at least five comics, and for none of a shorter one. */
  lemma PrefetchItem(count: nat)
    ensures count < PrefetchDistance ==> forall item :: 0 <= item < count ==> !TriggersPrefetch(item, count)
    ensures count >= PrefetchDistance ==>
      0 <= count - PrefetchDistance < count && TriggersPrefetch(count - PrefetchDistance, count)
      && forall item :: TriggersPrefetch(item, count) ==> item == count - PrefetchDistance
  {
  }

  class FeedSectionProxy {
    /** The comic table and the fetcher that fills it. */
    const fetcher: ComicFetcher.ComicFetcher
    /** Weak references to the hosting views, set by `DidMove`. */
    var collectionView: Option<CollectionView>
    var presentingViewController: Option<ContentViewController>
    var contentSectionIndex: int
    /** Whether the notification token is live. */
    var observing: bool

    /** `init`: starts observing the sorted comics; nothing is attached yet. */
    constructor (fetcher: ComicFetcher.ComicFetcher)
      ensures this.fetcher == fetcher
      ensures collectionView == None && presentingViewController == None
      ensures contentSectionIndex == 0 && observing
    {
      this.fetcher := fetcher;
      collectionView := None;
      presentingViewController := None;
      contentSectionIndex := 0;
      observing := true;
    }

    /** `comics`: every stored row, by number descending. */
    function Comics(): seq<XKCD>
      reads this, fetcher
      requires fetcher.Valid()
    {
      ByNumberDescending(fetcher.table)
    }

    /** The observer block: redraw the section this proxy was moved to, if it is attached. */
    method OnChange(change: RealmChange)
      requires observing
      modifies if collectionView.Some? then {collectionView.value} else {}
      ensures collectionView.Some? ==> collectionView.value.updates == old(collectionView.value.updates) + match change
        case Initial => [ReloadSection(contentSectionIndex)]
        case Update(d, i, m) => [BatchUpdate(contentSectionIndex, d, i, m)]
        case Error => []
      ensures collectionView.Some? ==> collectionView.value.registered == old(collectionView.value.registered)
    {
      if collectionView.Some? {
        var view := collectionView.value;
        match change {
          case Initial => view.updates := view.updates + [ReloadSection(contentSectionIndex)];
          case Update(d, i, m) => view.updates := view.updates + [BatchUpdate(contentSectionIndex, d, i, m)];
          case Error =>
        }
      }
    }

    /** `didMove(to:in:with:)`: remember where the section lives and register its cell. */
    method DidMove(section: int, view: CollectionView, parent: ContentViewController)
      modifies this, view
      ensures collectionView == Some(view) && presentingViewController == Some(parent)
      ensures contentSectionIndex == section && observing == old(observing)
      ensures view.registered == old(view.registered) + {FeedCellIdentifier}
      ensures view.updates == old(view.updates)
    {
      collectionView := Some(view);
      presentingViewController := Some(parent);
      contentSectionIndex := section;
      view.registered := view.registered + {FeedCellIdentifier};
    }

    /** `deinit`: invalidate the token. */
    method Deinit()
      modifies this
      ensures !observing
      ensures collectionView == old(collectionView) && contentSectionIndex == old(contentSectionIndex)
      ensures presentingViewController == old(presentingViewController)
    {
      observing := false;
    }

    /** `numberOfItemsInSection`: one item per stored comic. */
    method NumberOfItemsInSection(section: int) returns (count: int)
      requires fetcher.Valid()
      ensures count == |Comics()| == |fetcher.table|
    {
      count := |Comics()|;
    }

    /** `cellForItemAt`: item `i` shows the stored comic with the (i+1)-th largest number. */
    method CellForItemAt(item: int) returns (comic: XKCD)
      requires fetcher.Valid()
      requires 0 <= item < |fetcher.table|
      ensures comic == Comics()[item]
      ensures comic.number in fetcher.table && fetcher.table[comic.number] == comic
      ensures forall j :: 0 <= j < item ==> Comics()[j].number in fetcher.table && Comics()[j].number > comic.number
      ensures forall k :: k in fetcher.table && k > comic.number ==> exists j :: 0 <= j < item && Comics()[j].number == k
      ensures forall j, j' :: 0 <= j < j' <= item ==> Comics()[j].number > Comics()[j'].number
    {
      comic := Comics()[item];
      ByNumberDescendingRows(fetcher.table);
      RowsBeforeAreLarger(fetcher.table, item);
      LargerNumbersComeBefore(fetcher.table, item);
      ByNumberDescendingSorted(fetcher.table);
    }

    /**
     * `willDisplay`: when the fifth item from the end appears, fetch and store
     * the next page; `remote`, `completed` and `now` are as for
     * `FetchMoreComics`.
     */
    method WillDisplay(item: int, remote: ComicFetcher.Remote, completed: seq<int>, now: Date)
      requires fetcher.Valid()
      requires TriggersPrefetch(item, |fetcher.table|) && ComicFetcher.LeastRecentComicNumber(fetcher.table) > 0 ==>
        multiset(completed) == multiset(ComicFetcher.PageNumbers(ComicFetcher.LeastRecentComicNumber(fetcher.table)))
      modifies fetcher, fetcher.storage
      ensures fetcher.Valid()
      ensures TriggersPrefetch(item, old(|fetcher.table|)) ==>
        fetcher.table == ComicFetcher.Upserted(old(fetcher.table), ComicFetcher.PageResults(remote, old(fetcher.table), completed))
        && fetcher.storage.files == ComicFetcher.AfterPage(old(fetcher.storage.files), remote, old(fetcher.table), completed)
      ensures !TriggersPrefetch(item, old(|fetcher.table|)) ==>
        fetcher.table == old(fetcher.table) && fetcher.storage.files == old(fetcher.storage.files)
    {
      var count := NumberOfItemsInSection(contentSectionIndex);
      if item == count - PrefetchDistance {
        fetcher.FetchMoreComics(remote, completed, now);
      }
    }
  }
}
