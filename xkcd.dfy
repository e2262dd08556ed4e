/**
 * The persisted comic record (`class XKCD: Object` in the Realm database).
 * Realm needs a no-argument initialiser, so every property starts from a
 * placeholder default and the fetcher overwrites them.
 */
module Xkcd {
  import opened Wrappers

  /**
   * A calendar date, kept as the year, month and day components it is
   * built from. A component is `None` when the text it came from is not a
   * number; turning components into an instant is the calendar's business
   * and is not modelled.
   */
  datatype Date = Date(year: Option<int>, month: Option<int>, day: Option<int>)

  datatype XKCD = XKCD(
    number: int,
    title: string,
    caption: string,
    date: Date,
    imageHeight: real,
    imageWidth: real,
    isSaved: bool)

  /**
   * `XKCD()`: a record with every property at its default. The default
   * `date` is the current date, which the caller supplies as `now`.
   */
  function New(now: Date): (x: XKCD)
    ensures x.number == 0 && x.title == "" && x.caption == ""
    ensures x.imageHeight == 0.0 && x.imageWidth == 0.0
    ensures !x.isSaved
    ensures x.date == now
  {
    XKCD(0, "", "", now, 0.0, 0.0, false)
  }

  /** The comic table: the row stored under each primary-key value. */
  type Table = map<int, XKCD>

  /**
   * `primaryKey()` is `number`: every row sits under its own `number`, so a
   * number has at most one row.
   */
  ghost predicate KeyedByNumber(t: Table) {
    forall k :: k in t ==> t[k].number == k
  }

  /** Under the primary-key invariant, two rows with the same number are the same row. */
  lemma OneRowPerNumber(t: Table, j: int, k: int)
    requires KeyedByNumber(t)
    requires j in t && k in t && t[j].number == t[k].number
    ensures j == k && t[j] == t[k]
  {
  }
}
