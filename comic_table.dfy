/**
 * The Realm query `objects(XKCD.self).sorted(byKeyPath: "number", ascending: false)`,
 * shared by the fetcher (for its anchors) and the feed section (for its rows).
 */
module ComicTable {
  import opened Xkcd

  /** `m` is an element of `s` and no element of `s` exceeds it. */
  predicate IsMaximum(s: set<int>, m: int) {
    m in s && forall y :: y in s ==> y <= m
  }

  /** A set with no element is the empty set. */
  lemma EmptyOrInhabited(s: set<int>)
    ensures s == {} || exists y :: y in s
  {
    if forall y :: y !in s {
      assert s == {};
    }
  }

  /** A non-empty finite set of integers has a largest element. */
  lemma {:induction false} MaximumExists(s: set<int>)
    requires s != {}
    ensures exists m :: IsMaximum(s, m)
    decreases |s|
  {
    EmptyOrInhabited(s);
    var x :| x in s;
    var rest := s - {x};
    assert forall y :: y in s ==> y == x || y in rest;
    if rest == {} {
      assert IsMaximum(s, x);
    } else {
      MaximumExists(rest);
      var m :| IsMaximum(rest, m);
      var top := if m < x then x else m;
      assert IsMaximum(s, top);
    }
  }

  /** The largest element of a non-empty set. */
  function Max(s: set<int>): (m: int)
    requires s != {}
    ensures m in s && forall y :: y in s ==> y <= m
  {
    MaximumExists(s);
    var m :| IsMaximum(s, m);
    m
  }

  /** The elements of `s`, largest first. */
  function SortedDescending(s: set<int>): (r: seq<int>)
    ensures |r| == |s|
    ensures forall i :: 0 <= i < |r| ==> r[i] in s
    ensures forall x {:trigger x in r} :: x in s ==> x in r
    ensures forall i, j :: 0 <= i < j < |r| ==> r[i] > r[j]
    decreases |s|
  {
    if s == {} then []
    else
      var m := Max(s);
      var rest := SortedDescending(s - {m});
      assert forall i :: 0 <= i < |rest| ==> rest[i] < m;
      [m] + rest
  }

  /** The rows stored under `keys`, in the order of `keys`. */
  function RowsAt(t: Table, keys: seq<int>): (rows: seq<XKCD>)
    requires forall i :: 0 <= i < |keys| ==> keys[i] in t
    ensures |rows| == |keys|
    ensures forall i :: 0 <= i < |keys| ==> rows[i] == t[keys[i]]
  {
    if keys == [] then [] else [t[keys[0]]] + RowsAt(t, keys[1..])
  }

  /** The stored rows ordered by `number`, largest first. */
  function ByNumberDescending(t: Table): (rows: seq<XKCD>)
    requires KeyedByNumber(t)
    ensures |rows| == |t|
    ensures forall i :: 0 <= i < |rows| ==> rows[i] == t[SortedDescending(t.Keys)[i]]
  {
    RowsAt(t, SortedDescending(t.Keys))
  }

  /** Each row of the descending view is a stored row, under its own number. */
  lemma ByNumberDescendingRows(t: Table)
    requires KeyedByNumber(t)
    ensures forall i :: 0 <= i < |ByNumberDescending(t)| ==>
      ByNumberDescending(t)[i].number in t && t[ByNumberDescending(t)[i].number] == ByNumberDescending(t)[i]
  {
    var keys := SortedDescending(t.Keys);
    var rows := ByNumberDescending(t);
    forall i | 0 <= i < |rows| ensures rows[i].number in t && t[rows[i].number] == rows[i] {
      assert keys[i] in t;
    }
  }

  /** Every stored number appears in the descending view. */
  lemma ByNumberDescendingCovers(t: Table)
    requires KeyedByNumber(t)
    ensures forall k :: k in t ==> exists i :: 0 <= i < |ByNumberDescending(t)| && ByNumberDescending(t)[i].number == k
  {
    var keys := SortedDescending(t.Keys);
    var rows := ByNumberDescending(t);
    forall k | k in t ensures exists i :: 0 <= i < |rows| && rows[i].number == k {
      assert k in keys;
      var i :| 0 <= i < |keys| && keys[i] == k;
      assert rows[i].number == k;
    }
  }

  /** The descending view is strictly decreasing in `number`. */
  lemma ByNumberDescendingSorted(t: Table)
    requires KeyedByNumber(t)
    ensures forall i, j :: 0 <= i < j < |ByNumberDescending(t)| ==> ByNumberDescending(t)[i].number > ByNumberDescending(t)[j].number
  {
    var keys := SortedDescending(t.Keys);
    var rows := ByNumberDescending(t);
    forall i | 0 <= i < |rows| ensures rows[i].number == keys[i] {
      assert keys[i] in t;
    }
  }

  /** The rows before position `i` of the descending view are stored rows with larger numbers. */
  lemma RowsBeforeAreLarger(t: Table, i: int)
    requires KeyedByNumber(t)
    requires 0 <= i < |t|
    ensures forall j :: 0 <= j < i ==>
      ByNumberDescending(t)[j].number in t && ByNumberDescending(t)[j].number > ByNumberDescending(t)[i].number
  {
    var keys := SortedDescending(t.Keys);
    var rows := ByNumberDescending(t);
    forall j | 0 <= j <= i
      ensures rows[j].number == keys[j]
    {
      assert keys[j] in t;
    }
  }

  /** Every stored number larger than that of the row at position `i` belongs to a row before it. */
  lemma LargerNumbersComeBefore(t: Table, i: int)
    requires KeyedByNumber(t)
    requires 0 <= i < |t|
    ensures forall k :: k in t && k > ByNumberDescending(t)[i].number ==>
      exists j :: 0 <= j < i && ByNumberDescending(t)[j].number == k
  {
    var keys := SortedDescending(t.Keys);
    var rows := ByNumberDescending(t);
    assert keys[i] in t;
    assert rows[i].number == keys[i];
    forall k | k in t && k > keys[i]
      ensures exists j :: 0 <= j < i && rows[j].number == k
    {
      assert k in keys;
      var j :| 0 <= j < |keys| && keys[j] == k;
      assert keys[j] in t;
      assert rows[j].number == k;
    }
  }
}
