/** Keyset pagination: a page is the next rows after a cursor in key order, with one extra row
    fetched to learn whether there is more. Rows may come and go between pages. */
module Paging {
  import opened Prelude

  /** A strict total order. */
  ghost predicate StrictOrder<K(!new)>(less: (K, K) -> bool) {
    && (forall a :: !less(a, a))
    && (forall a, b, c :: less(a, b) && less(b, c) ==> less(a, c))
    && (forall a, b :: less(a, b) || a == b || less(b, a))
  }

  ghost predicate Ascending<K(!new)>(less: (K, K) -> bool, s: seq<K>) {
    forall i, j :: 0 <= i < j < |s| ==> less(s[i], s[j])
  }

  /** What `WHERE key > cursor ORDER BY key LIMIT limit` returns over the matching keys `all`. */
  ghost predicate Fetched<K(!new)>(less: (K, K) -> bool, all: set<K>, cursor: K, limit: nat, rows: seq<K>) {
    && |rows| <= limit
    && Ascending(less, rows)
    && (forall i :: 0 <= i < |rows| ==> rows[i] in all && less(cursor, rows[i]))
    && (forall k :: k in all && less(cursor, k) ==>
          k in rows || (|rows| == limit && forall i :: 0 <= i < |rows| ==> less(rows[i], k)))
  }

  /** The page shown of what was fetched, and the cursor of the next page when there is one. */
  function ToPage<K>(rows: seq<K>, size: nat): (seq<K>, Option<K>)
    requires size >= 1
  {
    if |rows| > size then (rows[..size], Some(rows[size - 1])) else (rows, None)
  }

  const PAGE_SIZE_MAX: int := 1000
  const PAGE_SIZE_DEFAULT: int := 100

  function ClampPageSize(requested: int): (size: nat)
    ensures 1 <= size <= PAGE_SIZE_MAX
    ensures 1 <= requested <= PAGE_SIZE_MAX ==> size == requested
    ensures requested > 1000 ==> size == 1000
    ensures requested <= 0 ==> size == 100
  {
    if requested <= 0 then PAGE_SIZE_DEFAULT else Min(requested, PAGE_SIZE_MAX)
  }

  // ---------- walks ----------

  /** A walk: what each request fetched, from which set of matching keys. */
  datatype Walk<!K(!new)> = Walk(sets: seq<set<K>>, fetched: seq<seq<K>>, start: K, size: nat)
  {
    /** The cursor the `i`-th request sent. */
    function Cursor(i: nat): K {
      if size >= 1 && 1 <= i <= |fetched| && |fetched[i - 1]| >= size then fetched[i - 1][size - 1] else start
    }
  }

  /** Every request but possibly the last found more than a page, so the next one continued from its cursor. */
  ghost predicate IsWalk<K(!new)>(less: (K, K) -> bool, w: Walk<K>) {
    && w.size >= 1 && |w.sets| == |w.fetched| >= 1
    && (forall i :: 0 <= i < |w.fetched| - 1 ==> |w.fetched[i]| > w.size)
    && (forall i :: 0 <= i < |w.fetched| ==> Fetched(less, w.sets[i], w.Cursor(i), w.size + 1, w.fetched[i]))
  }

  /** The walk reached the empty token. */
  predicate Finished<K(!new)>(w: Walk<K>) {
    |w.fetched| >= 1 && |w.fetched[|w.fetched| - 1]| <= w.size
  }

  /** The rows of the first `n` pages, in the order they were shown. */
  function Shown<K(!new)>(w: Walk<K>, n: nat): seq<K>
    requires w.size >= 1 && n <= |w.fetched|
  {
    if n == 0 then [] else Shown(w, n - 1) + ToPage(w.fetched[n - 1], w.size).0
  }

  ghost predicate AllUpTo<K(!new)>(less: (K, K) -> bool, s: seq<K>, top: K) {
    forall i :: 0 <= i < |s| ==> s[i] == top || less(s[i], top)
  }

  ghost predicate AllAfter<K(!new)>(less: (K, K) -> bool, s: seq<K>, bottom: K) {
    forall i :: 0 <= i < |s| ==> less(bottom, s[i])
  }

  lemma Transitive<K(!new)>(less: (K, K) -> bool, a: K, b: K, c: K)
    requires StrictOrder(less) && less(a, b) && less(b, c)
    ensures less(a, c)
  {}

  lemma NotBoth<K(!new)>(less: (K, K) -> bool, a: K, b: K)
    requires StrictOrder(less)
    ensures !(less(a, b) && less(b, a)) && !less(a, a)
  {}

  lemma AppendPage<K(!new)>(less: (K, K) -> bool, shown: seq<K>, cursor: K, page: seq<K>)
    requires StrictOrder(less) && Ascending(less, shown) && Ascending(less, page)
    requires AllUpTo(less, shown, cursor) && AllAfter(less, page, cursor)
    ensures Ascending(less, shown + page)
  {
    hide StrictOrder;
    var s := shown + page;
    forall i, j | 0 <= i < j < |s| ensures less(s[i], s[j]) {
      if i < |shown| && j >= |shown| {
        assert less(cursor, page[j - |shown|]);
        if shown[i] != cursor { Transitive(less, shown[i], cursor, page[j - |shown|]); }
      }
    }
  }

  lemma RaiseTop<K(!new)>(less: (K, K) -> bool, shown: seq<K>, cursor: K, top: K)
    requires StrictOrder(less) && AllUpTo(less, shown, cursor) && less(cursor, top)
    ensures AllUpTo(less, shown, top)
  {
    hide StrictOrder;
    forall i | 0 <= i < |shown| ensures less(shown[i], top) {
      if shown[i] != cursor { Transitive(less, shown[i], cursor, top); }
    }
  }

  /** One page, whatever the set it was drawn from. */
  lemma PageFacts<K(!new)>(less: (K, K) -> bool, all: set<K>, cursor: K, size: nat, rows: seq<K>)
    requires size >= 1 && Fetched(less, all, cursor, size + 1, rows)
    ensures
      var page := ToPage(rows, size).0;
      && Ascending(less, page) && AllAfter(less, page, cursor)
      && (forall x :: x in page ==> x in all)
      && (|rows| >= size ==> AllUpTo(less, page, rows[size - 1]) && less(cursor, rows[size - 1]))
  {}

  /** Pages follow one another in strict key order. */
  lemma {:induction false} PagesAscend<K(!new)>(less: (K, K) -> bool, w: Walk<K>, n: nat)
    requires StrictOrder(less) && IsWalk(less, w) && n <= |w.fetched|
    ensures Ascending(less, Shown(w, n))
    ensures n < |w.fetched| ==> AllUpTo(less, Shown(w, n), w.Cursor(n))
  {
    hide StrictOrder, Fetched, Ascending, AllUpTo, AllAfter;
    if n > 0 {
      PagesAscend(less, w, n - 1);
      var rows := w.fetched[n - 1];
      var cursor := w.Cursor(n - 1);
      PageFacts(less, w.sets[n - 1], cursor, w.size, rows);
      AppendPage(less, Shown(w, n - 1), cursor, ToPage(rows, w.size).0);
      if n < |w.fetched| {
        RaiseTop(less, Shown(w, n - 1), cursor, w.Cursor(n));
        BothUpTo(less, Shown(w, n - 1), ToPage(rows, w.size).0, w.Cursor(n));
      }
    } else {
      NothingShown(less, w.start);
    }
  }

  lemma NothingShown<K(!new)>(less: (K, K) -> bool, top: K)
    ensures Ascending(less, []) && AllUpTo(less, [], top)
  {}

  lemma BothUpTo<K(!new)>(less: (K, K) -> bool, a: seq<K>, b: seq<K>, top: K)
    requires AllUpTo(less, a, top) && AllUpTo(less, b, top)
    ensures AllUpTo(less, a + b, top)
  {}

  /** Every key shown lies after the start and was matching when its page was fetched. */
  lemma {:induction false} ShownMatched<K(!new)>(less: (K, K) -> bool, w: Walk<K>, n: nat, x: K)
    requires StrictOrder(less) && IsWalk(less, w) && n <= |w.fetched| && x in Shown(w, n)
    ensures less(w.start, x)
    ensures exists i :: 0 <= i < n && x in ToPage(w.fetched[i], w.size).0 && x in w.sets[i]
  {
    hide StrictOrder, Fetched, Ascending, AllUpTo;
    var page := ToPage(w.fetched[n - 1], w.size).0;
    if x in Shown(w, n - 1) {
      ShownMatched(less, w, n - 1, x);
    } else {
      assert x in page;
      PageFacts(less, w.sets[n - 1], w.Cursor(n - 1), w.size, w.fetched[n - 1]);
      assert x in w.sets[n - 1] && less(w.Cursor(n - 1), x);
      if n > 1 {
        CursorAfterStart(less, w, n - 1);
        Transitive(less, w.start, w.Cursor(n - 1), x);
      }
    }
  }

  lemma {:induction false} CursorAfterStart<K(!new)>(less: (K, K) -> bool, w: Walk<K>, n: nat)
    requires StrictOrder(less) && IsWalk(less, w) && 0 < n < |w.fetched|
    ensures less(w.start, w.Cursor(n))
    decreases n
  {
    hide StrictOrder, Fetched, Ascending, AllUpTo, AllAfter;
    PageFacts(less, w.sets[n - 1], w.Cursor(n - 1), w.size, w.fetched[n - 1]);
    if n > 1 {
      CursorAfterStart(less, w, n - 1);
      Transitive(less, w.start, w.Cursor(n - 1), w.Cursor(n));
    }
  }

  /** A matching key ahead of the cursor is on the page or ahead of the next cursor. */
  lemma KeyIsShownOrAhead<K(!new)>(less: (K, K) -> bool, all: set<K>, cursor: K, size: nat, rows: seq<K>, k: K)
    requires StrictOrder(less) && size >= 1 && Fetched(less, all, cursor, size + 1, rows)
    requires k in all && less(cursor, k)
    ensures |rows| <= size ==> k in ToPage(rows, size).0
    ensures |rows| > size ==> k in ToPage(rows, size).0 || less(rows[size - 1], k)
  {
    hide StrictOrder;
    if |rows| > size {
      assert less(rows[size - 1], rows[size]);
      if k in rows && k !in rows[..size] {
        assert k == rows[size];
      }
    }
  }

  /** A key that matched at every fetch so far has been shown, or still lies ahead of the cursor. */
  lemma {:induction false} StableKeyIsAhead<K(!new)>(less: (K, K) -> bool, w: Walk<K>, n: nat, k: K)
    requires StrictOrder(less) && IsWalk(less, w) && n < |w.fetched|
    requires less(w.start, k) && forall i :: 0 <= i < |w.sets| ==> k in w.sets[i]
    ensures k in Shown(w, n) || less(w.Cursor(n), k)
  {
    hide StrictOrder, Fetched;
    if n > 0 {
      StableKeyIsAhead(less, w, n - 1, k);
      if less(w.Cursor(n - 1), k) {
        KeyIsShownOrAhead(less, w.sets[n - 1], w.Cursor(n - 1), w.size, w.fetched[n - 1], k);
      }
    }
  }

  /** Following tokens from the start to the empty one shows, in order, every row that matched throughout
      exactly once, shows no row twice, and shows on each page only what matched when it was fetched. */
  lemma WalkIsExact<K(!new)>(less: (K, K) -> bool, w: Walk<K>, k: K)
    requires StrictOrder(less) && IsWalk(less, w) && Finished(w)
    ensures
      var shown := Shown(w, |w.fetched|);
      && Ascending(less, shown)
      && (less(w.start, k) && (forall i :: 0 <= i < |w.sets| ==> k in w.sets[i]) ==> k in shown)
      && (forall i :: 0 <= i < |w.sets| && k in ToPage(w.fetched[i], w.size).0 ==> k in w.sets[i])
      && (k in shown ==> less(w.start, k) && exists i :: 0 <= i < |w.sets| && k in ToPage(w.fetched[i], w.size).0)
  {
    hide StrictOrder, Fetched, Ascending, IsWalk;
    SetsPerFetch(less, w);
    var n := |w.fetched|;
    PagesAscend(less, w, n);
    if k in Shown(w, n) { ShownMatched(less, w, n, k); }
    forall i | 0 <= i < |w.sets| && k in ToPage(w.fetched[i], w.size).0 ensures k in w.sets[i] {
      PageMatched(less, w, i, k);
    }
    if less(w.start, k) && forall i :: 0 <= i < |w.sets| ==> k in w.sets[i] { StableKeyIsShown(less, w, k); }
  }

  /** What a page shows matched when that page was fetched. */
  lemma PageMatched<K(!new)>(less: (K, K) -> bool, w: Walk<K>, i: nat, k: K)
    requires IsWalk(less, w) && i < |w.fetched| && k in ToPage(w.fetched[i], w.size).0
    ensures k in w.sets[i]
  {
    hide Fetched, Ascending;
    PageFacts(less, w.sets[i], w.Cursor(i), w.size, w.fetched[i]);
  }

  lemma FetchOf<K(!new)>(less: (K, K) -> bool, w: Walk<K>, i: nat)
    requires IsWalk(less, w) && i < |w.fetched|
    ensures Fetched(less, w.sets[i], w.Cursor(i), w.size + 1, w.fetched[i])
  {}

  lemma StableKeyIsShown<K(!new)>(less: (K, K) -> bool, w: Walk<K>, k: K)
    requires StrictOrder(less) && IsWalk(less, w) && Finished(w)
    requires less(w.start, k) && forall i :: 0 <= i < |w.sets| ==> k in w.sets[i]
    ensures k in Shown(w, |w.fetched|)
  {
    hide StrictOrder, Fetched, IsWalk;
    SetsPerFetch(less, w);
    var n := |w.fetched|;
    StableKeyIsAhead(less, w, n - 1, k);
    assert Shown(w, n) == Shown(w, n - 1) + ToPage(w.fetched[n - 1], w.size).0;
    if less(w.Cursor(n - 1), k) {
      FetchOf(less, w, n - 1);
      KeyIsShownOrAhead(less, w.sets[n - 1], w.Cursor(n - 1), w.size, w.fetched[n - 1], k);
    }
  }

  // ---------- how many pages ----------

  ghost function After<K(!new)>(less: (K, K) -> bool, all: set<K>, cursor: K): set<K> {
    set k | k in all && less(cursor, k)
  }

  /** The matching keys of the first fetch are never lost, and keys that appear later sort before all of
      them: a static table, or a descending walk over a log that only grows. */
  ghost predicate Settled<K(!new)>(less: (K, K) -> bool, w: Walk<K>) {
    && |w.sets| >= 1
    && forall i :: 0 <= i < |w.sets| ==>
         && w.sets[0] <= w.sets[i]
         && forall a, k :: a in w.sets[i] && a !in w.sets[0] && k in w.sets[0] ==> less(a, k)
  }

  lemma {:induction false} ShownLength<K(!new)>(w: Walk<K>, n: nat)
    requires w.size >= 1 && n <= |w.fetched| && forall i :: 0 <= i < n ==> |w.fetched[i]| > w.size
    ensures |Shown(w, n)| == n * w.size
  {
    if n > 0 {
      ShownLength(w, n - 1);
      assert n * w.size == (n - 1) * w.size + w.size;
    }
  }

  lemma {:induction false} ToSet<K(!new)>(less: (K, K) -> bool, s: seq<K>)
    requires StrictOrder(less) && Ascending(less, s)
    ensures |(set x | x in s)| == |s|
  {
    hide StrictOrder;
    if s != [] {
      var init, last := s[..|s| - 1], s[|s| - 1];
      ToSet(less, init);
      NotBoth(less, last, last);
      assert forall i :: 0 <= i < |init| ==> less(init[i], last);
      assert last !in init;
      assert (set x | x in s) == (set x | x in init) + {last};
    }
  }

  /** In a settled walk every cursor was already matching at the first fetch, so what lies after it was too. */
  lemma AfterSettledCursor<K(!new)>(less: (K, K) -> bool, w: Walk<K>, i: nat, cursor: K, x: K)
    requires StrictOrder(less) && Settled(less, w) && i < |w.sets|
    requires cursor in w.sets[0] && x in w.sets[i] && less(cursor, x)
    ensures x in w.sets[0]
  {
    hide StrictOrder;
    NotBoth(less, cursor, x);
  }

  /** In a settled walk everything shown matched at the first fetch. */
  lemma {:induction false} SettledShown<K(!new)>(less: (K, K) -> bool, w: Walk<K>, n: nat)
    requires StrictOrder(less) && IsWalk(less, w) && Settled(less, w) && n <= |w.fetched|
    ensures forall x :: x in Shown(w, n) ==> x in w.sets[0]
    ensures 0 < n < |w.fetched| ==> w.Cursor(n) in w.sets[0]
  {
    hide StrictOrder, Fetched, Settled, Ascending;
    if n > 0 {
      SettledShown(less, w, n - 1);
      var page := ToPage(w.fetched[n - 1], w.size).0;
      var cursor := w.Cursor(n - 1);
      PageFacts(less, w.sets[n - 1], cursor, w.size, w.fetched[n - 1]);
      forall x | x in page ensures x in w.sets[0] {
        if n > 1 { AfterSettledCursor(less, w, n - 1, cursor, x); }
      }
      if n < |w.fetched| { assert page[w.size - 1] == w.Cursor(n); }
    }
  }

  lemma FullPagesFit<K(!new)>(less: (K, K) -> bool, w: Walk<K>, full: nat)
    requires StrictOrder(less) && IsWalk(less, w) && Settled(less, w) && full <= |w.fetched|
    requires forall i :: 0 <= i < full ==> |w.fetched[i]| > w.size
    ensures full * w.size <= |After(less, w.sets[0], w.start)|
  {
    hide StrictOrder, Settled, Ascending, Fetched, IsWalk;
    SetsPerFetch(less, w);
    var shown, all := Shown(w, full), After(less, w.sets[0], w.start);
    PagesAscend(less, w, full);
    SettledShown(less, w, full);
    forall x | x in shown ensures x in all { ShownMatched(less, w, full, x); }
    ToSet(less, shown);
    Subset((set x | x in shown), all);
    ShownLength(w, full);
  }

  /** A settled walk never fetches more full pages than the first snapshot fills: it terminates. */
  lemma SettledWalkTerminates<K(!new)>(less: (K, K) -> bool, w: Walk<K>)
    requires StrictOrder(less) && IsWalk(less, w) && Settled(less, w)
    ensures (|w.fetched| - 1) * w.size <= |After(less, w.sets[0], w.start)|
    ensures !Finished(w) ==> |w.fetched| * w.size <= |After(less, w.sets[0], w.start)|
  {
    hide StrictOrder, Settled, Fetched, After;
    FullPagesFit(less, w, |w.fetched| - 1);
    if !Finished(w) { FullPagesFit(less, w, |w.fetched|); }
  }

  lemma Subset<K>(a: set<K>, b: set<K>)
    requires a <= b
    ensures |a| <= |b|
  {
    assert b == a + (b - a);
  }

  lemma SettledWalkShowsSnapshot<K(!new)>(less: (K, K) -> bool, w: Walk<K>)
    requires StrictOrder(less) && IsWalk(less, w) && Settled(less, w) && Finished(w)
    ensures
      var shown, all := Shown(w, |w.fetched|), After(less, w.sets[0], w.start);
      && Ascending(less, shown) && (set x | x in shown) == all && |shown| == |all|
  {
    hide StrictOrder, Ascending, Fetched, IsWalk;
    SetsPerFetch(less, w);
    var n, all := |w.fetched|, After(less, w.sets[0], w.start);
    var shown := Shown(w, n);
    PagesAscend(less, w, n);
    SettledShown(less, w, n);
    forall x | x in shown ensures x in all { ShownMatched(less, w, n, x); }
    forall k | k in all ensures k in shown { WalkIsExact(less, w, k); }
    ToSet(less, shown);
  }

  lemma SetsPerFetch<K(!new)>(less: (K, K) -> bool, w: Walk<K>)
    requires IsWalk(less, w)
    ensures |w.sets| == |w.fetched| >= 1 && w.size >= 1
  {}

  /** A finished settled walk shows exactly the first snapshot, in order, over max(1, ceil(n / size)) pages. */
  lemma SettledWalkIsSnapshot<K(!new)>(less: (K, K) -> bool, w: Walk<K>)
    requires StrictOrder(less) && IsWalk(less, w) && Settled(less, w) && Finished(w)
    ensures
      var n, all := |w.fetched|, After(less, w.sets[0], w.start);
      && Ascending(less, Shown(w, n))
      && (set x | x in Shown(w, n)) == all
      && n == PageCount(|all|, w.size)
  {
    hide StrictOrder, Ascending, IsWalk, Settled, After;
    SetsPerFetch(less, w);
    SettledWalkShowsSnapshot(less, w);
    FinishedLength(less, w);
    if |w.fetched| > 1 { LastPageIsNotEmpty(less, w); }
    PagesOfRows(|Shown(w, |w.fetched|)|, w.size, |w.fetched|, |w.fetched[|w.fetched| - 1]|);
  }

  lemma FinishedLength<K(!new)>(less: (K, K) -> bool, w: Walk<K>)
    requires IsWalk(less, w) && Finished(w)
    ensures |Shown(w, |w.fetched|)| == (|w.fetched| - 1) * w.size + |w.fetched[|w.fetched| - 1]|
  {
    hide Fetched;
    ShownLength(w, |w.fetched| - 1);
  }

  /** The pages that `n` rows take, an empty one for none. */
  function PageCount(n: nat, size: nat): nat
    requires size >= 1
  {
    Max(1, (n + size - 1) / size)
  }

  lemma PagesOfRows(n: nat, size: nat, pages: nat, last: nat)
    requires size >= 1 && pages >= 1 && n == (pages - 1) * size + last && last <= size
    requires pages > 1 ==> last > 0
    ensures pages == PageCount(n, size)
  {
    if last == 0 {
      DivideRow(0, size, size - 1);
    } else {
      assert pages * size == (pages - 1) * size + size;
      DivideRow(pages, size, last - 1);
    }
  }

  lemma DivideRow(q: nat, size: nat, rest: nat)
    requires rest < size
    ensures (q * size + rest) / size == q
  {
    var d := (q * size + rest) / size;
    assert d * size <= q * size + rest < d * size + size;
    assert d < q ==> (d + 1) * size <= q * size;
    assert d > q ==> (q + 1) * size <= d * size;
  }

  lemma ExtraRow<K(!new)>(less: (K, K) -> bool, all: set<K>, cursor: K, size: nat, rows: seq<K>)
    requires size >= 1 && Fetched(less, all, cursor, size + 1, rows) && |rows| > size
    ensures rows[size] in all && less(rows[size - 1], rows[size])
  {}

  lemma LastPageIsNotEmpty<K(!new)>(less: (K, K) -> bool, w: Walk<K>)
    requires StrictOrder(less) && IsWalk(less, w) && Settled(less, w) && |w.fetched| > 1
    ensures w.fetched[|w.fetched| - 1] != []
  {
    hide StrictOrder, Settled, Fetched;
    var n := |w.fetched|;
    var cursor, extra := w.Cursor(n - 1), w.fetched[n - 2][w.size];
    ExtraRow(less, w.sets[n - 2], w.Cursor(n - 2), w.size, w.fetched[n - 2]);
    SettledShown(less, w, n - 1);
    AfterSettledCursor(less, w, n - 2, cursor, extra);
    SettledKeepsTheFirst(less, w, n - 1);
    KeyIsShownOrAhead(less, w.sets[n - 1], cursor, w.size, w.fetched[n - 1], extra);
  }

  lemma SettledKeepsTheFirst<K(!new)>(less: (K, K) -> bool, w: Walk<K>, i: nat)
    requires Settled(less, w) && i < |w.sets|
    ensures w.sets[0] <= w.sets[i]
  {}
}
