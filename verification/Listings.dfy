/** The three list endpoints as keyset queries behind opaque tokens, and what a client sees who
    follows the tokens from "" to "". */
module Listings {
  import opened Prelude
  import opened Paging

  datatype Page<+R> = Page(items: seq<R>, nextToken: string)

  // ---------- one query ----------

  function Keys<R, K>(rows: seq<R>, key: R -> K): (ks: seq<K>)
    ensures |ks| == |rows| && forall i :: 0 <= i < |rows| ==> ks[i] == key(rows[i])
  {
    seq(|rows|, i requires 0 <= i < |rows| => key(rows[i]))
  }

  /** The keys of the rows that match, before any cursor. */
  ghost function Matching<R, K>(rows: seq<R>, key: R -> K, wanted: R -> bool): set<K> {
    set r | r in rows && wanted(r) :: key(r)
  }

  /** The first `limit` wanted rows after the cursor, over rows in key order. */
  function Select<R, K>(rows: seq<R>, key: R -> K, less: (K, K) -> bool, wanted: R -> bool, cursor: K, limit: nat): seq<R> {
    if rows == [] || limit == 0 then []
    else if wanted(rows[0]) && less(cursor, key(rows[0])) then
      [rows[0]] + Select(rows[1..], key, less, wanted, cursor, limit - 1)
    else Select(rows[1..], key, less, wanted, cursor, limit)
  }

  /** Accumulate the result set row by row, until it is as long as the query asked for. */
  method Scan<R, K>(rows: seq<R>, key: R -> K, less: (K, K) -> bool, wanted: R -> bool, cursor: K, limit: nat)
    returns (found: seq<R>)
    ensures found == Select(rows, key, less, wanted, cursor, limit)
  {
    found := [];
    var i := 0;
    assert rows[0..] == rows;
    while i < |rows| && |found| < limit
      invariant 0 <= i <= |rows| && |found| <= limit
      invariant found + Select(rows[i..], key, less, wanted, cursor, limit - |found|)
                == Select(rows, key, less, wanted, cursor, limit)
    {
      assert rows[i..][0] == rows[i] && rows[i..][1..] == rows[i + 1..];
      if wanted(rows[i]) && less(cursor, key(rows[i])) {
        found := found + [rows[i]];
      }
      i := i + 1;
    }
  }

  lemma {:induction false} SelectedRows<R(!new), K(!new)>(
    rows: seq<R>, key: R -> K, less: (K, K) -> bool, wanted: R -> bool, cursor: K, limit: nat)
    ensures
      var found := Select(rows, key, less, wanted, cursor, limit);
      && |found| <= limit
      && forall r :: r in found ==> r in rows && wanted(r) && less(cursor, key(r))
  {
    if rows != [] && limit > 0 {
      if wanted(rows[0]) && less(cursor, key(rows[0])) {
        SelectedRows(rows[1..], key, less, wanted, cursor, limit - 1);
      } else {
        SelectedRows(rows[1..], key, less, wanted, cursor, limit);
      }
    }
  }

  ghost predicate Ordered<R, K(!new)>(rows: seq<R>, key: R -> K, less: (K, K) -> bool) {
    forall i, j :: 0 <= i < j < |rows| ==> less(key(rows[i]), key(rows[j]))
  }

  lemma {:induction false} SelectedInOrder<R(!new), K(!new)>(
    rows: seq<R>, key: R -> K, less: (K, K) -> bool, wanted: R -> bool, cursor: K, limit: nat)
    requires Ordered(rows, key, less)
    ensures Ordered(Select(rows, key, less, wanted, cursor, limit), key, less)
  {
    if rows != [] && limit > 0 {
      if wanted(rows[0]) && less(cursor, key(rows[0])) {
        var found := Select(rows[1..], key, less, wanted, cursor, limit - 1);
        SelectedInOrder(rows[1..], key, less, wanted, cursor, limit - 1);
        SelectedRows(rows[1..], key, less, wanted, cursor, limit - 1);
        assert forall i :: 0 <= i < |found| ==> found[i] in rows[1..];
        assert forall r :: r in rows[1..] ==> less(key(rows[0]), key(r));
      } else {
        SelectedInOrder(rows[1..], key, less, wanted, cursor, limit);
      }
    }
  }

  lemma {:induction false} SelectedOrBeyond<R(!new), K(!new)>(
    rows: seq<R>, key: R -> K, less: (K, K) -> bool, wanted: R -> bool, cursor: K, limit: nat, r: R)
    requires Ordered(rows, key, less) && r in rows && wanted(r) && less(cursor, key(r))
    ensures
      var found := Select(rows, key, less, wanted, cursor, limit);
      r in found || (|found| == limit && forall x :: x in found ==> less(key(x), key(r)))
  {
    if limit > 0 {
      var first, rest := rows[0], rows[1..];
      assert forall x :: x in rest ==> less(key(first), key(x));
      if r != first {
        assert r in rest;
        if wanted(first) && less(cursor, key(first)) {
          SelectedOrBeyond(rest, key, less, wanted, cursor, limit - 1, r);
        } else {
          SelectedOrBeyond(rest, key, less, wanted, cursor, limit, r);
        }
      }
    }
  }

  /** The scan is the keyset query: sorted, after the cursor, and with nothing skipped. */
  lemma SelectIsFetched<R(!new), K(!new)>(
    rows: seq<R>, key: R -> K, less: (K, K) -> bool, wanted: R -> bool, cursor: K, limit: nat)
    requires Ordered(rows, key, less)
    ensures Fetched(less, Matching(rows, key, wanted), cursor, limit,
                    Keys(Select(rows, key, less, wanted, cursor, limit), key))
  {
    hide Select, Ordered;
    var found := Select(rows, key, less, wanted, cursor, limit);
    var all, keys := Matching(rows, key, wanted), Keys(found, key);
    SelectedRows(rows, key, less, wanted, cursor, limit);
    SelectedInOrder(rows, key, less, wanted, cursor, limit);
    assert Ascending(less, keys) by { KeysAscend(found, key, less); }
    forall i | 0 <= i < |keys| ensures keys[i] in all && less(cursor, keys[i]) {
      assert found[i] in found;
    }
    forall k | k in all && less(cursor, k)
      ensures k in keys || (|keys| == limit && forall i :: 0 <= i < |keys| ==> less(keys[i], k))
    {
      var r :| r in rows && wanted(r) && key(r) == k;
      SelectedOrBeyond(rows, key, less, wanted, cursor, limit, r);
      if r in found {
        var i :| 0 <= i < |found| && found[i] == r;
        assert keys[i] == k;
      } else {
        forall i | 0 <= i < |keys| ensures less(keys[i], k) { assert found[i] in found; }
      }
    }
  }

  lemma KeysAscend<R(!new), K(!new)>(rows: seq<R>, key: R -> K, less: (K, K) -> bool)
    requires Ordered(rows, key, less)
    ensures Ascending(less, Keys(rows, key))
  {}

  // ---------- one page, behind a token ----------

  /** How an endpoint lists: its key order, and how cursors travel. */
  datatype Listing<!R, !K> = Listing(
    key: R -> K,
    less: (K, K) -> bool,
    encode: K -> string,
    decode: string -> Result<K>)

  function PageAt<R, K>(l: Listing<R, K>, rows: seq<R>, wanted: R -> bool, size: nat, token: string): Result<Page<R>>
    requires size >= 1
  {
    match l.decode(token)
    case Err(e) => Err(e)
    case Ok(cursor) =>
      var found := Select(rows, l.key, l.less, wanted, cursor, size + 1);
      Ok(if |found| > size then Page(found[..size], l.encode(l.key(found[size - 1]))) else Page(found, ""))
  }

  /** A list call: decode the token, fetch one row more than a page, keep a page and encode its last key. */
  method List<R, K>(l: Listing<R, K>, rows: seq<R>, wanted: R -> bool, size: nat, token: string)
    returns (result: Result<Page<R>>)
    requires size >= 1
    ensures result == PageAt(l, rows, wanted, size, token)
  {
    var cursor := l.decode(token);
    if cursor.Err? { return Err(cursor.error); }
    var found := Scan(rows, l.key, l.less, wanted, cursor.value, size + 1);
    if |found| > size {
      var page := found[..size];
      return Ok(Page(page, l.encode(l.key(page[size - 1]))));
    }
    return Ok(Page(found, ""));
  }

  // ---------- following tokens ----------

  /** A client's whole listing: the rows each call saw, in key order, and the page each call returned. */
  ghost predicate IsListing<R(!new), K(!new)>(
    l: Listing<R, K>, wanted: R -> bool, size: nat, tables: seq<seq<R>>, pages: seq<Page<R>>)
  {
    && size >= 1 && |tables| == |pages| >= 1
    && (forall i :: 0 <= i < |tables| ==> Ordered(tables[i], l.key, l.less))
    && (forall i :: 0 <= i < |pages| ==>
          PageAt(l, tables[i], wanted, size, if i == 0 then "" else pages[i - 1].nextToken) == Ok(pages[i]))
    && (forall i :: 0 <= i < |pages| - 1 ==> pages[i].nextToken != "")
  }

  /** Tokens carry cursors faithfully: the empty one means `start`, and every key in use survives the trip. */
  ghost predicate Faithful<R(!new), K(!new)>(l: Listing<R, K>, start: K, tables: seq<seq<R>>) {
    && StrictOrder(l.less)
    && l.decode("") == Ok(start)
    && forall i, r :: 0 <= i < |tables| && r in tables[i] ==>
         && l.less(start, l.key(r))
         && l.encode(l.key(r)) != "" && l.decode(l.encode(l.key(r))) == Ok(l.key(r))
  }

  /** The cursor the `i`-th call decodes. */
  function CursorAt<R, K>(l: Listing<R, K>, start: K, pages: seq<Page<R>>, i: nat): K
    requires i <= |pages|
  {
    if i == 0 then start
    else
      var items := pages[i - 1].items;
      if items == [] then start else l.key(items[|items| - 1])
  }

  function RowsAt<R, K>(
    l: Listing<R, K>, wanted: R -> bool, size: nat, start: K, tables: seq<seq<R>>, pages: seq<Page<R>>, i: nat): seq<R>
    requires i < |tables| == |pages|
  {
    Select(tables[i], l.key, l.less, wanted, CursorAt(l, start, pages, i), size + 1)
  }

  ghost function WalkOf<R(!new), K(!new)>(
    l: Listing<R, K>, wanted: R -> bool, size: nat, start: K, tables: seq<seq<R>>, pages: seq<Page<R>>): Walk<K>
    requires |tables| == |pages|
  {
    Walk(
      seq(|tables|, i requires 0 <= i < |tables| => Matching(tables[i], l.key, wanted)),
      seq(|tables|, i requires 0 <= i < |tables| => Keys(RowsAt(l, wanted, size, start, tables, pages, i), l.key)),
      start, size)
  }

  /** One page: its rows, whether there is more, and what its token carries. */
  lemma OnePage<R(!new), K(!new)>(
    l: Listing<R, K>, rows: seq<R>, wanted: R -> bool, size: nat, token: string, cursor: K, page: Page<R>)
    requires size >= 1 && l.decode(token) == Ok(cursor) && PageAt(l, rows, wanted, size, token) == Ok(page)
    requires forall r :: r in rows ==> l.encode(l.key(r)) != "" && l.decode(l.encode(l.key(r))) == Ok(l.key(r))
    ensures
      var found := Select(rows, l.key, l.less, wanted, cursor, size + 1);
      && page.items == ToPage(found, size).0
      && (page.nextToken != "" <==> |found| > size)
      && (|found| > size ==>
            && |page.items| == size && page.items[size - 1] == found[size - 1]
            && l.decode(page.nextToken) == Ok(l.key(found[size - 1])))
  {
    hide Select;
    var found := Select(rows, l.key, l.less, wanted, cursor, size + 1);
    SelectedRows(rows, l.key, l.less, wanted, cursor, size + 1);
    if |found| > size { assert found[size - 1] in found; }
  }

  /** Each call's token decodes to the last key of the page before it. */
  lemma {:induction false} PageFromCursor<R(!new), K(!new)>(
    l: Listing<R, K>, wanted: R -> bool, size: nat, start: K, tables: seq<seq<R>>, pages: seq<Page<R>>, i: nat)
    requires IsListing(l, wanted, size, tables, pages) && Faithful(l, start, tables) && i < |pages|
    ensures
      var found := RowsAt(l, wanted, size, start, tables, pages, i);
      && pages[i].items == ToPage(found, size).0
      && (pages[i].nextToken != "" <==> |found| > size)
      && (|found| > size ==>
            && CursorAt(l, start, pages, i + 1) == l.key(found[size - 1])
            && l.decode(pages[i].nextToken) == Ok(CursorAt(l, start, pages, i + 1)))
  {
    hide Select, StrictOrder, Ordered, PageAt, ToPage;
    var token := if i == 0 then "" else pages[i - 1].nextToken;
    if i > 0 { PageFromCursor(l, wanted, size, start, tables, pages, i - 1); }
    assert l.decode(token) == Ok(CursorAt(l, start, pages, i));
    OnePage(l, tables[i], wanted, size, token, CursorAt(l, start, pages, i), pages[i]);
  }

  lemma ListingIsWalk<R(!new), K(!new)>(
    l: Listing<R, K>, wanted: R -> bool, size: nat, start: K, tables: seq<seq<R>>, pages: seq<Page<R>>)
    requires IsListing(l, wanted, size, tables, pages) && Faithful(l, start, tables)
    ensures IsWalk(l.less, WalkOf(l, wanted, size, start, tables, pages))
    ensures pages[|pages| - 1].nextToken == "" <==> Finished(WalkOf(l, wanted, size, start, tables, pages))
  {
    hide StrictOrder, Fetched, Faithful, WalkOf, IsListing;
    ListingShape(l, wanted, size, tables, pages);
    var w := WalkOf(l, wanted, size, start, tables, pages);
    forall i | 0 <= i < |pages| ensures i < |w.fetched| && (|w.fetched[i]| > size <==> pages[i].nextToken != "") {
      WalkLengths(l, wanted, size, start, tables, pages, i);
    }
    WalkLengths(l, wanted, size, start, tables, pages, 0);
    forall i | 0 <= i < |pages| ensures Fetched(l.less, w.sets[i], w.Cursor(i), size + 1, w.fetched[i]) {
      WalkFetches(l, wanted, size, start, tables, pages, i);
    }
  }

  lemma WalkLengths<R(!new), K(!new)>(
    l: Listing<R, K>, wanted: R -> bool, size: nat, start: K, tables: seq<seq<R>>, pages: seq<Page<R>>, i: nat)
    requires IsListing(l, wanted, size, tables, pages) && Faithful(l, start, tables) && i < |pages|
    ensures
      var w := WalkOf(l, wanted, size, start, tables, pages);
      && w.size == size && |w.sets| == |w.fetched| == |pages|
      && (|w.fetched[i]| > size <==> pages[i].nextToken != "")
  {
    hide Select, StrictOrder, Ordered, Fetched, PageAt, Faithful, Matching, CursorAt, RowsAt, IsListing;
    ListingShape(l, wanted, size, tables, pages);
    PageFromCursor(l, wanted, size, start, tables, pages, i);
  }

  lemma ListingShape<R(!new), K(!new)>(
    l: Listing<R, K>, wanted: R -> bool, size: nat, tables: seq<seq<R>>, pages: seq<Page<R>>)
    requires IsListing(l, wanted, size, tables, pages)
    ensures size >= 1 && |tables| == |pages| >= 1
    ensures forall i :: 0 <= i < |pages| - 1 ==> pages[i].nextToken != ""
  {}

  lemma WalkFetches<R(!new), K(!new)>(
    l: Listing<R, K>, wanted: R -> bool, size: nat, start: K, tables: seq<seq<R>>, pages: seq<Page<R>>, i: nat)
    requires IsListing(l, wanted, size, tables, pages) && Faithful(l, start, tables) && i < |pages|
    ensures
      var w := WalkOf(l, wanted, size, start, tables, pages);
      Fetched(l.less, w.sets[i], w.Cursor(i), size + 1, w.fetched[i])
  {
    hide Select, StrictOrder, Fetched, PageAt, Faithful, Matching;
    SelectIsFetched(tables[i], l.key, l.less, wanted, CursorAt(l, start, pages, i), size + 1);
    var w := WalkOf(l, wanted, size, start, tables, pages);
    if i > 0 {
      PageFromCursor(l, wanted, size, start, tables, pages, i - 1);
      assert pages[i - 1].nextToken != "";
    }
    assert w.Cursor(i) == CursorAt(l, start, pages, i);
  }

  /** The keys of all pages, in the order the client received them. */
  function ReceivedKeys<R, K>(l: Listing<R, K>, pages: seq<Page<R>>): seq<K> {
    if pages == [] then [] else ReceivedKeys(l, pages[..|pages| - 1]) + Keys(pages[|pages| - 1].items, l.key)
  }

  lemma {:induction false} ReceivedIsShown<R(!new), K(!new)>(
    l: Listing<R, K>, wanted: R -> bool, size: nat, start: K, tables: seq<seq<R>>, pages: seq<Page<R>>, n: nat)
    requires IsListing(l, wanted, size, tables, pages) && Faithful(l, start, tables) && n <= |pages|
    ensures ReceivedKeys(l, pages[..n]) == Shown(WalkOf(l, wanted, size, start, tables, pages), n)
  {
    hide Select, StrictOrder, Ordered, Faithful, PageAt, Matching, IsListing, CursorAt, RowsAt;
    ListingShape(l, wanted, size, tables, pages);
    if n > 0 {
      var w := WalkOf(l, wanted, size, start, tables, pages);
      ReceivedIsShown(l, wanted, size, start, tables, pages, n - 1);
      PageFromCursor(l, wanted, size, start, tables, pages, n - 1);
      assert pages[..n][..n - 1] == pages[..n - 1];
      KeysOfPage(RowsAt(l, wanted, size, start, tables, pages, n - 1), l.key, size);
    }
  }

  lemma KeysOfPage<R, K>(rows: seq<R>, key: R -> K, size: nat)
    requires size >= 1
    ensures Keys(ToPage(rows, size).0, key) == ToPage(Keys(rows, key), size).0
  {
    hide Keys;
    if |rows| > size { assert Keys(rows[..size], key) == Keys(rows, key)[..size]; }
  }

  ghost predicate AllFrom<R(!new)>(wanted: R -> bool, rows: seq<R>, items: seq<R>) {
    forall r :: r in items ==> r in rows && wanted(r)
  }

  /** Every row on a page matched, as it stands there, when that page was fetched. */
  ghost predicate PagesAreTrue<R(!new)>(wanted: R -> bool, tables: seq<seq<R>>, pages: seq<Page<R>>)
    requires |tables| == |pages|
  {
    forall i :: 0 <= i < |pages| ==> AllFrom(wanted, tables[i], pages[i].items)
  }

  /** A row with this key matches. */
  ghost predicate MatchesIn<R(!new), K(!new)>(l: Listing<R, K>, wanted: R -> bool, rows: seq<R>, k: K) {
    exists r :: r in rows && wanted(r) && l.key(r) == k
  }

  ghost predicate OnAPage<R(!new), K(!new)>(l: Listing<R, K>, pages: seq<Page<R>>, k: K) {
    exists i, r :: 0 <= i < |pages| && r in pages[i].items && l.key(r) == k
  }

  lemma RowsOfPage<R(!new), K(!new)>(
    rows: seq<R>, key: R -> K, less: (K, K) -> bool, wanted: R -> bool, cursor: K, size: nat)
    requires size >= 1
    ensures AllFrom(wanted, rows, ToPage(Select(rows, key, less, wanted, cursor, size + 1), size).0)
  {
    hide Select;
    var found := Select(rows, key, less, wanted, cursor, size + 1);
    SelectedRows(rows, key, less, wanted, cursor, size + 1);
    assert forall r :: r in ToPage(found, size).0 ==> r in found;
  }

  lemma ListingIsTrue<R(!new), K(!new)>(
    l: Listing<R, K>, wanted: R -> bool, size: nat, start: K, tables: seq<seq<R>>, pages: seq<Page<R>>)
    requires IsListing(l, wanted, size, tables, pages) && Faithful(l, start, tables)
    ensures |tables| == |pages| && PagesAreTrue(wanted, tables, pages)
  {
    hide Select, IsListing, Faithful, CursorAt, ToPage, AllFrom;
    ListingShape(l, wanted, size, tables, pages);
    forall i | 0 <= i < |pages| ensures AllFrom(wanted, tables[i], pages[i].items) {
      PageFromCursor(l, wanted, size, start, tables, pages, i);
      RowsOfPage(tables[i], l.key, l.less, wanted, CursorAt(l, start, pages, i), size);
    }
  }

  lemma {:induction false} ReceivedFromAPage<R(!new), K(!new)>(l: Listing<R, K>, pages: seq<Page<R>>, k: K)
    requires k in ReceivedKeys(l, pages)
    ensures OnAPage(l, pages, k)
  {
    var n := |pages|;
    var keys := Keys(pages[n - 1].items, l.key);
    if k in keys {
      var j :| 0 <= j < |keys| && keys[j] == k;
      assert pages[n - 1].items[j] in pages[n - 1].items;
    } else {
      ReceivedFromAPage(l, pages[..n - 1], k);
      var i, r :| 0 <= i < n - 1 && r in pages[..n - 1][i].items && l.key(r) == k;
      assert pages[..n - 1][i] == pages[i];
    }
  }

  /** A client who follows tokens from "" to "" receives, in key order, every row that matched throughout
      exactly once, no row twice, and on each page only rows that matched when it was fetched, whatever came
      and went between calls. */
  lemma ListingIsExact<R(!new), K(!new)>(
    l: Listing<R, K>, wanted: R -> bool, size: nat, start: K, tables: seq<seq<R>>, pages: seq<Page<R>>, k: K)
    requires IsListing(l, wanted, size, tables, pages) && Faithful(l, start, tables)
    requires pages[|pages| - 1].nextToken == ""
    ensures
      var received := ReceivedKeys(l, pages);
      && Ascending(l.less, received) && PagesAreTrue(wanted, tables, pages)
      && ((forall i :: 0 <= i < |tables| ==> MatchesIn(l, wanted, tables[i], k)) ==> k in received)
      && (k in received ==> OnAPage(l, pages, k))
  {
    hide StrictOrder, Ascending, PagesAreTrue, OnAPage, WalkOf, IsWalk, Faithful, IsListing, Shown;
    ListingShape(l, wanted, size, tables, pages);
    var w := WalkOf(l, wanted, size, start, tables, pages);
    ListingIsWalk(l, wanted, size, start, tables, pages);
    SetsPerFetch(l.less, w);
    assert StrictOrder(l.less) by { FaithfulOrder(l, start, tables); }
    WalkIsExact(l.less, w, k);
    ReceivedIsShown(l, wanted, size, start, tables, pages, |pages|);
    WalkLengths(l, wanted, size, start, tables, pages, 0);
    assert pages[..|pages|] == pages;
    if forall i :: 0 <= i < |tables| ==> MatchesIn(l, wanted, tables[i], k) {
      WalkSets(l, wanted, size, start, tables, pages);
      assert forall i :: 0 <= i < |tables| ==> k in Matching(tables[i], l.key, wanted);
      StartIsBefore(l, wanted, start, tables, k);
    }
    ListingIsTrue(l, wanted, size, start, tables, pages);
    if k in ReceivedKeys(l, pages) { ReceivedFromAPage(l, pages, k); }
  }

  lemma FaithfulOrder<R(!new), K(!new)>(l: Listing<R, K>, start: K, tables: seq<seq<R>>)
    requires Faithful(l, start, tables)
    ensures StrictOrder(l.less)
  {}

  lemma WalkSets<R(!new), K(!new)>(
    l: Listing<R, K>, wanted: R -> bool, size: nat, start: K, tables: seq<seq<R>>, pages: seq<Page<R>>)
    requires |tables| == |pages|
    ensures
      var w := WalkOf(l, wanted, size, start, tables, pages);
      && w.start == start && |w.sets| == |tables|
      && forall i :: 0 <= i < |tables| ==> w.sets[i] == Matching(tables[i], l.key, wanted)
  {
    hide Matching, RowsAt;
  }

  lemma StartIsBefore<R(!new), K(!new)>(l: Listing<R, K>, wanted: R -> bool, start: K, tables: seq<seq<R>>, k: K)
    requires Faithful(l, start, tables) && tables != [] && k in Matching(tables[0], l.key, wanted)
    ensures l.less(start, k)
  {
    hide StrictOrder;
    var r :| r in tables[0] && wanted(r) && l.key(r) == k;
  }

  /** When rows that appear later sort before everything the first call could see, a walk ends, and shows exactly
      what matched at its first call, in max(1, ceil(n / size)) calls. */
  lemma SettledListing<R(!new), K(!new)>(
    l: Listing<R, K>, wanted: R -> bool, size: nat, start: K, tables: seq<seq<R>>, pages: seq<Page<R>>)
    requires IsListing(l, wanted, size, tables, pages) && Faithful(l, start, tables)
    requires Settled(l.less, WalkOf(l, wanted, size, start, tables, pages))
    ensures
      var received, first := ReceivedKeys(l, pages), Matching(tables[0], l.key, wanted);
      && (|pages| - 1) * size <= |first|
      && (pages[|pages| - 1].nextToken == "" ==>
            Ascending(l.less, received) && (set k | k in received) == first && |pages| == PageCount(|first|, size))
  {
    hide StrictOrder, Ascending, WalkOf, IsWalk, Faithful, IsListing, Shown, Settled, Matching;
    ListingShape(l, wanted, size, tables, pages);
    var w := WalkOf(l, wanted, size, start, tables, pages);
    var first := Matching(tables[0], l.key, wanted);
    ListingIsWalk(l, wanted, size, start, tables, pages);
    WalkLengths(l, wanted, size, start, tables, pages, 0);
    WalkSets(l, wanted, size, start, tables, pages);
    assert StrictOrder(l.less) by { FaithfulOrder(l, start, tables); }
    assert After(l.less, first, start) == first by {
      forall k | k in first ensures l.less(start, k) { StartIsBefore(l, wanted, start, tables, k); }
    }
    SettledWalkTerminates(l.less, w);
    if pages[|pages| - 1].nextToken == "" {
      SettledWalkIsSnapshot(l.less, w);
      ReceivedIsShown(l, wanted, size, start, tables, pages, |pages|);
      assert pages[..|pages|] == pages;
    }
  }

  /** A table that does not change between calls is settled. */
  lemma StaticListing<R(!new), K(!new)>(
    l: Listing<R, K>, wanted: R -> bool, size: nat, start: K, tables: seq<seq<R>>, pages: seq<Page<R>>)
    requires IsListing(l, wanted, size, tables, pages) && Faithful(l, start, tables)
    requires forall i :: 0 <= i < |tables| ==> tables[i] == tables[0]
    ensures
      var received, all := ReceivedKeys(l, pages), Matching(tables[0], l.key, wanted);
      && (|pages| - 1) * size <= |all|
      && (pages[|pages| - 1].nextToken == "" ==>
            Ascending(l.less, received) && (set k | k in received) == all && |pages| == PageCount(|all|, size))
  {
    hide StrictOrder, Ascending, WalkOf, Faithful, IsListing, Matching;
    ListingShape(l, wanted, size, tables, pages);
    WalkSets(l, wanted, size, start, tables, pages);
    SettledListing(l, wanted, size, start, tables, pages);
  }
}
