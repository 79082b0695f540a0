/** `LancamentoRepository`: the release table and its three custom queries
    (the windowed sum, the latest releases of a user, and the paginated
    listing of a user's releases with its count query). */
module ReleaseRepository {
  import opened Wrappers
  import opened Entities
  import opened Table

  /** A release table in which every row carries its own key as id. */
  type ReleaseStore = t: Table<Release> | forall k :: k in t.rows ==> t.rows[k].id == Some(k)
    witness TableRep(map[], 0)

  /** The id of a stored release (ids of stored rows are never null). */
  function IdOf(r: Release): int {
    if r.id.Some? then r.id.value else -1
  }

  /** The result of `save`: the new table and the entity it returns. */
  datatype Saved = Saved(store: ReleaseStore, row: Release)

  /** `save`: a release without an id is inserted under a fresh id; a
      release with an id overwrites (or creates) the row with that id. */
  function Save(store: ReleaseStore, r: Release): (s: Saved)
    ensures r.id.None? ==> s.row == r.(id := Some(FreshKey(store)))
    ensures r.id.Some? ==> s.row == r
    ensures s.row.id.Some? && s.store.rows == store.rows[s.row.id.value := s.row]
  {
    var k := if r.id.Some? then r.id.value else FreshKey(store);
    var row := r.(id := Some(k));
    Saved(Put(store, k, row), row)
  }

  /** `delete(entity)`: removes the row with the entity's id. An entity that
      was never saved (null id) is ignored. */
  function Delete(store: ReleaseStore, r: Release): (s: ReleaseStore)
    ensures r.id.Some? ==> s.rows == store.rows - {r.id.value}
    ensures r.id.None? ==> s == store
  {
    if r.id.Some? then Remove(store, r.id.value) else store
  }

  /** `findById`. */
  function FindById(store: ReleaseStore, id: nat): (r: Option<Release>)
    ensures r.Some? <==> id in store.rows
    ensures r.Some? ==> r.value == store.rows[id] && r.value.id == Some(id)
  {
    if id in store.rows then Some(store.rows[id]) else None
  }

  /** `x` is the row stored under its own id. */
  predicate Stored(store: ReleaseStore, x: Release) {
    x.id.Some? && x.id.value in store.rows && store.rows[x.id.value] == x
  }

  /** The rows read at keys `ks` are exactly the stored rows whose ids are
      in `ks`. */
  lemma RowsAtStored(store: ReleaseStore, ks: seq<nat>)
    requires forall i :: 0 <= i < |ks| ==> ks[i] in store.rows
    ensures forall x :: x in RowsAt(store, ks) <==> Stored(store, x) && x.id.value in ks
  {
    var rs := RowsAt(store, ks);
    forall x ensures x in rs <==> Stored(store, x) && x.id.value in ks {
      if Stored(store, x) && x.id.value in ks {
        var i :| 0 <= i < |ks| && ks[i] == x.id.value;
        assert rs[i] == x;
      }
    }
  }

  /** Reading the keys of exactly the rows that satisfy `keep` yields
      exactly the stored rows that satisfy `keep`. */
  lemma RowsAtMatching(store: ReleaseStore, ks: seq<nat>, keep: Release -> bool)
    requires forall k :: k in ks <==> k in store.rows && keep(store.rows[k])
    ensures forall i :: 0 <= i < |ks| ==> ks[i] in store.rows
    ensures forall x :: x in RowsAt(store, ks) <==> Stored(store, x) && keep(x)
  {
    assert forall i :: 0 <= i < |ks| ==> ks[i] in ks;
    RowsAtStored(store, ks);
  }

  /** A row read at key `k` has id `k`. */
  lemma RowsAtIds(store: ReleaseStore, ks: seq<nat>)
    requires forall i :: 0 <= i < |ks| ==> ks[i] in store.rows
    ensures forall i :: 0 <= i < |ks| ==> IdOf(RowsAt(store, ks)[i]) == ks[i]
  {
  }

  /** Every stored row appears in `Rows`, and `Rows` holds nothing else. */
  lemma RowsAreStored(store: ReleaseStore)
    ensures forall x :: x in Rows(store) <==> Stored(store, x)
  {
    RowsAtStored(store, Keys(store));
  }

  // ---------------------------------------------------------------------
  // The sum of the values of one user's releases of one type and status
  // ---------------------------------------------------------------------

  /** The filter of the sum query, with the date window the service adds. */
  datatype SumFilter = SumFilter(userId: nat, kind: ReleaseType, status: ReleaseStatus, window: DateRange)

  /** The row matches every condition of the query and has a non-null value
      (SQL `sum` skips nulls). */
  predicate Counted(r: Release, f: SumFilter, inWindow: WindowTest) {
    && OwnedBy(r, f.userId)
    && r.kind == Some(f.kind)
    && r.status == Some(f.status)
    && inWindow(f.window, r)
    && r.value.Some?
  }

  /** What a row adds to the sum. */
  function Contribution(r: Release, f: SumFilter, inWindow: WindowTest): real {
    if Counted(r, f, inWindow) then r.value.value else 0.0
  }

  /** The sum of the counted values of `rs`. */
  function Total(rs: seq<Release>, f: SumFilter, inWindow: WindowTest): real {
    if rs == [] then 0.0
    else Total(rs[..|rs| - 1], f, inWindow) + Contribution(rs[|rs| - 1], f, inWindow)
  }

  /** `getBalanceByReleaseTypeUserAndStatus`: the sum of the values of the
      matching rows, or no value at all (SQL null) when no row is counted. */
  function SumByOwnerTypeStatus(store: ReleaseStore, f: SumFilter, inWindow: WindowTest): (r: Option<real>)
    ensures r.None? <==> forall k :: k in store.rows ==> !Counted(store.rows[k], f, inWindow)
    ensures r.Some? ==> r.value == Total(Rows(store), f, inWindow)
  {
    var rs := Rows(store);
    RowsAreStored(store);
    if exists i :: 0 <= i < |rs| && Counted(rs[i], f, inWindow) then Some(Total(rs, f, inWindow)) else None
  }

  lemma TotalAppend(rs: seq<Release>, x: Release, f: SumFilter, inWindow: WindowTest)
    ensures Total(rs + [x], f, inWindow) == Total(rs, f, inWindow) + Contribution(x, f, inWindow)
  {
    assert (rs + [x])[..|rs|] == rs;
  }

  /** Replacing one row changes the sum by exactly the difference of the two
      rows' contributions. */
  lemma {:induction false} TotalReplace(rs: seq<Release>, i: nat, x: Release, f: SumFilter, inWindow: WindowTest)
    requires i < |rs|
    ensures Total(rs[i := x], f, inWindow)
         == Total(rs, f, inWindow) - Contribution(rs[i], f, inWindow) + Contribution(x, f, inWindow)
  {
    var n := |rs|;
    var rs' := rs[i := x];
    if i < n - 1 {
      assert rs'[..n - 1] == rs[..n - 1][i := x];
      TotalReplace(rs[..n - 1], i, x, f, inWindow);
    } else {
      assert rs'[..n - 1] == rs[..n - 1];
    }
  }

  /** With only positive values stored, the sum is never negative, and it is
      positive as soon as one row is counted. */
  lemma {:induction false} TotalPositive(rs: seq<Release>, f: SumFilter, inWindow: WindowTest)
    requires forall i :: 0 <= i < |rs| ==> rs[i].value.Some? ==> rs[i].value.value > 0.0
    ensures Total(rs, f, inWindow) >= 0.0
    ensures (exists i :: 0 <= i < |rs| && Counted(rs[i], f, inWindow)) ==> Total(rs, f, inWindow) > 0.0
  {
    if rs != [] {
      var init := rs[..|rs| - 1];
      TotalPositive(init, f, inWindow);
      if exists i :: 0 <= i < |rs| && Counted(rs[i], f, inWindow) {
        var i :| 0 <= i < |rs| && Counted(rs[i], f, inWindow);
        if i < |rs| - 1 {
          assert init[i] == rs[i];
        }
      }
    }
  }

  /** Saving a release without an id adds exactly its contribution to every
      sum. */
  lemma TotalAfterInsert(store: ReleaseStore, r: Release, f: SumFilter, inWindow: WindowTest)
    requires r.id.None?
    ensures Total(Rows(Save(store, r).store), f, inWindow)
         == Total(Rows(store), f, inWindow) + Contribution(Save(store, r).row, f, inWindow)
  {
    var saved := Save(store, r);
    PutFreshAppends(store, saved.row);
    TotalAppend(Rows(store), saved.row, f, inWindow);
  }

  /** Saving over a stored release changes every sum by the difference
      between the new and the old row's contributions. */
  lemma TotalAfterOverwrite(store: ReleaseStore, r: Release, f: SumFilter, inWindow: WindowTest)
    requires r.id.Some? && r.id.value in store.rows
    ensures Total(Rows(Save(store, r).store), f, inWindow)
         == Total(Rows(store), f, inWindow)
            - Contribution(store.rows[r.id.value], f, inWindow) + Contribution(r, f, inWindow)
  {
    var k := r.id.value;
    var ks := Keys(store);
    assert k in ks;
    var i :| 0 <= i < |ks| && ks[i] == k;
    PutExistingReplaces(store, i, r);
    TotalReplace(Rows(store), i, r, f, inWindow);
  }

  // ---------------------------------------------------------------------
  // The releases of one user, newest id first
  // ---------------------------------------------------------------------

  /** A key sequence backwards. */
  function Reverse(s: seq<nat>): (r: seq<nat>)
    ensures |r| == |s|
    ensures forall i :: 0 <= i < |s| ==> r[i] == s[|s| - 1 - i]
    ensures forall x :: x in r <==> x in s
    ensures (forall i, j :: 0 <= i < j < |s| ==> s[i] < s[j]) ==>
            (forall i, j :: 0 <= i < j < |r| ==> r[i] > r[j])
  {
    if s == [] then []
    else
      var r := [s[|s| - 1]] + Reverse(s[..|s| - 1]);
      assert forall x :: x in s <==> x in s[..|s| - 1] || x == s[|s| - 1];
      r
  }

  /** `lastReleases`: the user's releases (inside the window the service
      passes), newest id first. */
  function LastReleases(store: ReleaseStore, userId: nat, window: DateRange, inWindow: WindowTest): (r: seq<Release>)
    ensures forall x :: x in r <==> Stored(store, x) && OwnedBy(x, userId) && inWindow(window, x)
    ensures forall i, j :: 0 <= i < j < |r| ==> IdOf(r[i]) > IdOf(r[j])
  {
    var ascending := Matching(store, x => OwnedBy(x, userId) && inWindow(window, x));
    var ks := Reverse(ascending);
    RowsAtMatching(store, ks, x => OwnedBy(x, userId) && inWindow(window, x));
    RowsAtIds(store, ks);
    RowsAt(store, ks)
  }

  // ---------------------------------------------------------------------
  // One user's releases, latest year, month and id first, with a count
  // of the same rows
  // ---------------------------------------------------------------------

  /** Whether `a` may precede `b` in the order (ano desc, mes desc, id desc).
      Stored releases always hold these three fields (see
      `ReleaseService.Persistable`). */
  predicate PeriodBefore(a: Release, b: Release) {
    var ya, yb := a.year.GetOr(0), b.year.GetOr(0);
    var ma, mb := a.month.GetOr(0), b.month.GetOr(0);
    ya > yb || (ya == yb && (ma > mb || (ma == mb && IdOf(a) >= IdOf(b))))
  }

  predicate SortedByPeriod(s: seq<Release>) {
    forall i, j :: 0 <= i < j < |s| ==> PeriodBefore(s[i], s[j])
  }

  /** Insert `x` into a sorted sequence, keeping it sorted. */
  function InsertByPeriod(x: Release, s: seq<Release>): (r: seq<Release>)
    requires SortedByPeriod(s)
    ensures forall y :: y in r <==> y == x || y in s
    ensures SortedByPeriod(r)
    ensures multiset(r) == multiset(s) + multiset{x}
  {
    if s == [] || PeriodBefore(x, s[0]) then
      ConsSorted(x, s);
      [x] + s
    else
      var rest := InsertByPeriod(x, s[1..]);
      assert s == [s[0]] + s[1..];
      ConsSorted(s[0], rest);
      [s[0]] + rest
  }

  /** Putting `x` in front of a sorted sequence keeps it sorted when `x`
      may precede every element. */
  lemma ConsSorted(x: Release, s: seq<Release>)
    requires SortedByPeriod(s)
    requires forall y :: y in s ==> PeriodBefore(x, y)
    ensures SortedByPeriod([x] + s)
  {
    var r := [x] + s;
    forall i, j | 0 <= i < j < |r| ensures PeriodBefore(r[i], r[j]) {
      assert r[j] == s[j - 1];
      if i > 0 {
        assert r[i] == s[i - 1];
      } else {
        assert r[j] in s;
      }
    }
  }

  /** Insertion sort by (ano, mes, id) descending. */
  function SortByPeriod(s: seq<Release>): (r: seq<Release>)
    ensures SortedByPeriod(r)
    ensures multiset(r) == multiset(s)
    ensures |r| == |s| && forall x :: x in r <==> x in s
  {
    if s == [] then []
    else
      assert s == [s[0]] + s[1..];
      var r := InsertByPeriod(s[0], SortByPeriod(s[1..]));
      assert |r| == |multiset(r)|;
      r
  }

  /** The page the store returns: its content and the count query's total. */
  datatype Page = Page(content: seq<Release>, totalElements: nat)

  const EmptyPage := Page([], 0)

  /** The ids of the user's releases: what `count(l.id)` counts. */
  function OwnedIds(store: ReleaseStore, userId: nat): set<nat> {
    set k | k in store.rows && OwnedBy(store.rows[k], userId)
  }

  /** `findAll(userId, pageable)` before slicing: every release of the user,
      sorted by (ano, mes, id) descending, with the count query's total,
      which counts the very same rows. */
  function FindAllByOwner(store: ReleaseStore, userId: nat): (p: Page)
    ensures forall x :: x in p.content <==> Stored(store, x) && OwnedBy(x, userId)
    ensures SortedByPeriod(p.content)
    ensures p.totalElements == |p.content| == |OwnedIds(store, userId)|
  {
    var owned := Matching(store, x => OwnedBy(x, userId));
    RowsAtMatching(store, owned, x => OwnedBy(x, userId));
    AscendingCount(owned, OwnedIds(store, userId));
    Page(SortByPeriod(RowsAt(store, owned)), |OwnedIds(store, userId)|)
  }
}
