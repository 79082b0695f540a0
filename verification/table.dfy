/** An id-keyed table, the part of a JPA repository the services rely on:
    `save` with and without an id, `delete`, `findById`, and enumeration of
    the rows. Ids are handed out from a counter, so every stored key lies
    below `nextId`, which lets the rows be listed in ascending id order. */
module Table {

  datatype TableRep<T> = TableRep(rows: map<nat, T>, nextId: nat)

  /** Every stored key lies below the id counter. */
  type Table<T> = t: TableRep<T> | forall k :: k in t.rows ==> k < t.nextId
    witness TableRep(map[], 0)

  /** The key the next insert without an id receives. */
  function FreshKey<T>(t: Table<T>): (k: nat)
    ensures k !in t.rows
  {
    t.nextId
  }

  /** Insert or overwrite the row stored under `k`; the counter moves past
      `k` so that later inserts never collide with it. */
  function Put<T>(t: Table<T>, k: nat, x: T): (t': Table<T>)
    ensures t'.rows == t.rows[k := x]
    ensures FreshKey(t) <= FreshKey(t')
  {
    TableRep(t.rows[k := x], if k < t.nextId then t.nextId else k + 1)
  }

  /** Remove the row stored under `k`, if any. */
  function Remove<T>(t: Table<T>, k: nat): (t': Table<T>)
    ensures t'.rows == t.rows - {k}
  {
    TableRep(t.rows - {k}, t.nextId)
  }

  /** The keys of `keys` below `n`, in ascending order. */
  function KeysBelow(keys: set<nat>, n: nat): (ks: seq<nat>)
    ensures forall i, j :: 0 <= i < j < |ks| ==> ks[i] < ks[j]
    ensures forall k :: k in ks <==> k in keys && k < n
  {
    if n == 0 then []
    else
      var lower := KeysBelow(keys, n - 1);
      assert forall i :: 0 <= i < |lower| ==> lower[i] in lower;
      lower + (if n - 1 in keys then [n - 1] else [])
  }

  /** The stored keys in ascending order. */
  function Keys<T>(t: Table<T>): (ks: seq<nat>)
    ensures forall i, j :: 0 <= i < j < |ks| ==> ks[i] < ks[j]
    ensures forall k :: k in ks <==> k in t.rows
  {
    KeysBelow(t.rows.Keys, t.nextId)
  }

  /** The rows stored under `ks`, in the order of `ks`. */
  function RowsAt<T>(t: Table<T>, ks: seq<nat>): (rs: seq<T>)
    requires forall i :: 0 <= i < |ks| ==> ks[i] in t.rows
    ensures |rs| == |ks|
    ensures forall i :: 0 <= i < |rs| ==> rs[i] == t.rows[ks[i]]
  {
    seq(|ks|, i requires 0 <= i < |ks| => t.rows[ks[i]])
  }

  /** The stored rows in ascending key order. */
  function Rows<T>(t: Table<T>): (rs: seq<T>)
    ensures |rs| == |Keys(t)|
    ensures forall i :: 0 <= i < |rs| ==> rs[i] == t.rows[Keys(t)[i]]
  {
    RowsAt(t, Keys(t))
  }

  /** The keys of `ks` whose rows satisfy `keep`, in their original order. */
  function Filter<T>(t: Table<T>, ks: seq<nat>, keep: T -> bool): (r: seq<nat>)
    requires forall i :: 0 <= i < |ks| ==> ks[i] in t.rows
    ensures forall k :: k in r <==> k in ks && keep(t.rows[k])
    ensures Ascending(ks) ==> Ascending(r)
  {
    if ks == [] then []
    else
      var init := ks[..|ks| - 1];
      var last := ks[|ks| - 1];
      var r := Filter(t, init, keep);
      assert forall k :: k in ks <==> k in init || k == last;
      SnocAscending(ks, r);
      r + (if keep(t.rows[last]) then [last] else [])
  }

  /** Strictly ascending. */
  predicate Ascending(s: seq<nat>) {
    forall i, j :: 0 <= i < j < |s| ==> s[i] < s[j]
  }

  /** Keys drawn from all but the last of an ascending sequence stay
      ascending when that last key is appended. */
  lemma SnocAscending(ks: seq<nat>, r: seq<nat>)
    requires ks != []
    requires forall k :: k in r ==> k in ks[..|ks| - 1]
    requires Ascending(ks[..|ks| - 1]) ==> Ascending(r)
    ensures Ascending(ks) ==> Ascending(r) && Ascending(r + [ks[|ks| - 1]])
  {
    var init, last := ks[..|ks| - 1], ks[|ks| - 1];
    if Ascending(ks) {
      assert Ascending(init);
      forall i | 0 <= i < |r| ensures r[i] < last {
        assert r[i] in r;
        var j :| 0 <= j < |init| && init[j] == r[i];
      }
    }
  }

  /** The keys, in ascending order, of the rows that satisfy `keep`. */
  function Matching<T>(t: Table<T>, keep: T -> bool): (ks: seq<nat>)
    ensures forall i, j :: 0 <= i < j < |ks| ==> ks[i] < ks[j]
    ensures forall k :: k in ks <==> k in t.rows && keep(t.rows[k])
  {
    Filter(t, Keys(t), keep)
  }

  /** A strictly ascending sequence has as many elements as the set of its
      values. */
  lemma {:induction false} AscendingCount(ks: seq<nat>, s: set<nat>)
    requires forall i, j :: 0 <= i < j < |ks| ==> ks[i] < ks[j]
    requires forall k :: k in s <==> k in ks
    ensures |s| == |ks|
  {
    if ks != [] {
      var init := ks[..|ks| - 1];
      var last := ks[|ks| - 1];
      assert ks == init + [last];
      assert last !in init by {
        forall i | 0 <= i < |init| ensures init[i] != last {
          assert ks[i] < ks[|ks| - 1];
        }
      }
      AscendingCount(init, s - {last});
    }
  }

  /** `KeysBelow` only looks at the keys below `n`. */
  lemma {:induction false} KeysBelowAgree(a: set<nat>, b: set<nat>, n: nat)
    requires forall k :: k < n ==> (k in a <==> k in b)
    ensures KeysBelow(a, n) == KeysBelow(b, n)
  {
    if n > 0 {
      KeysBelowAgree(a, b, n - 1);
    }
  }

  /** Inserting at the fresh key appends exactly one row at the end. */
  lemma PutFreshAppends<T>(t: Table<T>, x: T)
    ensures Rows(Put(t, FreshKey(t), x)) == Rows(t) + [x]
  {
    var k := FreshKey(t);
    var t' := Put(t, k, x);
    assert t'.nextId == k + 1;
    assert KeysBelow(t'.rows.Keys, k + 1) == KeysBelow(t'.rows.Keys, k) + [k];
    KeysBelowAgree(t'.rows.Keys, t.rows.Keys, k);
    var ks := Keys(t);
    assert Keys(t') == ks + [k];
    var rs, rs' := Rows(t), Rows(t');
    assert |rs'| == |rs| + 1;
    forall i | 0 <= i < |rs'| ensures rs'[i] == (rs + [x])[i] {
      if i < |rs| {
        assert (ks + [k])[i] == ks[i] && ks[i] in t.rows && ks[i] != k;
      }
    }
  }

  /** Overwriting an existing key replaces exactly the row at its position. */
  lemma PutExistingReplaces<T>(t: Table<T>, i: nat, x: T)
    requires i < |Keys(t)|
    ensures Keys(Put(t, Keys(t)[i], x)) == Keys(t)
    ensures Rows(Put(t, Keys(t)[i], x)) == Rows(t)[i := x]
  {
    var k := Keys(t)[i];
    var t' := Put(t, k, x);
    assert t'.rows.Keys == t.rows.Keys;
    assert t'.nextId == t.nextId;
  }
}
