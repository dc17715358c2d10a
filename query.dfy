/**
  The row-level operations that the repositories issue against a table:
  `WHERE` filters, `ORDER BY` on a text column, `UPDATE ... SET` on the
  matching rows, and the discipline of a primary key that the store assigns.
  A table is a sequence of rows kept in primary-key order, as SQLite keeps a
  rowid table.
*/
module Query {

  datatype Option<+T> = None | Some(value: T)

  /** Text ordering of SQLite's default BINARY collation: lexicographic on
      code points (byte order of UTF-8 agrees with code-point order). */
  predicate TextLe(a: string, b: string)
  {
    a == [] || (b != [] && (a[0] < b[0] || (a[0] == b[0] && TextLe(a[1..], b[1..]))))
  }

  lemma {:induction false} TextLeTotal(a: string, b: string)
    ensures TextLe(a, b) || TextLe(b, a)
  {
    if a != [] && b != [] && a[0] == b[0] {
      TextLeTotal(a[1..], b[1..]);
    }
  }

  lemma {:induction false} TextLeTransitive(a: string, b: string, c: string)
    requires TextLe(a, b) && TextLe(b, c)
    ensures TextLe(a, c)
  {
    if a != [] && a[0] == b[0] && b[0] == c[0] {
      TextLeTransitive(a[1..], b[1..], c[1..]);
    }
  }

  /** The rows are in ascending order of the text column `key`. */
  predicate SortedBy<T>(s: seq<T>, key: T -> string)
  {
    forall i, j :: 0 <= i < j < |s| ==> TextLe(key(s[i]), key(s[j]))
  }

  /** Every row of `s` has a key at or above `lo`. */
  predicate KeysFrom<T>(lo: string, s: seq<T>, key: T -> string)
  {
    forall k :: 0 <= k < |s| ==> TextLe(lo, key(s[k]))
  }

  /** A bound on the keys of `u` carries over to any permutation `t` of it. */
  lemma KeysFromPermutation<T>(lo: string, t: seq<T>, u: seq<T>, key: T -> string)
    requires multiset(t) == multiset(u)
    requires KeysFrom(lo, u, key)
    ensures KeysFrom(lo, t, key)
  {
    forall k | 0 <= k < |t|
      ensures TextLe(lo, key(t[k]))
    {
      assert t[k] in multiset(u);
      var m :| 0 <= m < |u| && u[m] == t[k];
    }
  }

  /** A row placed in front of a sorted sequence whose keys are all at or
      above its own keeps the sequence sorted. */
  lemma PrependSorted<T>(x: T, s: seq<T>, key: T -> string)
    requires SortedBy(s, key) && KeysFrom(key(x), s, key)
    ensures SortedBy([x] + s, key)
  {
  }

  /** One step of insertion sort: the row `x` goes before the first row whose
      key is at or above its own. */
  function InsertBy<T>(x: T, s: seq<T>, key: T -> string): (r: seq<T>)
    requires SortedBy(s, key)
    ensures multiset(r) == multiset(s) + multiset{x}
    ensures SortedBy(r, key)
  {
    if s == [] then [x]
    else if TextLe(key(x), key(s[0])) then
      SortedHeadBound(x, s, key);
      PrependSorted(x, s, key);
      [x] + s
    else
      var t := InsertBy(x, s[1..], key);
      TextLeTotal(key(x), key(s[0]));
      assert s == [s[0]] + s[1..];
      assert KeysFrom(key(s[0]), s[1..] + [x], key);
      KeysFromPermutation(key(s[0]), t, s[1..] + [x], key);
      PrependSorted(s[0], t, key);
      [s[0]] + t
  }

  /** In a sorted sequence, a key at or below the first key is at or below all of them. */
  lemma SortedHeadBound<T>(x: T, s: seq<T>, key: T -> string)
    requires SortedBy(s, key) && s != [] && TextLe(key(x), key(s[0]))
    ensures KeysFrom(key(x), s, key)
  {
    forall k | 0 <= k < |s|
      ensures TextLe(key(x), key(s[k]))
    {
      if k > 0 {
        TextLeTransitive(key(x), key(s[0]), key(s[k]));
      }
    }
  }

  /** `ORDER BY key`: the same rows, in ascending order of the key. Rows with
      equal keys may come in any order; only sortedness and permutation are
      promised. */
  function OrderBy<T>(s: seq<T>, key: T -> string): (r: seq<T>)
    ensures multiset(r) == multiset(s)
    ensures SortedBy(r, key)
  {
    if s == [] then []
    else
      assert s == [s[0]] + s[1..];
      InsertBy(s[0], OrderBy(s[1..], key), key)
  }

  /** Two permutations of each other hold the same rows. */
  lemma SameMembers<T>(r: seq<T>, s: seq<T>)
    requires multiset(r) == multiset(s)
    ensures forall i :: 0 <= i < |r| ==> r[i] in s
    ensures forall i :: 0 <= i < |s| ==> s[i] in r
  {
    forall i | 0 <= i < |r| ensures r[i] in s {
      assert r[i] in multiset(s);
    }
    forall i | 0 <= i < |s| ensures s[i] in r {
      assert s[i] in multiset(r);
    }
  }

  /** `WHERE p`: the rows that satisfy `p`, in table order. */
  function Filter<T>(s: seq<T>, p: T -> bool): (r: seq<T>)
    ensures |r| <= |s|
    ensures forall i :: 0 <= i < |r| ==> r[i] in s && p(r[i])
    ensures forall i :: 0 <= i < |s| && p(s[i]) ==> s[i] in r
    ensures multiset(r) <= multiset(s)
  {
    if s == [] then []
    else
      assert s == [s[0]] + s[1..];
      if p(s[0]) then [s[0]] + Filter(s[1..], p) else Filter(s[1..], p)
  }

  /** `UPDATE ... SET f WHERE p`: every matching row is rewritten by `f`, the
      others are kept, and the table order does not change. */
  function SetWhere<T>(s: seq<T>, p: T -> bool, f: T -> T): (r: seq<T>)
    ensures |r| == |s|
    ensures forall i :: 0 <= i < |s| && p(s[i]) ==> r[i] == f(s[i])
    ensures forall i :: 0 <= i < |s| && !p(s[i]) ==> r[i] == s[i]
  {
    seq(|s|, i requires 0 <= i < |s| => if p(s[i]) then f(s[i]) else s[i])
  }

  /** The predicate `id = k` of a filter on the primary key. */
  function IdIs<T>(id: T -> Option<int>, k: int): T -> bool
  {
    x => id(x) == Some(k)
  }

  /** The predicate `id <> k` (rows that a `DELETE ... WHERE id = k` keeps). */
  function IdIsNot<T>(id: T -> Option<int>, k: int): T -> bool
  {
    x => id(x) != Some(k)
  }

  /** Every row carries a primary key and the rows are in strictly ascending
      key order; in particular no two rows share a key. */
  predicate Keyed<T>(s: seq<T>, id: T -> Option<int>)
  {
    && (forall i :: 0 <= i < |s| ==> id(s[i]).Some?)
    && (forall i, j :: 0 <= i < j < |s| ==> id(s[i]).value < id(s[j]).value)
  }

  /** Every key in the table is below `k`, so `k` is a fresh key. */
  predicate Below<T>(s: seq<T>, id: T -> Option<int>, k: int)
  {
    forall i :: 0 <= i < |s| ==> id(s[i]).Some? && id(s[i]).value < k
  }

  /** Some row has key `k`. */
  predicate Has<T>(s: seq<T>, id: T -> Option<int>, k: int)
  {
    exists i :: 0 <= i < |s| && id(s[i]) == Some(k)
  }

  /** A fresh key is held by no row. */
  lemma BelowNotHas<T>(s: seq<T>, id: T -> Option<int>, k: int)
    requires Below(s, id, k)
    ensures !Has(s, id, k)
  {
  }

  /** Appending a row with a fresh key keeps the table keyed and in key order. */
  lemma AppendKeyed<T>(s: seq<T>, id: T -> Option<int>, x: T, k: int)
    requires Keyed(s, id) && Below(s, id, k) && id(x) == Some(k)
    ensures Keyed(s + [x], id) && Below(s + [x], id, k + 1)
  {
  }

  /** A filter keeps the table keyed and the fresh-key bound. */
  lemma {:induction false} FilterKeyed<T>(s: seq<T>, id: T -> Option<int>, p: T -> bool, k: int)
    requires Keyed(s, id) && Below(s, id, k)
    ensures Keyed(Filter(s, p), id) && Below(Filter(s, p), id, k)
  {
    if s != [] {
      var tail := s[1..];
      assert Keyed(tail, id) && Below(tail, id, k) by {
        assert forall i :: 0 <= i < |tail| ==> tail[i] == s[i + 1];
      }
      FilterKeyed(tail, id, p, k);
      var t := Filter(tail, p);
      if p(s[0]) {
        forall j | 0 <= j < |t|
          ensures id(s[0]).value < id(t[j]).value
        {
          assert t[j] in tail;
          var m :| 0 <= m < |tail| && tail[m] == t[j];
          assert s[m + 1] == t[j];
        }
        assert Filter(s, p) == [s[0]] + t;
        KeyedCons(s[0], t, id, k);
      } else {
        assert Filter(s, p) == t;
      }
    }
  }

  /** A keyed table stays keyed under a new first row with a smaller key. */
  lemma KeyedCons<T>(x: T, t: seq<T>, id: T -> Option<int>, k: int)
    requires Keyed(t, id) && Below(t, id, k)
    requires id(x).Some? && id(x).value < k
    requires forall j :: 0 <= j < |t| ==> id(x).value < id(t[j]).value
    ensures Keyed([x] + t, id) && Below([x] + t, id, k)
  {
    var r := [x] + t;
    assert forall j :: 1 <= j < |r| ==> r[j] == t[j - 1];
  }

  /** In a keyed table the row at index `i` is the only row with its key:
      filtering on the key yields exactly that row. */
  lemma {:induction false} UniqueKeyMatch<T>(s: seq<T>, id: T -> Option<int>, i: int)
    requires Keyed(s, id) && 0 <= i < |s|
    ensures Filter(s, IdIs(id, id(s[i]).value)) == [s[i]]
  {
    var k := id(s[i]).value;
    var tail := s[1..];
    KeyedTail(s, id);
    if i == 0 {
      KeysAboveHead(s, id);
      NoKeyFilter(tail, id, k);
      assert Filter(s, IdIs(id, k)) == [s[0]] + Filter(tail, IdIs(id, k));
    } else {
      assert tail[i - 1] == s[i];
      UniqueKeyMatch(tail, id, i - 1);
      assert Filter(s, IdIs(id, k)) == Filter(tail, IdIs(id, k));
    }
  }

  /** In a keyed table, deleting by the key of the row at index `i` removes
      exactly that row. */
  lemma {:induction false} UniqueKeyDelete<T>(s: seq<T>, id: T -> Option<int>, i: int)
    requires Keyed(s, id) && 0 <= i < |s|
    ensures Filter(s, IdIsNot(id, id(s[i]).value)) == s[..i] + s[i + 1..]
  {
    var k := id(s[i]).value;
    var tail := s[1..];
    KeyedTail(s, id);
    if i == 0 {
      KeysAboveHead(s, id);
      NoKeyFilter(tail, id, k);
      assert Filter(s, IdIsNot(id, k)) == Filter(tail, IdIsNot(id, k));
    } else {
      assert tail[i - 1] == s[i];
      UniqueKeyDelete(tail, id, i - 1);
      assert id(s[0]).value < k;
      DeleteAfterHead(s, id, k, i);
    }
  }

  /** Deleting a key other than the first row's, at index `i > 0`, keeps the
      first row in front of what the deletion leaves of the rest. */
  lemma DeleteAfterHead<T>(s: seq<T>, id: T -> Option<int>, k: int, i: int)
    requires 0 < i < |s| && id(s[0]) != Some(k)
    requires Filter(s[1..], IdIsNot(id, k)) == s[1..][..i - 1] + s[1..][i..]
    ensures Filter(s, IdIsNot(id, k)) == s[..i] + s[i + 1..]
  {
    SliceAfterHead(s, i);
    calc {
      Filter(s, IdIsNot(id, k));
      [s[0]] + Filter(s[1..], IdIsNot(id, k));
      [s[0]] + (s[1..][..i - 1] + s[1..][i..]);
      s[..i] + s[i + 1..];
    }
  }

  /** Removing index `i > 0` commutes with splitting off the first element. */
  lemma SliceAfterHead<T>(s: seq<T>, i: int)
    requires 0 < i < |s|
    ensures s[..i] + s[i + 1..] == [s[0]] + (s[1..][..i - 1] + s[1..][i..])
  {
    assert s[..i] == [s[0]] + s[1..][..i - 1];
    assert s[i + 1..] == s[1..][i..];
  }

  /** The rows after the first of a keyed table form a keyed table. */
  lemma KeyedTail<T>(s: seq<T>, id: T -> Option<int>)
    requires Keyed(s, id) && s != []
    ensures Keyed(s[1..], id)
  {
    assert forall j :: 0 <= j < |s[1..]| ==> s[1..][j] == s[j + 1];
  }

  /** No row after the first of a keyed table has the first row's key. */
  lemma KeysAboveHead<T>(s: seq<T>, id: T -> Option<int>)
    requires Keyed(s, id) && s != []
    ensures forall j :: 0 <= j < |s[1..]| ==> id(s[1..][j]) != id(s[0])
  {
    assert forall j :: 0 <= j < |s[1..]| ==> s[1..][j] == s[j + 1];
  }

  /** When no row has key `k`, a filter on `id = k` is empty and the
      complementary filter keeps every row. */
  lemma {:induction false} NoKeyFilter<T>(s: seq<T>, id: T -> Option<int>, k: int)
    requires forall j :: 0 <= j < |s| ==> id(s[j]) != Some(k)
    ensures Filter(s, IdIs(id, k)) == []
    ensures Filter(s, IdIsNot(id, k)) == s
  {
    if s != [] {
      NoKeyFilter(s[1..], id, k);
      assert s == [s[0]] + s[1..];
    }
  }

  /** An `UPDATE` that rewrites non-key columns only keeps the table keyed. */
  lemma SetWhereKeyed<T>(s: seq<T>, id: T -> Option<int>, p: T -> bool, f: T -> T, k: int)
    requires Keyed(s, id) && Below(s, id, k)
    requires forall x :: id(f(x)) == id(x)
    ensures Keyed(SetWhere(s, p, f), id) && Below(SetWhere(s, p, f), id, k)
  {
    var r := SetWhere(s, p, f);
    assert forall i :: 0 <= i < |s| ==> id(r[i]) == id(s[i]);
  }
}
