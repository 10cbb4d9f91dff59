/** The repository contract the services are written against: a table is a
    map from primary key to row, `GetAll` enumerates it in key order, `Find`
    filters that enumeration, and LINQ's `SingleOrDefault` and `Join` are
    stated over the resulting sequences. */
module Store {
  import opened Wrappers

  /** Every non-empty finite set of integers has a least element. */
  lemma {:induction false} LeastKeyExists(ks: set<int>)
    requires ks != {}
    ensures exists k :: k in ks && forall j :: j in ks ==> k <= j
    decreases |ks|
  {
    if forall x :: x !in ks {
      assert false;
    }
    var x :| x in ks;
    var rest := ks - {x};
    var least := x;
    if rest != {} {
      LeastKeyExists(rest);
      var k :| k in rest && forall j :: j in rest ==> k <= j;
      least := if x <= k then x else k;
    }
    forall j | j in ks ensures least <= j {
      if j != x {
        assert j in rest;
      }
    }
    assert least in ks;
  }

  /** The least key of a non-empty key set. */
  function LeastKey(ks: set<int>): (k: int)
    requires ks != {}
    ensures k in ks && forall j :: j in ks ==> k <= j
  {
    LeastKeyExists(ks);
    var k :| k in ks && forall j :: j in ks ==> k <= j;
    k
  }

  /** The keys of a table in ascending order: each key exactly once. */
  function SortedKeys(ks: set<int>): (r: seq<int>)
    ensures |r| == |ks|
    ensures forall i :: 0 <= i < |r| ==> r[i] in ks
    ensures forall k :: k in ks ==> k in r
    decreases |ks|
  {
    if ks == {} then []
    else
      var k := LeastKey(ks);
      var rest := SortedKeys(ks - {k});
      assert forall x :: x in ks ==> x == k || x in ks - {k};
      [k] + rest
  }

  /** The enumeration is strictly ascending, so no key appears twice. */
  lemma {:induction false} SortedKeysAscending(ks: set<int>)
    ensures forall i, j :: 0 <= i < j < |SortedKeys(ks)| ==> SortedKeys(ks)[i] < SortedKeys(ks)[j]
    decreases |ks|
  {
    if ks != {} {
      var k := LeastKey(ks);
      var rest := SortedKeys(ks - {k});
      SortedKeysAscending(ks - {k});
      var r := SortedKeys(ks);
      assert r == [k] + rest;
      forall i, j | 0 <= i < j < |r| ensures r[i] < r[j] {
        assert r[j] == rest[j - 1] && rest[j - 1] in ks - {k};
        assert k <= rest[j - 1] && k != rest[j - 1];
        if i > 0 {
          assert r[i] == rest[i - 1] && rest[i - 1] < rest[j - 1];
        } else {
          assert r[i] == k;
        }
      }
    }
  }

  /** `GetAll()`: the rows of a table, one per key, in key order. */
  function Rows<T(==, !new)>(m: map<int, T>): (r: seq<T>)
    ensures |r| == |m|
    ensures forall x :: x in r <==> x in m.Values
    ensures forall k :: k in m ==> exists i :: 0 <= i < |r| && r[i] == m[k]
  {
    var ks := SortedKeys(m.Keys);
    var r := seq(|ks|, i requires 0 <= i < |ks| => m[ks[i]]);
    RowsCover(m, ks, r);
    r
  }

  lemma RowsCover<T(!new)>(m: map<int, T>, ks: seq<int>, r: seq<T>)
    requires |ks| == |r| == |m.Keys|
    requires forall i :: 0 <= i < |ks| ==> ks[i] in m && r[i] == m[ks[i]]
    requires forall k :: k in m ==> k in ks
    ensures |r| == |m|
    ensures forall x :: x in r <==> x in m.Values
    ensures forall k :: k in m ==> exists i :: 0 <= i < |r| && r[i] == m[k]
  {
    forall k | k in m ensures exists i :: 0 <= i < |r| && r[i] == m[k] {
      var i :| 0 <= i < |ks| && ks[i] == k;
      assert r[i] == m[k];
    }
    forall x | x in m.Values ensures x in r {
      if forall k :: k in m ==> m[k] != x {
        assert false;
      }
      var k :| k in m && m[k] == x;
      var i :| 0 <= i < |r| && r[i] == m[k];
    }
  }

  /** A table is keyed by `id` when every row sits under its own id. */
  ghost predicate KeyedBy<T>(m: map<int, T>, id: T -> int) {
    forall k :: k in m ==> id(m[k]) == k
  }

  /** Under a primary key the rows of `Rows(m)` have pairwise distinct ids. */
  lemma RowIdsDistinct<T(!new)>(m: map<int, T>, id: T -> int)
    requires KeyedBy(m, id)
    ensures forall i, j :: 0 <= i < j < |Rows(m)| ==> id(Rows(m)[i]) != id(Rows(m)[j])
  {
    var ks := SortedKeys(m.Keys);
    SortedKeysAscending(m.Keys);
    forall i, j | 0 <= i < j < |Rows(m)| ensures id(Rows(m)[i]) != id(Rows(m)[j]) {
      assert Rows(m)[i] == m[ks[i]] && Rows(m)[j] == m[ks[j]];
      assert id(Rows(m)[i]) == ks[i] && id(Rows(m)[j]) == ks[j] && ks[i] < ks[j];
    }
  }

  /** LINQ `Where`: the elements of `s` satisfying `p`, in their order in `s`. */
  function Where<T(!new)>(s: seq<T>, p: T -> bool): (r: seq<T>)
    ensures |r| <= |s|
    ensures forall x :: x in r <==> x in s && p(x)
  {
    if s == [] then []
    else (if p(s[0]) then [s[0]] else []) + Where(s[1..], p)
  }

  /** `Find(x => x.Column == value)`: the rows of `s` whose `column` equals
      `value`, in their order in `s`. */
  function WhereEq<T(!new), K(==)>(s: seq<T>, column: T -> K, value: K): (r: seq<T>)
    ensures |r| <= |s|
    ensures forall x :: x in r <==> x in s && column(x) == value
  {
    if s == [] then []
    else (if column(s[0]) == value then [s[0]] else []) + WhereEq(s[1..], column, value)
  }

  /** Looking a primary key up through `Find(y => y.Id == k)`: the row under
      `k`, or nothing when the key is absent. */
  lemma FindByKey<T(!new)>(m: map<int, T>, id: T -> int, k: int)
    requires KeyedBy(m, id)
    ensures WhereEq(Rows(m), id, k) == (if k in m then [m[k]] else [])
  {
    if k in m {
      FindUnique(m, id, id, k, k);
    } else {
      FindNone(m, id, k);
    }
  }

  /** The outcome of LINQ's `SingleOrDefault`: no row (`null`), exactly one
      row, or more than one (an `InvalidOperationException`). */
  datatype Single<+T> = NoRow | OneRow(row: T) | ManyRows

  function SingleOrDefault<T>(s: seq<T>): (r: Single<T>)
    ensures r.NoRow? <==> s == []
    ensures r.OneRow? <==> |s| == 1
    ensures r.OneRow? ==> s == [r.row]
  {
    if |s| == 0 then NoRow
    else if |s| == 1 then OneRow(s[0])
    else ManyRows
  }

  /** The inner rows an outer row with key `key` joins with; a null key joins with none. */
  function Matching<R(!new)>(key: Option<int>, inner: seq<R>, innerKey: R -> int): seq<R> {
    if key.None? then [] else WhereEq(inner, innerKey, key.value)
  }

  /** LINQ's `Join` (an inner equi-join): for each outer row in order, one
      output per matching inner row, in the inner order. */
  function Join<A, R(!new), B>(outer: seq<A>, inner: seq<R>, outerKey: A -> Option<int>,
                         innerKey: R -> int, combine: (A, R) -> B): seq<B>
  {
    if outer == [] then []
    else
      var ms := Matching(outerKey(outer[0]), inner, innerKey);
      seq(|ms|, i requires 0 <= i < |ms| => combine(outer[0], ms[i]))
      + Join(outer[1..], inner, outerKey, innerKey, combine)
  }

  /** A join processes its outer rows one at a time, so it distributes over concatenation. */
  lemma {:induction false} JoinAppend<A, R(!new), B>(a: seq<A>, b: seq<A>, inner: seq<R>, outerKey: A -> Option<int>,
                                                innerKey: R -> int, combine: (A, R) -> B)
    ensures Join(a + b, inner, outerKey, innerKey, combine)
         == Join(a, inner, outerKey, innerKey, combine) + Join(b, inner, outerKey, innerKey, combine)
  {
    if a == [] {
      assert a + b == b;
    } else {
      assert (a + b)[0] == a[0];
      assert (a + b)[1..] == a[1..] + b;
      JoinAppend(a[1..], b, inner, outerKey, innerKey, combine);
    }
  }

  /** Joining one outer row against a keyed table: it survives, combined
      with the row under its key, exactly when that key is present. */
  lemma JoinOneKeyed<A, R(!new), B>(a: A, m: map<int, R>, outerKey: A -> Option<int>,
                                         innerKey: R -> int, combine: (A, R) -> B)
    requires KeyedBy(m, innerKey)
    ensures Join([a], Rows(m), outerKey, innerKey, combine)
         == (if outerKey(a).Some? && outerKey(a).value in m then [combine(a, m[outerKey(a).value])] else [])
  {
    assert [a][1..] == [];
    if outerKey(a).Some? {
      FindByKey(m, innerKey, outerKey(a).value);
    }
  }

  /** A filter that no row passes returns nothing. */
  lemma {:induction false} WhereEqNone<T(!new), K>(s: seq<T>, column: T -> K, value: K)
    requires forall i :: 0 <= i < |s| ==> column(s[i]) != value
    ensures WhereEq(s, column, value) == []
  {
    if s != [] {
      assert forall i :: 0 <= i < |s[1..]| ==> s[1..][i] == s[i + 1];
      WhereEqNone(s[1..], column, value);
    }
  }

  /** A filter that exactly the row at `i0` passes returns that row alone. */
  lemma {:induction false} WhereEqAt<T(!new), K>(s: seq<T>, column: T -> K, value: K, i0: int)
    requires 0 <= i0 < |s| && column(s[i0]) == value
    requires forall i :: 0 <= i < |s| && i != i0 ==> column(s[i]) != value
    ensures WhereEq(s, column, value) == [s[i0]]
  {
    var tail := s[1..];
    assert forall i :: 0 <= i < |tail| ==> tail[i] == s[i + 1];
    if i0 == 0 {
      WhereEqNone(tail, column, value);
    } else {
      WhereEqAt(tail, column, value, i0 - 1);
    }
  }

  /** When exactly one key of a keyed table holds a row whose `column` is
      `value`, `Find` by that column returns that row alone. */
  lemma FindUnique<T(!new), K>(m: map<int, T>, id: T -> int, column: T -> K, value: K, k: int)
    requires KeyedBy(m, id)
    requires k in m && column(m[k]) == value
    requires forall j :: j in m && j != k ==> column(m[j]) != value
    ensures WhereEq(Rows(m), column, value) == [m[k]]
  {
    var s := Rows(m);
    RowIdsDistinct(m, id);
    var i0 :| 0 <= i0 < |s| && s[i0] == m[k];
    forall i | 0 <= i < |s| && i != i0 ensures column(s[i]) != value {
      assert s[i] in m.Values;
      if forall j :: j in m ==> m[j] != s[i] {
        assert false;
      }
      var j :| j in m && m[j] == s[i];
      assert id(s[i]) != id(s[i0]);
    }
    WhereEqAt(s, column, value, i0);
  }

  /** Removing a key just added to a map that lacked it gives the map back. */
  lemma RemoveAdded<T>(m: map<int, T>, k: int, v: T)
    requires k !in m
    ensures m[k := v] - {k} == m
  {
    assert (m[k := v] - {k}).Keys == m.Keys;
  }

  /** Storing a row under a key that already holds it changes nothing. */
  lemma StoreSame<T>(m: map<int, T>, k: int, v: T)
    requires k in m && m[k] == v
    ensures m[k := v] == m
  {
    assert m[k := v].Keys == m.Keys;
  }

  /** When no row of a table has `value` in `column`, `Find` by it returns nothing. */
  lemma FindNone<T(!new), K>(m: map<int, T>, column: T -> K, value: K)
    requires forall k :: k in m ==> column(m[k]) != value
    ensures WhereEq(Rows(m), column, value) == []
  {
    var s := Rows(m);
    forall i | 0 <= i < |s| ensures column(s[i]) != value {
      assert s[i] in m.Values;
      if forall k :: k in m ==> m[k] != s[i] {
        assert false;
      }
      var k :| k in m && m[k] == s[i];
    }
    WhereEqNone(s, column, value);
  }
}
