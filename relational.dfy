/** The relational operations the handlers' queries are built from, over a
    table held as a sequence of rows in physical order. Columns are passed
    as named selector functions, so that two uses of the same column are the
    same function value. */
module Relational {
  import opened Values

  /** `SELECT * FROM s WHERE col = v`, in table order. */
  function Where<T(!new), K(==)>(s: seq<T>, col: T -> K, v: K): (r: seq<T>)
    ensures |r| <= |s|
    ensures forall x :: x in r <==> x in s && col(x) == v
  {
    if s == [] then []
    else if col(s[0]) == v then [s[0]] + Where(s[1..], col, v)
    else Where(s[1..], col, v)
  }

  /** `SELECT * FROM s WHERE col = v LIMIT 1`: the first matching row in
      table order, if any. */
  function First<T(!new), K(==)>(s: seq<T>, col: T -> K, v: K): (r: Option<T>)
    ensures r.Some? ==> r.value in s && col(r.value) == v
    ensures r.None? <==> forall x :: x in s ==> col(x) != v
    ensures r.Some? ==> exists i :: 0 <= i < |s| && s[i] == r.value && forall j :: 0 <= j < i ==> col(s[j]) != v
  {
    if s == [] then None
    else if col(s[0]) == v then Some(s[0])
    else
      var r := First(s[1..], col, v);
      assert forall x :: x in s ==> x == s[0] || x in s[1..];
      assert r.Some? ==> exists i :: 0 <= i < |s| && s[i] == r.value && forall j :: 0 <= j < i ==> col(s[j]) != v by {
        if r.Some? {
          var i :| 0 <= i < |s[1..]| && s[1..][i] == r.value && forall j :: 0 <= j < i ==> col(s[1..][j]) != v;
          assert s[i + 1] == r.value;
          assert forall j :: 0 < j < i + 1 ==> s[j] == s[1..][j - 1];
        }
      }
      r
  }

  /** The rows `DELETE FROM s WHERE col = v` leaves behind, in table order. */
  function Without<T(!new), K(==)>(s: seq<T>, col: T -> K, v: K): (r: seq<T>)
    ensures |r| <= |s|
    ensures forall x :: x in r <==> x in s && col(x) != v
  {
    if s == [] then []
    else if col(s[0]) != v then [s[0]] + Without(s[1..], col, v)
    else Without(s[1..], col, v)
  }

  /** The set of values a column takes in a table. */
  ghost function Column<T(!new), K>(s: seq<T>, col: T -> K): set<K>
  {
    set x | x in s :: col(x)
  }

  /** A UNIQUE (or PRIMARY KEY) constraint: no two rows agree on `col`. */
  ghost predicate UniqueBy<T(!new), K>(s: seq<T>, col: T -> K)
  {
    forall i, j :: 0 <= i < j < |s| ==> col(s[i]) != col(s[j])
  }

  /** The values of a column over a row followed by a table. */
  lemma ColumnCons<T(!new), K>(x: T, s: seq<T>, col: T -> K)
    ensures Column([x] + s, col) == {col(x)} + Column(s, col)
  {
    var t := [x] + s;
    assert x in t;
    assert forall y :: y in t <==> y == x || y in s;
  }

  /** A row followed by a table is unique on `col` exactly when the table
      is and the row's value is not already in the column. */
  lemma UniqueCons<T(!new), K>(x: T, s: seq<T>, col: T -> K)
    ensures UniqueBy([x] + s, col) <==> UniqueBy(s, col) && col(x) !in Column(s, col)
  {
    var t := [x] + s;
    assert forall i :: 0 <= i < |s| ==> t[i + 1] == s[i];
    if UniqueBy(t, col) {
      forall y | y in s ensures col(y) != col(x) {
        var k :| 0 <= k < |s| && s[k] == y;
        assert t[0] == x && t[k + 1] == y;
        assert col(t[0]) != col(t[k + 1]);
      }
    }
    if UniqueBy(s, col) && col(x) !in Column(s, col) {
      forall i, j | 0 <= i < j < |t| ensures col(t[i]) != col(t[j]) {
        if i == 0 {
          assert t[j] in s;
        }
      }
    }
  }

  /** Under a UNIQUE constraint a value of the column identifies its row. */
  lemma SameKeySameRow<T(!new), K>(s: seq<T>, col: T -> K, x: T, y: T)
    requires UniqueBy(s, col) && x in s && y in s && col(x) == col(y)
    ensures x == y
  {
    var i :| 0 <= i < |s| && s[i] == x;
    var j :| 0 <= j < |s| && s[j] == y;
    assert forall a, b :: 0 <= a < |s| && 0 <= b < |s| && a != b ==> col(s[a]) != col(s[b]) by {
      forall a, b | 0 <= a < |s| && 0 <= b < |s| && a != b ensures col(s[a]) != col(s[b]) {
        if a > b {
          assert col(s[b]) != col(s[a]);
        }
      }
    }
  }

  /** Under a UNIQUE constraint `… WHERE col = v LIMIT 1` finds the one row holding `v`. */
  lemma FirstUnique<T(!new), K>(s: seq<T>, col: T -> K, v: K, x: T)
    requires UniqueBy(s, col) && x in s && col(x) == v
    ensures First(s, col, v) == Some(x)
  {
    SameKeySameRow(s, col, x, First(s, col, v).value);
  }

  /** Appending a row whose value is new to a UNIQUE column keeps the constraint. */
  lemma AppendUnique<T(!new), K>(s: seq<T>, col: T -> K, x: T)
    requires UniqueBy(s, col) && col(x) !in Column(s, col)
    ensures UniqueBy(s + [x], col)
  {
    var t := s + [x];
    forall i, j | 0 <= i < j < |t| ensures col(t[i]) != col(t[j]) {
      if j == |s| {
        assert t[i] in s;
      }
    }
  }

  /** A FOREIGN KEY constraint: every `fk` value of `s` is a `pk` value of `t`. */
  ghost predicate RefersTo<T(!new), U(!new), K>(s: seq<T>, fk: T -> K, t: seq<U>, pk: U -> K)
  {
    forall x :: x in s ==> fk(x) in Column(t, pk)
  }

  /** A foreign key still holds when the referenced table gains key values. */
  lemma RefersToWider<T(!new), U(!new), K>(s: seq<T>, fk: T -> K, t: seq<U>, t': seq<U>, pk: U -> K)
    requires RefersTo(s, fk, t, pk) && Column(t, pk) <= Column(t', pk)
    ensures RefersTo(s, fk, t', pk)
  {
  }

  /** Inserting a row whose foreign key is present keeps the foreign key. */
  lemma RefersToAppend<T(!new), U(!new), K>(s: seq<T>, x: T, fk: T -> K, t: seq<U>, pk: U -> K)
    requires RefersTo(s, fk, t, pk) && fk(x) in Column(t, pk)
    ensures RefersTo(s + [x], fk, t, pk)
  {
  }

  /** A DELETE on the referring table keeps its foreign keys. */
  lemma RefersToWithout<T(!new), U(!new), K, L>(s: seq<T>, col: T -> L, v: L, fk: T -> K, t: seq<U>, pk: U -> K)
    requires RefersTo(s, fk, t, pk)
    ensures RefersTo(Without(s, col, v), fk, t, pk)
  {
  }

  /** ON DELETE CASCADE: deleting key `v` from the referenced table and every
      row that refers to `v` keeps the foreign key. */
  lemma RefersToCascade<T(!new), U(!new), K>(s: seq<T>, fk: T -> K, t: seq<U>, pk: U -> K, v: K)
    requires RefersTo(s, fk, t, pk)
    ensures RefersTo(Without(s, fk, v), fk, Without(t, pk, v), pk)
  {
    WithoutColumn(t, pk, v);
  }

  /** Every row of a WHERE lands in exactly one of the kept and deleted parts. */
  lemma {:induction false} WhereWithoutSplit<T(!new), K>(s: seq<T>, col: T -> K, v: K)
    ensures |Where(s, col, v)| + |Without(s, col, v)| == |s|
  {
    if s != [] {
      WhereWithoutSplit(s[1..], col, v);
    }
  }

  /** Under a UNIQUE constraint a lookup by that column matches at most one row. */
  lemma {:induction false} WhereUnique<T(!new), K>(s: seq<T>, col: T -> K, v: K)
    requires UniqueBy(s, col)
    ensures |Where(s, col, v)| <= 1
    ensures v in Column(s, col) ==> |Where(s, col, v)| == 1
  {
    if s != [] {
      assert UniqueBy(s[1..], col) by {
        forall i, j | 0 <= i < j < |s[1..]| ensures col(s[1..][i]) != col(s[1..][j]) {
          assert s[1..][i] == s[i + 1] && s[1..][j] == s[j + 1];
        }
      }
      WhereUnique(s[1..], col, v);
      if col(s[0]) == v {
        forall x | x in s[1..] ensures col(x) != v {
          var k :| 0 <= k < |s[1..]| && s[1..][k] == x;
          assert s[k + 1] == x;
        }
        NoMatchIsEmpty(s[1..], col, v);
      } else if v in Column(s, col) {
        var x :| x in s && col(x) == v;
        assert x in s[1..];
      }
    }
  }

  /** A WHERE that no row satisfies returns no rows. */
  lemma {:induction false} NoMatchIsEmpty<T(!new), K>(s: seq<T>, col: T -> K, v: K)
    requires forall x :: x in s ==> col(x) != v
    ensures Where(s, col, v) == []
  {
    if s != [] {
      assert s[0] in s;
      NoMatchIsEmpty(s[1..], col, v);
    }
  }

  /** Deleting by a unique key that is present removes exactly one row. */
  lemma DeleteUniqueRemovesOne<T(!new), K>(s: seq<T>, col: T -> K, v: K)
    requires UniqueBy(s, col)
    requires v in Column(s, col)
    ensures |Without(s, col, v)| == |s| - 1
  {
    WhereUnique(s, col, v);
    WhereWithoutSplit(s, col, v);
  }

  /** A DELETE keeps every UNIQUE constraint of the table. */
  lemma {:induction false} WithoutKeepsUnique<T(!new), K, L>(s: seq<T>, col: T -> K, v: K, key: T -> L)
    requires UniqueBy(s, key)
    ensures UniqueBy(Without(s, col, v), key)
  {
    if s != [] {
      assert UniqueBy(s[1..], key) by {
        forall i, j | 0 <= i < j < |s[1..]| ensures key(s[1..][i]) != key(s[1..][j]) {
          assert s[1..][i] == s[i + 1] && s[1..][j] == s[j + 1];
        }
      }
      WithoutKeepsUnique(s[1..], col, v, key);
      var w := Without(s[1..], col, v);
      if col(s[0]) != v {
        forall j | 0 <= j < |w| ensures key(s[0]) != key(w[j]) {
          assert w[j] in s[1..];
          var k :| 0 <= k < |s[1..]| && s[1..][k] == w[j];
          assert s[k + 1] == w[j];
        }
      }
    }
  }

  /** The key column after a DELETE by that key: the deleted value is gone. */
  lemma WithoutColumn<T(!new), K>(s: seq<T>, col: T -> K, v: K)
    ensures Column(Without(s, col, v), col) == Column(s, col) - {v}
  {
    var w := Without(s, col, v);
    forall k | k in Column(s, col) - {v} ensures k in Column(w, col) {
      var x :| x in s && col(x) == k;
      assert x in w;
    }
  }

  /** `UPDATE s SET … WHERE col = v`, where the SET list turns a matching row `y` into `f(y)`. */
  function Modify<T(!new), K(==)>(s: seq<T>, col: T -> K, v: K, f: T -> T): (r: seq<T>)
    ensures |r| == |s|
    ensures forall i :: 0 <= i < |s| ==> r[i] == if col(s[i]) == v then f(s[i]) else s[i]
  {
    seq(|s|, i requires 0 <= i < |s| => if col(s[i]) == v then f(s[i]) else s[i])
  }

  /** `UPDATE s SET … WHERE col = v`, where every matching row becomes `x`. */
  function Update<T(!new), K(==)>(s: seq<T>, col: T -> K, v: K, x: T): (r: seq<T>)
    ensures |r| == |s|
    ensures forall i :: 0 <= i < |s| ==> r[i] == if col(s[i]) == v then x else s[i]
    ensures forall y :: y in r ==> y == x || y in s
  {
    Modify(s, col, v, y => x)
  }

  /** An UPDATE by a unique column that keeps that column keeps every UNIQUE
      constraint the new row agrees with the old one on. */
  lemma UpdateKeepsUnique<T(!new), K, L>(s: seq<T>, col: T -> K, v: K, x: T, key: T -> L)
    requires UniqueBy(s, col) && UniqueBy(s, key) && col(x) == v
    requires forall i :: 0 <= i < |s| && col(s[i]) == v ==> key(s[i]) == key(x)
    ensures UniqueBy(Update(s, col, v, x), key)
  {
  }

  /** An UPDATE by a key that keeps the key leaves the key's values as they were. */
  lemma UpdateKeepsColumn<T(!new), K>(s: seq<T>, col: T -> K, v: K, x: T)
    requires v in Column(s, col) && col(x) == v
    ensures Column(Update(s, col, v, x), col) == Column(s, col)
  {
    var r := Update(s, col, v, x);
    forall k | k in Column(s, col) ensures k in Column(r, col) {
      var y :| y in s && col(y) == k;
      var i :| 0 <= i < |s| && s[i] == y;
      assert r[i] in r;
    }
  }

  /** A row of an inner join: the left row and the right row it matched. */
  datatype Pair<A, B> = Pair(left: A, right: B)

  /** `xs INNER JOIN ys ON on(x, y)`, left rows outermost. */
  function Join<A(!new), B(!new)>(xs: seq<A>, ys: seq<B>, on: (A, B) -> bool): (r: seq<Pair<A, B>>)
    ensures forall p :: p in r <==> p.left in xs && p.right in ys && on(p.left, p.right)
  {
    if xs == [] then [] else Matches(xs[0], ys, on) + Join(xs[1..], ys, on)
  }

  /** The join rows contributed by one left row. */
  function Matches<A(!new), B(!new)>(x: A, ys: seq<B>, on: (A, B) -> bool): (r: seq<Pair<A, B>>)
    ensures forall p :: p in r <==> p.left == x && p.right in ys && on(x, p.right)
  {
    if ys == [] then []
    else (if on(x, ys[0]) then [Pair(x, ys[0])] else []) + Matches(x, ys[1..], on)
  }

  /** No row occurs twice. */
  ghost predicate Distinct<T(!new)>(s: seq<T>)
  {
    forall i, j :: 0 <= i < j < |s| ==> s[i] != s[j]
  }

  /** A table with a UNIQUE column holds no row twice. */
  lemma UniqueDistinct<T(!new), K>(s: seq<T>, col: T -> K)
    requires UniqueBy(s, col)
    ensures Distinct(s)
  {
  }

  lemma DistinctConcat<T(!new)>(a: seq<T>, b: seq<T>)
    requires Distinct(a) && Distinct(b) && forall x :: x in a ==> x !in b
    ensures Distinct(a + b)
  {
    var c := a + b;
    forall i, j | 0 <= i < j < |c| ensures c[i] != c[j] {
      if i < |a| <= j {
        assert c[i] in a && c[j] == b[j - |a|];
      }
    }
  }

  lemma DistinctTail<T(!new)>(s: seq<T>)
    requires Distinct(s) && s != []
    ensures Distinct(s[1..]) && s[0] !in s[1..]
  {
  }

  /** A WHERE over a table without repeated rows repeats none. */
  lemma {:induction false} WhereDistinct<T(!new), K>(s: seq<T>, col: T -> K, v: K)
    requires Distinct(s)
    ensures Distinct(Where(s, col, v))
  {
    if s != [] {
      DistinctTail(s);
      WhereDistinct(s[1..], col, v);
      if col(s[0]) == v {
        DistinctConcat([s[0]], Where(s[1..], col, v));
      }
    }
  }

  lemma {:induction false} MatchesDistinct<A(!new), B(!new)>(x: A, ys: seq<B>, on: (A, B) -> bool)
    requires Distinct(ys)
    ensures Distinct(Matches(x, ys, on))
  {
    if ys != [] {
      DistinctTail(ys);
      MatchesDistinct(x, ys[1..], on);
      DistinctConcat(if on(x, ys[0]) then [Pair(x, ys[0])] else [], Matches(x, ys[1..], on));
    }
  }

  /** An inner join of two tables without repeated rows yields each matching pair once. */
  lemma {:induction false} JoinDistinct<A(!new), B(!new)>(xs: seq<A>, ys: seq<B>, on: (A, B) -> bool)
    requires Distinct(xs) && Distinct(ys)
    ensures Distinct(Join(xs, ys, on))
  {
    if xs != [] {
      DistinctTail(xs);
      MatchesDistinct(xs[0], ys, on);
      JoinDistinct(xs[1..], ys, on);
      DistinctConcat(Matches(xs[0], ys, on), Join(xs[1..], ys, on));
    }
  }

  /** The rows of a sub-multiset are rows of the whole. */
  lemma SubMultisetMembers<T>(r: seq<T>, s: seq<T>)
    requires multiset(r) <= multiset(s)
    ensures forall x :: x in r ==> x in s
  {
    forall x | x in r ensures x in s {
      assert x in multiset(r);
    }
  }

  /** A sequence without repeats holds each value at most once. */
  lemma {:induction false} DistinctCounts<T(!new)>(s: seq<T>)
    requires Distinct(s)
    ensures forall x :: multiset(s)[x] <= 1
  {
    if s != [] {
      DistinctTail(s);
      DistinctCounts(s[1..]);
      assert s == [s[0]] + s[1..];
    }
  }

  /** A value at two positions is held at least twice. */
  lemma RepeatCounts<T>(r: seq<T>, i: int, j: int)
    requires 0 <= i < j < |r| && r[i] == r[j]
    ensures multiset(r)[r[i]] >= 2
  {
    assert r == r[..j] + r[j..];
    assert r[..j][i] == r[i] && r[j..][0] == r[j];
  }

  /** Rows taken from a table without repeats (a sub-multiset, as a LIMIT
      over an ORDER BY gives) repeat none either. */
  lemma SubMultisetDistinct<T(!new)>(r: seq<T>, s: seq<T>)
    requires Distinct(s) && multiset(r) <= multiset(s)
    ensures Distinct(r)
  {
    DistinctCounts(s);
    forall i, j | 0 <= i < j < |r| ensures r[i] != r[j] {
      if r[i] == r[j] {
        RepeatCounts(r, i, j);
      }
    }
  }

  /** A sort key; `NullKey` is SQL NULL. */
  datatype Key = NullKey | IntKey(k: int)

  /** `a` may come before `b` under `ORDER BY … DESC`. Postgres places NULL
      first in descending order, as if it were larger than every value. */
  predicate NoLater(a: Key, b: Key)
  {
    a.NullKey? || (b.IntKey? && a.k >= b.k)
  }

  ghost predicate SortedDesc<T(!new)>(s: seq<T>, key: T -> Key)
  {
    forall i, j :: 0 <= i < j < |s| ==> NoLater(key(s[i]), key(s[j]))
  }

  function Insert<T(!new)>(x: T, s: seq<T>, key: T -> Key): seq<T>
  {
    if s == [] || NoLater(key(x), key(s[0])) then [x] + s
    else [s[0]] + Insert(x, s[1..], key)
  }

  /** `ORDER BY key DESC`: an insertion sort (the order of ties is not specified by SQL). */
  function SortDesc<T(!new)>(s: seq<T>, key: T -> Key): seq<T>
  {
    if s == [] then [] else Insert(s[0], SortDesc(s[1..], key), key)
  }

  lemma {:induction false} InsertPermutes<T(!new)>(x: T, s: seq<T>, key: T -> Key)
    ensures multiset(Insert(x, s, key)) == multiset(s) + multiset{x}
  {
    if s != [] && !NoLater(key(x), key(s[0])) {
      InsertPermutes(x, s[1..], key);
      assert s == [s[0]] + s[1..];
    }
  }

  lemma {:induction false} InsertSorted<T(!new)>(x: T, s: seq<T>, key: T -> Key)
    requires SortedDesc(s, key)
    ensures SortedDesc(Insert(x, s, key), key)
  {
    if s != [] && !NoLater(key(x), key(s[0])) {
      var t := s[1..];
      assert SortedDesc(t, key) by {
        forall i, j | 0 <= i < j < |t| ensures NoLater(key(t[i]), key(t[j])) {
          assert t[i] == s[i + 1] && t[j] == s[j + 1];
        }
      }
      InsertSorted(x, t, key);
      InsertPermutes(x, t, key);
      var r := Insert(x, t, key);
      forall j | 0 <= j < |r| ensures NoLater(key(s[0]), key(r[j])) {
        assert r[j] in multiset(r);
        if r[j] != x {
          assert r[j] in multiset(t);
          var k :| 0 <= k < |t| && t[k] == r[j];
          assert s[k + 1] == r[j];
        }
      }
    }
  }

  /** The result of ORDER BY holds the same rows, in non-increasing key order. */
  lemma {:induction false} SortDescCorrect<T(!new)>(s: seq<T>, key: T -> Key)
    ensures multiset(SortDesc(s, key)) == multiset(s)
    ensures SortedDesc(SortDesc(s, key), key)
  {
    if s != [] {
      SortDescCorrect(s[1..], key);
      InsertPermutes(s[0], SortDesc(s[1..], key), key);
      InsertSorted(s[0], SortDesc(s[1..], key), key);
      assert s == [s[0]] + s[1..];
    }
  }

  /** `LIMIT n`. */
  function Limit<T(!new)>(s: seq<T>, n: nat): (r: seq<T>)
    ensures |r| <= n && |r| <= |s|
    ensures r == s[..|r|]
    ensures |s| <= n ==> r == s
  {
    if |s| <= n then s else s[..n]
  }

  /** `ORDER BY key DESC LIMIT n` returns at most n rows of the table, in
      order, and every row it leaves out sorts no earlier than the last one
      it keeps. */
  lemma TopRows<T(!new)>(s: seq<T>, key: T -> Key, n: nat)
    ensures var r := Limit(SortDesc(s, key), n);
      && |r| == (if |s| <= n then |s| else n)
      && multiset(r) <= multiset(s)
      && SortedDesc(r, key)
      && (0 < |r| ==> forall y :: y in multiset(s) - multiset(r) ==> NoLater(key(r[|r| - 1]), key(y)))
  {
    SortDescCorrect(s, key);
    var t := SortDesc(s, key);
    var r := Limit(t, n);
    assert |t| == |s| by { assert |multiset(t)| == |multiset(s)|; }
    assert t == r + t[|r|..];
    assert multiset(t) == multiset(r) + multiset(t[|r|..]);
    forall y | 0 < |r| && y in multiset(s) - multiset(r) ensures NoLater(key(r[|r| - 1]), key(y)) {
      assert y in multiset(t[|r|..]);
      var k :| 0 <= k < |t[|r|..]| && t[|r|..][k] == y;
      assert t[|r| + k] == y;
      assert r[|r| - 1] == t[|r| - 1];
    }
  }

  /** Rows matching three different values of one column are disjoint, so
      their counts add up to at most the table's size. */
  lemma {:induction false} WhereThreeDisjoint<T(!new), K>(s: seq<T>, col: T -> K, a: K, b: K, c: K)
    requires a != b && b != c && a != c
    ensures |Where(s, col, a)| + |Where(s, col, b)| + |Where(s, col, c)| <= |s|
  {
    if s != [] {
      WhereThreeDisjoint(s[1..], col, a, b, c);
    }
  }

  /** A WHERE over a table with one more row at the end. */
  lemma {:induction false} WhereAppend<T(!new), K>(s: seq<T>, x: T, col: T -> K, v: K)
    ensures Where(s + [x], col, v) == Where(s, col, v) + (if col(x) == v then [x] else [])
  {
    if s != [] {
      assert (s + [x])[0] == s[0] && (s + [x])[1..] == s[1..] + [x];
      WhereAppend(s[1..], x, col, v);
    }
  }

  /** The positions of `s` whose row has `col` equal to `v`. */
  ghost function Positions<T(!new), K>(s: seq<T>, col: T -> K, v: K): set<int>
  {
    set i | 0 <= i < |s| && col(s[i]) == v
  }

  /** One more row at the end adds its own position when it matches. */
  lemma PositionsSnoc<T(!new), K>(p: seq<T>, x: T, col: T -> K, v: K)
    ensures |Positions(p + [x], col, v)| == |Positions(p, col, v)| + (if col(x) == v then 1 else 0)
  {
    var s := p + [x];
    assert forall i :: 0 <= i < |p| ==> s[i] == p[i];
    assert |p| !in Positions(p, col, v);
    if col(x) == v {
      assert Positions(s, col, v) == Positions(p, col, v) + {|p|};
    } else {
      assert Positions(s, col, v) == Positions(p, col, v);
    }
  }

  /** The number of rows a WHERE keeps is the number of positions of the
      table whose row satisfies it. */
  lemma {:induction false} WhereCount<T(!new), K>(s: seq<T>, col: T -> K, v: K)
    ensures |Where(s, col, v)| == |set i | 0 <= i < |s| && col(s[i]) == v|
  {
    if s == [] {
      assert Positions(s, col, v) == {};
    } else {
      var p, x := s[..|s| - 1], s[|s| - 1];
      assert s == p + [x];
      WhereAppend(p, x, col, v);
      WhereCount(p, col, v);
      PositionsSnoc(p, x, col, v);
      assert |Where(s, col, v)| == |Positions(s, col, v)|;
    }
  }

  /** Inserting a row whose column value is new keeps that column unique. */
  lemma {:induction false} InsertKeepsUnique<T(!new), K>(x: T, s: seq<T>, key: T -> Key, col: T -> K)
    requires UniqueBy(s, col) && col(x) !in Column(s, col)
    ensures UniqueBy(Insert(x, s, key), col)
  {
    if s != [] && !NoLater(key(x), key(s[0])) {
      var t := s[1..];
      assert UniqueBy(t, col) by {
        forall i, j | 0 <= i < j < |t| ensures col(t[i]) != col(t[j]) {
          assert t[i] == s[i + 1] && t[j] == s[j + 1];
        }
      }
      assert col(x) !in Column(t, col) by {
        forall y | y in t ensures col(y) != col(x) {
          assert y in s;
        }
      }
      InsertKeepsUnique(x, t, key, col);
      InsertPermutes(x, t, key);
      var r := Insert(x, t, key);
      forall j | 0 <= j < |r| ensures col(s[0]) != col(r[j]) {
        assert r[j] in multiset(r);
        if r[j] == x {
          assert s[0] in s;
        } else {
          assert r[j] in multiset(t);
          var k :| 0 <= k < |t| && t[k] == r[j];
          assert s[k + 1] == r[j];
        }
      }
    }
  }

  /** ORDER BY keeps a UNIQUE column unique. */
  lemma {:induction false} SortDescKeepsUnique<T(!new), K>(s: seq<T>, key: T -> Key, col: T -> K)
    requires UniqueBy(s, col)
    ensures UniqueBy(SortDesc(s, key), col)
  {
    if s != [] {
      var t := s[1..];
      assert UniqueBy(t, col) by {
        forall i, j | 0 <= i < j < |t| ensures col(t[i]) != col(t[j]) {
          assert t[i] == s[i + 1] && t[j] == s[j + 1];
        }
      }
      SortDescKeepsUnique(t, key, col);
      SortDescCorrect(t, key);
      assert col(s[0]) !in Column(SortDesc(t, key), col) by {
        forall y | y in SortDesc(t, key) ensures col(y) != col(s[0]) {
          assert y in multiset(SortDesc(t, key));
          var k :| 0 <= k < |t| && t[k] == y;
          assert s[k + 1] == y;
        }
      }
      InsertKeepsUnique(s[0], SortDesc(t, key), key, col);
    }
  }
}
