/** Generic sequence helpers shared by the table model: filtering, lookup,
    key uniqueness, key generation and bag-valued folds over rows. */
module Common {

  datatype Option<T> = None | Some(value: T)

  /** The elements of `s` that `keep` accepts, in their original order
      (a `DELETE ... WHERE` keeps exactly the rows the condition rejects). */
  function Filter<T(==, !new)>(s: seq<T>, keep: T -> bool): (r: seq<T>)
    ensures forall x :: x in r <==> x in s && keep(x)
  {
    if s == [] then []
    else
      assert s == [s[0]] + s[1..];
      (if keep(s[0]) then [s[0]] else []) + Filter(s[1..], keep)
  }

  /** Filtering keeps every accepted element as often as it occurs, and drops
      every rejected one. */
  lemma {:induction false} FilterCount<T(!new)>(s: seq<T>, keep: T -> bool)
    ensures forall x :: multiset(Filter(s, keep))[x] == if keep(x) then multiset(s)[x] else 0
    decreases |s|
  {
    if s != [] {
      FilterCount(s[1..], keep);
      assert s == [s[0]] + s[1..];
    }
  }

  /** Some element of `s` satisfying `p`, if there is one (a `SELECT ... WHERE`
      whose caller reads only the first row). */
  function Find<T(==, !new)>(s: seq<T>, p: T -> bool): (r: Option<T>)
    ensures r.Some? <==> exists x :: x in s && p(x)
    ensures r.Some? ==> r.value in s && p(r.value)
  {
    if s == [] then None
    else if p(s[0]) then Some(s[0])
    else
      assert forall x :: x in s ==> x == s[0] || x in s[1..];
      Find(s[1..], p)
  }

  /** No two rows of `s` share a key (a primary-key constraint). */
  predicate UniqueBy<T>(s: seq<T>, key: T -> int)
  {
    forall i, j :: 0 <= i < j < |s| ==> key(s[i]) != key(s[j])
  }

  /** Some row of `s` has key `k`. */
  predicate HasKey<T(==, !new)>(s: seq<T>, key: T -> int, k: int)
  {
    exists x :: x in s && key(x) == k
  }

  /** A key larger than every key in `s`, and at least 1, as a serial column
      hands out. */
  function FreshKey<T(==, !new)>(s: seq<T>, key: T -> int): (r: int)
    ensures r >= 1
    ensures forall x :: x in s ==> key(x) < r
  {
    if s == [] then 1
    else
      var k := FreshKey(s[1..], key);
      assert forall x :: x in s ==> x == s[0] || x in s[1..];
      if key(s[0]) < k then k else key(s[0]) + 1
  }

  /** The bag union of `f` over the rows of `s`: what a row loop collects. */
  function Gather<T, U>(s: seq<T>, f: T -> multiset<U>): multiset<U>
  {
    if s == [] then multiset{} else f(s[0]) + Gather(s[1..], f)
  }

  lemma {:induction false} GatherAppend<T, U>(a: seq<T>, b: seq<T>, f: T -> multiset<U>)
    ensures Gather(a + b, f) == Gather(a, f) + Gather(b, f)
    decreases |a|
  {
    if a == [] {
      assert a + b == b;
    } else {
      assert (a + b)[1..] == a[1..] + b;
      GatherAppend(a[1..], b, f);
    }
  }

  /** What a row loop collects does not depend on the order of the rows. */
  lemma {:induction false} GatherPermutation<T, U>(a: seq<T>, b: seq<T>, f: T -> multiset<U>)
    requires multiset(a) == multiset(b)
    ensures Gather(a, f) == Gather(b, f)
    decreases |a|
  {
    if a == [] {
      assert |b| == |multiset(b)| == 0;
    } else {
      var x := a[0];
      assert x in multiset(b);
      var k :| 0 <= k < |b| && b[k] == x;
      var b1, b2 := b[..k], b[k + 1..];
      assert b == b1 + ([x] + b2);
      assert a == [x] + a[1..];
      assert multiset(a[1..]) == multiset(b1 + b2) by {
        assert multiset(b) == multiset(b1) + multiset{x} + multiset(b2);
        assert multiset(a) == multiset{x} + multiset(a[1..]);
        assert multiset(b1 + b2) == multiset(b1) + multiset(b2);
        assert multiset(a[1..]) == multiset(a) - multiset{x};
        assert multiset(b1 + b2) == multiset(b) - multiset{x};
      }
      GatherPermutation(a[1..], b1 + b2, f);
      GatherAppend(b1, b2, f);
      GatherAppend(b1, [x] + b2, f);
    }
  }

  /** One more row collects that row's worth. */
  lemma GatherSnoc<T, U>(s: seq<T>, x: T, f: T -> multiset<U>)
    ensures Gather(s + [x], f) == Gather(s, f) + f(x)
  {
    GatherAppend(s, [x], f);
    assert [x][1..] == [];
  }

  /** Removing rows never creates a duplicate key. */
  lemma {:induction false} FilterKeepsUnique<T(!new)>(s: seq<T>, keep: T -> bool, key: T -> int)
    requires UniqueBy(s, key)
    ensures UniqueBy(Filter(s, keep), key)
    decreases |s|
  {
    if s != [] {
      var tail := s[1..];
      UniqueTail(s, key);
      FilterKeepsUnique(tail, keep, key);
      var rest := Filter(tail, keep);
      forall y | y in rest ensures key(y) != key(s[0]) {
        assert y in tail;
        var k :| 0 <= k < |tail| && tail[k] == y;
        assert s[k + 1] == y;
      }
      if keep(s[0]) {
        UniqueCons(s[0], rest, key);
      }
    }
  }

  lemma UniqueTail<T>(s: seq<T>, key: T -> int)
    requires s != [] && UniqueBy(s, key)
    ensures UniqueBy(s[1..], key)
  {
    var tail := s[1..];
    forall i, j | 0 <= i < j < |tail| ensures key(tail[i]) != key(tail[j]) {
      assert tail[i] == s[i + 1] && tail[j] == s[j + 1];
    }
  }

  lemma UniqueCons<T>(h: T, rest: seq<T>, key: T -> int)
    requires UniqueBy(rest, key)
    requires forall y :: y in rest ==> key(y) != key(h)
    ensures UniqueBy([h] + rest, key)
  {
    var r := [h] + rest;
    forall i, j | 0 <= i < j < |r| ensures key(r[i]) != key(r[j]) {
      assert r[j] == rest[j - 1] && rest[j - 1] in rest;
      if i > 0 {
        assert r[i] == rest[i - 1];
      }
    }
  }

  /** A row rewrite that keeps every row's key keeps the key set and uniqueness. */
  lemma SameKeysPointwise<T(!new)>(s: seq<T>, r: seq<T>, key: T -> int)
    requires |s| == |r|
    requires forall i :: 0 <= i < |s| ==> key(r[i]) == key(s[i])
    ensures UniqueBy(s, key) ==> UniqueBy(r, key)
    ensures forall k :: HasKey(r, key, k) <==> HasKey(s, key, k)
  {
    forall k ensures HasKey(r, key, k) <==> HasKey(s, key, k) {
      if HasKey(r, key, k) {
        var x :| x in r && key(x) == k;
        var i :| 0 <= i < |r| && r[i] == x;
        assert s[i] in s;
      }
      if HasKey(s, key, k) {
        var x :| x in s && key(x) == k;
        var i :| 0 <= i < |s| && s[i] == x;
        assert r[i] in r;
      }
    }
  }

  /** Appending a row whose key exceeds every present key keeps keys unique. */
  lemma AppendFreshKeepsUnique<T>(s: seq<T>, x: T, key: T -> int)
    requires UniqueBy(s, key)
    requires forall y :: y in s ==> key(y) < key(x)
    ensures UniqueBy(s + [x], key)
  {
    var r := s + [x];
    forall i, j | 0 <= i < j < |r| ensures key(r[i]) != key(r[j]) {
      if j == |s| {
        assert r[i] == s[i] && s[i] in s;
      } else {
        assert r[i] == s[i] && r[j] == s[j];
      }
    }
  }

  /** Under a primary key, two rows with the same key are the same row. */
  lemma UniqueByMembers<T>(s: seq<T>, key: T -> int, x: T, y: T)
    requires UniqueBy(s, key)
    requires x in s && y in s && key(x) == key(y)
    ensures x == y
  {
    var i :| 0 <= i < |s| && s[i] == x;
    var j :| 0 <= j < |s| && s[j] == y;
    assert i == j by {
      if i < j || j < i {
        assert false;
      }
    }
  }

  /** An `UPDATE ... WHERE id = ?` over a table: the rows with that key become
      `row`, every other row stays. */
  lemma RewriteRows<T(!new)>(s: seq<T>, r: seq<T>, key: T -> int, k: int, row: T)
    requires |r| == |s| && key(row) == k
    requires forall i :: 0 <= i < |s| ==> r[i] == if key(s[i]) == k then row else s[i]
    ensures forall x :: x in r <==> (x in s && key(x) != k) || (x == row && HasKey(s, key, k))
    ensures !HasKey(s, key, k) ==> r == s
  {
    forall x ensures x in r <==> (x in s && key(x) != k) || (x == row && HasKey(s, key, k)) {
      if x in r {
        var i :| 0 <= i < |r| && r[i] == x;
        assert s[i] in s;
      }
      if x in s && key(x) != k {
        var i :| 0 <= i < |s| && s[i] == x;
        assert r[i] == x;
      }
      if x == row && HasKey(s, key, k) {
        var y :| y in s && key(y) == k;
        var i :| 0 <= i < |s| && s[i] == y;
        assert r[i] == row;
      }
    }
    if !HasKey(s, key, k) {
      forall i | 0 <= i < |s| ensures r[i] == s[i] {
        assert s[i] in s;
      }
    }
  }

  /** Under unique keys, `id` is a key of a non-empty list iff it is the head's
      key or, exclusively, a key of the tail. */
  lemma KeyInCons<T>(owners: seq<T>, key: T -> int, id: int)
    requires owners != [] && UniqueBy(owners, key)
    ensures (exists y :: y in owners && key(y) == id)
            <==> key(owners[0]) == id || exists y :: y in owners[1..] && key(y) == id
    ensures key(owners[0]) == id ==> forall y :: y in owners[1..] ==> key(y) != id
  {
    var x, tail := owners[0], owners[1..];
    assert owners == [x] + tail;
    if exists y :: y in tail && key(y) == id {
      var y :| y in tail && key(y) == id;
      assert y in owners;
    }
    if key(x) == id {
      forall y | y in tail ensures key(y) != id {
        var k :| 0 <= k < |tail| && tail[k] == y;
        assert owners[k + 1] == y;
      }
    }
  }
}
