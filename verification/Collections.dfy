/** Finite sums, duplicate-freedom and list surgery shared by the models. */
module Collections {

  datatype Option<+T> = None | Some(value: T)

  ghost predicate Distinct<T>(s: seq<T>) {
    forall i, j :: 0 <= i < j < |s| ==> s[i] != s[j]
  }

  // ----- sums over finite maps and sets -----

  ghost function MapSum<K, V>(m: map<K, V>, f: V -> int): int {
    if m == map[] then 0
    else
      var k :| k in m;
      f(m[k]) + MapSum(m - {k}, f)
  }

  lemma {:induction false} MapSumRemove<K, V>(m: map<K, V>, f: V -> int, k: K)
    requires k in m
    ensures MapSum(m, f) == f(m[k]) + MapSum(m - {k}, f)
    decreases |m|
  {
    var j :| j in m && MapSum(m, f) == f(m[j]) + MapSum(m - {j}, f);
    if j != k {
      MapSumRemove(m - {j}, f, k);
      MapSumRemove(m - {k}, f, j);
      assert m - {j} - {k} == m - {k} - {j};
    }
  }

  lemma MapSumUpdate<K, V>(m: map<K, V>, f: V -> int, k: K, v: V)
    ensures MapSum(m[k := v], f) == MapSum(m, f) + f(v) - (if k in m then f(m[k]) else 0)
  {
    var n := m[k := v];
    MapSumRemove(n, f, k);
    assert n - {k} == m - {k};
    if k in m {
      MapSumRemove(m, f, k);
    } else {
      assert m - {k} == m;
    }
  }

  lemma {:induction false} MapSumNonNegative<K, V>(m: map<K, V>, f: V -> int)
    requires forall k :: k in m ==> f(m[k]) >= 0
    ensures MapSum(m, f) >= 0
    decreases |m|
  {
    if m != map[] {
      var k :| k in m && MapSum(m, f) == f(m[k]) + MapSum(m - {k}, f);
      MapSumNonNegative(m - {k}, f);
    }
  }

  ghost predicate SubMap<K, V>(some: map<K, V>, all: map<K, V>) {
    some.Keys <= all.Keys && forall k :: k in some ==> some[k] == all[k]
  }

  lemma SubtractSubMap<K, V>(all: map<K, V>, gone: set<K>)
    ensures SubMap(all - gone, all)
  {
  }

  lemma {:induction false} MapSumSome<K, V(!new)>(all: map<K, V>, some: map<K, V>, f: V -> int)
    requires forall v :: f(v) >= 0
    requires SubMap(some, all)
    ensures MapSum(some, f) <= MapSum(all, f)
    decreases |some|
  {
    if some == map[] {
      MapSumNonNegative(all, f);
    } else {
      var k :| k in some && MapSum(some, f) == f(some[k]) + MapSum(some - {k}, f);
      MapSumRemove(all, f, k);
      MapSumSome(all - {k}, some - {k}, f);
    }
  }

  ghost function SetSum<T>(s: set<T>, f: T -> int): int {
    if s == {} then 0
    else
      var x :| x in s;
      f(x) + SetSum(s - {x}, f)
  }

  lemma {:induction false} SetSumRemove<T>(s: set<T>, f: T -> int, x: T)
    requires x in s
    ensures SetSum(s, f) == f(x) + SetSum(s - {x}, f)
    decreases |s|
  {
    var y :| y in s && SetSum(s, f) == f(y) + SetSum(s - {y}, f);
    if y != x {
      SetSumRemove(s - {y}, f, x);
      SetSumRemove(s - {x}, f, y);
      assert s - {y} - {x} == s - {x} - {y};
    }
  }

  lemma SetSumAdd<T>(s: set<T>, f: T -> int, x: T)
    requires x !in s
    ensures SetSum(s + {x}, f) == f(x) + SetSum(s, f)
  {
    SetSumRemove(s + {x}, f, x);
    assert s + {x} - {x} == s;
  }

  lemma {:induction false} SetSumSome<T>(some: set<T>, all: set<T>, f: T -> int)
    requires some <= all && forall x :: x in all ==> f(x) >= 0
    ensures 0 <= SetSum(some, f) <= SetSum(all, f)
    decreases |all|
  {
    if all != {} {
      var x :| x in all;
      SetSumRemove(all, f, x);
      if x in some {
        SetSumRemove(some, f, x);
      }
      assert some - {x} == if x in some then some - {x} else some;
      SetSumSome(some - {x}, all - {x}, f);
    }
  }

  lemma {:induction false} SetSumSame<T(!new)>(s: set<T>, f: T -> int, g: T -> int)
    requires forall x :: x in s ==> f(x) == g(x)
    ensures SetSum(s, f) == SetSum(s, g)
    decreases |s|
  {
    if s != {} {
      var x :| x in s && SetSum(s, f) == f(x) + SetSum(s - {x}, f);
      SetSumRemove(s, g, x);
      SetSumSame(s - {x}, f, g);
    }
  }

  ghost function MultisetSum<T>(m: multiset<T>, f: T -> int): int {
    if m == multiset{} then 0
    else
      var x :| x in m;
      f(x) + MultisetSum(m - multiset{x}, f)
  }

  lemma TakeTwo<T>(m: multiset<T>, x: T, y: T)
    ensures m - multiset{y} - multiset{x} == m - multiset{x} - multiset{y}
  {
  }

  lemma {:induction false} MultisetSumRemove<T>(m: multiset<T>, f: T -> int, x: T)
    requires x in m
    ensures MultisetSum(m, f) == f(x) + MultisetSum(m - multiset{x}, f)
    decreases |m|
  {
    var y :| y in m && MultisetSum(m, f) == f(y) + MultisetSum(m - multiset{y}, f);
    if y != x {
      MultisetSumRemove(m - multiset{y}, f, x);
      MultisetSumRemove(m - multiset{x}, f, y);
      TakeTwo(m, x, y);
    }
  }

  lemma MultisetSumAdd<T>(m: multiset<T>, f: T -> int, x: T)
    ensures MultisetSum(m + multiset{x}, f) == f(x) + MultisetSum(m, f)
  {
    MultisetSumRemove(m + multiset{x}, f, x);
    assert m + multiset{x} - multiset{x} == m;
  }

  lemma Member<T>(s: set<T>) returns (x: T)
    requires s != {}
    ensures x in s
  {
    x :| x in s;
  }

  /** Some element: the next key of a map that is iterated in no particular order. */
  method AnyOf<T(==)>(s: set<T>) returns (x: T)
    requires s != {}
    ensures x in s
  {
    x :| x in s;
  }

  /** A map iteration moves one key from the keys to do to those seen. */
  lemma Seen<K, V>(all: map<K, V>, todo: set<K>, k: K)
    requires k in todo && todo <= all.Keys
    ensures all - (todo - {k}) == (all - todo)[k := all[k]]
  {
  }

  // ----- sequences -----

  function RemoveAt<T>(s: seq<T>, i: nat): seq<T>
    requires i < |s|
  {
    s[..i] + s[i + 1..]
  }

  function InsertAt<T>(s: seq<T>, i: nat, x: T): seq<T>
    requires i <= |s|
  {
    s[..i] + [x] + s[i..]
  }

  /** Index of the first occurrence of x, or |s| when there is none. */
  function IndexOf<T(==)>(s: seq<T>, x: T): (i: nat)
    ensures i <= |s|
    ensures i < |s| ==> s[i] == x
    ensures x !in s[..i]
    ensures i == |s| <==> x !in s
  {
    if s == [] then 0
    else if s[0] == x then 0
    else
      var i := 1 + IndexOf(s[1..], x);
      assert s[..i] == [s[0]] + s[1..][..i - 1];
      i
  }

  lemma RemoveAtMembers<T>(s: seq<T>, i: nat)
    requires i < |s|
    requires Distinct(s)
    ensures Distinct(RemoveAt(s, i))
    ensures forall y :: y in RemoveAt(s, i) <==> y in s && y != s[i]
  {
    var t := RemoveAt(s, i);
    forall y | y in s && y != s[i]
      ensures y in t
    {
      var j :| 0 <= j < |s| && s[j] == y;
      assert t[if j < i then j else j - 1] == y;
    }
    forall y | y in t
      ensures y in s && y != s[i]
    {
      var j :| 0 <= j < |t| && t[j] == y;
      assert s[if j < i then j else j + 1] == y;
    }
  }

  lemma InsertAtMembers<T>(s: seq<T>, i: nat, x: T)
    requires i <= |s|
    ensures forall y :: y in InsertAt(s, i, x) <==> y in s || y == x
    ensures Distinct(s) && x !in s ==> Distinct(InsertAt(s, i, x))
  {
    var t := InsertAt(s, i, x);
    assert t[i] == x;
    forall y | y in s
      ensures y in t
    {
      var j :| 0 <= j < |s| && s[j] == y;
      assert t[if j < i then j else j + 1] == y;
    }
  }

  // ----- sub-lists -----

  /** The sub-list is found in the list at these rising positions. */
  ghost predicate Among<T>(sub: seq<T>, all: seq<T>, at: seq<nat>) {
    && |at| == |sub|
    && (forall k :: 0 <= k < |sub| ==> at[k] < |all| && sub[k] == all[at[k]])
    && (forall a, b :: 0 <= a < b < |at| ==> at[a] < at[b])
  }

  lemma AmongSkip<T>(sub: seq<T>, all: seq<T>, at: seq<nat>, x: T)
    requires Among(sub, all, at)
    ensures Among(sub, all + [x], at)
  {
  }

  lemma AmongTake<T>(sub: seq<T>, all: seq<T>, at: seq<nat>, x: T)
    requires Among(sub, all, at)
    ensures Among(sub + [x], all + [x], at + [|all|])
  {
  }

  /** The sub-list holds what the list has at exactly these positions, in order. */
  ghost predicate Keeps<T>(sub: seq<T>, all: seq<T>, kept: set<nat>) {
    exists at :: Among(sub, all, at) && forall i :: i in at <==> i in kept
  }

  lemma KeepsNothing<T>(all: seq<T>)
    ensures Keeps([], all, {})
  {
    assert Among([], all, []);
  }

  lemma KeepsSize<T>(sub: seq<T>, all: seq<T>, kept: set<nat>)
    requires Keeps(sub, all, kept)
    ensures sub == [] <==> kept == {}
  {
    var at :| Among(sub, all, at) && forall i :: i in at <==> i in kept;
    if sub != [] {
      assert at[0] in at;
    }
  }

  /** One entry more, kept or not. */
  lemma KeepsSnoc<T>(sub: seq<T>, all: seq<T>, kept: set<nat>, x: T)
    requires Keeps(sub, all, kept)
    ensures Keeps(sub, all + [x], kept) && Keeps(sub + [x], all + [x], kept + {|all|})
  {
    var at :| Among(sub, all, at) && forall i :: i in at <==> i in kept;
    AmongSkip(sub, all, at, x);
    AmongTake(sub, all, at, x);
  }
}
