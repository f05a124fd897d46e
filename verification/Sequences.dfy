/** Keeping some elements of a sequence, taking one out, and the loop that erases the others while iterating. */
module Sequences {
  /** The elements of `s` that are in `stay`, in order. */
  function Only<T(==)>(s: seq<T>, stay: set<T>): (r: seq<T>)
    ensures forall x | x in r :: x in s && x in stay
    ensures forall x | x in s && x in stay :: x in r
  {
    if s == [] then [] else (if s[0] in stay then [s[0]] else []) + Only(s[1..], stay)
  }

  lemma OnlyNone<T>(stay: set<T>)
    ensures Only([], stay) == []
  {
  }

  lemma OnlyFirst<T>(x: T, s: seq<T>, stay: set<T>)
    ensures Only([x] + s, stay) == if x in stay then [x] + Only(s, stay) else Only(s, stay)
  {
    assert ([x] + s)[1..] == s;
  }

  lemma {:induction false} OnlyConcat<T>(a: seq<T>, b: seq<T>, stay: set<T>)
    ensures Only(a + b, stay) == Only(a, stay) + Only(b, stay)
  {
    if a == [] {
      assert a + b == b;
    } else {
      assert (a + b)[0] == a[0] && (a + b)[1..] == a[1..] + b;
      OnlyConcat(a[1..], b, stay);
    }
  }

  lemma {:induction false} OnlyAll<T>(s: seq<T>, stay: set<T>)
    requires forall x | x in s :: x in stay
    ensures Only(s, stay) == s
  {
    if s == [] {
    } else {
      OnlyAll(s[1..], stay);
    }
  }

  /** `erase(begin() + i)`. */
  function Erased<T>(s: seq<T>, i: nat): seq<T>
    requires i < |s|
  {
    s[..i] + s[i + 1..]
  }

  /** An erasing loop over `all` that keeps what is in `stay`: it has seen the first `seen` elements, those
      kept are the first `i` of `list`, and the unseen ones follow. */
  ghost predicate Sifting<T>(list: seq<T>, i: nat, all: seq<T>, seen: nat, stay: set<T>) {
    && seen <= |all| && i == |Only(all[..seen], stay)|
    && list == Only(all[..seen], stay) + all[seen..]
  }

  lemma SiftStart<T>(all: seq<T>, stay: set<T>)
    ensures Sifting(all, 0, all, 0, stay)
  {
  }

  lemma Sift<T>(list: seq<T>, i: nat, all: seq<T>, seen: nat, stay: set<T>)
    requires Sifting(list, i, all, seen, stay) && i < |list|
    ensures seen < |all| && list[i] == all[seen]
    ensures if list[i] in stay then Sifting(list, i + 1, all, seen + 1, stay)
            else Sifting(Erased(list, i), i, all, seen + 1, stay)
  {
    var kept := Only(all[..seen], stay);
    assert all[..seen + 1] == all[..seen] + [all[seen]];
    OnlyConcat(all[..seen], [all[seen]], stay);
    assert all[seen..] == [all[seen]] + all[seen + 1..];
    assert list[i] in stay ==> list == kept + [list[i]] + all[seen + 1..];
  }

  lemma SiftEnd<T>(list: seq<T>, i: nat, all: seq<T>, seen: nat, stay: set<T>)
    requires Sifting(list, i, all, seen, stay) && i >= |list|
    ensures list == Only(all, stay) && seen == |all|
  {
    assert all[..seen] == all;
  }

  /** `std::remove` followed by `erase`: every occurrence goes, all others stay, in order. */
  function Without<T(==)>(s: seq<T>, x: T): (r: seq<T>)
    ensures x !in r
  {
    if s == [] then [] else (if s[0] == x then [] else [s[0]]) + Without(s[1..], x)
  }

  /** Nothing else is lost or gained, repeated elements included. */
  lemma {:induction false} WithoutCounts<T>(s: seq<T>, x: T)
    ensures multiset(Without(s, x)) == multiset(s)[x := 0]
  {
    if s == [] {
    } else {
      assert s == [s[0]] + s[1..];
      WithoutCounts(s[1..], x);
    }
  }

  /** A loop that copies what stays: before it, at each turn, and after it. */
  ghost predicate Copying<T>(kept: seq<T>, s: seq<T>, i: nat, x: T) {
    i <= |s| && kept + Without(s[i..], x) == Without(s, x)
  }

  lemma CopyStart<T>(s: seq<T>, x: T)
    ensures Copying([], s, 0, x)
  {
    assert s[0..] == s && [] + Without(s, x) == Without(s, x);
  }

  lemma Copy<T>(kept: seq<T>, s: seq<T>, i: nat, x: T)
    requires Copying(kept, s, i, x) && i < |s|
    ensures Copying(if s[i] == x then kept else kept + [s[i]], s, i + 1, x)
  {
    assert s[i..][1..] == s[i + 1..];
    if s[i] != x { assert kept + ([s[i]] + Without(s[i + 1..], x)) == kept + [s[i]] + Without(s[i + 1..], x); }
  }

  lemma CopyEnd<T>(kept: seq<T>, s: seq<T>, x: T)
    requires Copying(kept, s, |s|, x)
    ensures kept == Without(s, x)
  {
    assert s[|s|..] == [];
  }

  lemma {:induction false} WithoutAbsent<T>(s: seq<T>, x: T)
    requires x !in s
    ensures Without(s, x) == s
  {
    if s == [] {
    } else {
      WithoutAbsent(s[1..], x);
    }
  }

  lemma {:induction false} WithoutMiddle<T>(a: seq<T>, x: T, b: seq<T>)
    requires x !in a && x !in b
    ensures Without(a + [x] + b, x) == a + b
  {
    if a == [] {
      assert [] + [x] + b == [x] + b && ([x] + b)[1..] == b && [] + b == b;
      WithoutAbsent(b, x);
    } else {
      assert (a + [x] + b)[1..] == a[1..] + [x] + b && (a + [x] + b)[0] == a[0];
      assert a + b == [a[0]] + (a[1..] + b);
      WithoutMiddle(a[1..], x, b);
    }
  }
}
