/** Facts about duplicate-free sequences that the cache models share. */
module Sequences {

  datatype Option<+T> = None | Some(value: T)

  function Min(a: int, b: int): int { if a <= b then a else b }

  function Max(a: int, b: int): int { if a >= b then a else b }

  ghost predicate NoDup<T>(s: seq<T>) {
    forall i, j :: 0 <= i < j < |s| ==> s[i] != s[j]
  }

  ghost function Elems<T>(s: seq<T>): set<T> { set x | x in s }

  lemma ElemsOfEmpty<T>(s: seq<T>)
    requires s == []
    ensures Elems(s) == {}
  {
  }

  lemma {:induction false} CardElems<T>(s: seq<T>)
    requires NoDup(s)
    ensures |Elems(s)| == |s|
  {
    if s == [] {
      assert Elems(s) == {};
    } else {
      CardElems(s[1..]);
      assert s == [s[0]] + s[1..];
      ElemsConcat([s[0]], s[1..]);
      assert Elems([s[0]]) == {s[0]};
      assert s[0] !in Elems(s[1..]);
    }
  }

  /** A duplicate-free sequence drawn from a set is no longer than the set is big. */
  lemma NoDupWithin<T>(s: seq<T>, bound: set<T>)
    requires NoDup(s) && Elems(s) <= bound
    ensures |s| <= |bound|
  {
    CardElems(s);
    SubsetCard(Elems(s), bound);
  }

  lemma {:induction false} SubsetCard<T>(a: set<T>, b: set<T>)
    requires a <= b
    ensures |a| <= |b|
    ensures |a| == |b| ==> a == b
  {
    assert b == a + (b - a);
  }

  lemma Associative<T>(a: seq<T>, b: seq<T>, c: seq<T>)
    ensures a + b + c == a + (b + c)
  {
  }

  lemma HeadAndTail<T>(a: seq<T>)
    requires a != []
    ensures [a[0]] + a[1..] == a
  {
  }

  lemma TailOfConcat<T>(a: seq<T>, b: seq<T>)
    requires a != []
    ensures (a + b)[0] == a[0] && (a + b)[1..] == a[1..] + b
  {
  }

  lemma ElemsConcat<T>(a: seq<T>, b: seq<T>)
    ensures Elems(a + b) == Elems(a) + Elems(b)
  {
    forall x | x in Elems(a) + Elems(b) ensures x in Elems(a + b) {
      if x in a {
        var i :| 0 <= i < |a| && a[i] == x;
        assert (a + b)[i] == x;
      } else {
        var i :| 0 <= i < |b| && b[i] == x;
        assert (a + b)[|a| + i] == x;
      }
    }
  }

  lemma NoDupConcat<T>(a: seq<T>, b: seq<T>)
    requires NoDup(a + b)
    ensures NoDup(a) && NoDup(b) && Elems(a) !! Elems(b)
  {
    forall i, j | 0 <= i < j < |a| ensures a[i] != a[j] {
      assert (a + b)[i] != (a + b)[j];
    }
    forall i, j | 0 <= i < j < |b| ensures b[i] != b[j] {
      assert (a + b)[|a| + i] != (a + b)[|a| + j];
    }
    forall i, j | 0 <= i < |a| && 0 <= j < |b| ensures a[i] != b[j] {
      assert (a + b)[i] != (a + b)[|a| + j];
    }
  }

  /** What find-then-erase leaves of a list: the first occurrence of x is gone. */
  function Without<T(==)>(s: seq<T>, x: T): seq<T> {
    if s == [] then [] else if s[0] == x then s[1..] else [s[0]] + Without(s[1..], x)
  }

  lemma {:induction false} WithoutAbsent<T>(s: seq<T>, x: T)
    requires x !in s
    ensures Without(s, x) == s
  {
    if s != [] {
      WithoutAbsent(s[1..], x);
    }
  }

  lemma {:induction false} WithoutAt<T>(s: seq<T>, i: nat)
    requires NoDup(s) && i < |s|
    ensures Without(s, s[i]) == s[..i] + s[i + 1..]
  {
    if i > 0 {
      WithoutAt(s[1..], i - 1);
      assert s[1..][..i - 1] == s[1..i];
      assert s[..i] == [s[0]] + s[1..i];
      assert s[1..][i..] == s[i + 1..];
    }
  }

  lemma {:induction false} WithoutProps<T>(s: seq<T>, x: T)
    requires NoDup(s)
    ensures NoDup(Without(s, x)) && Elems(Without(s, x)) == Elems(s) - {x}
    ensures |Without(s, x)| == |s| - (if x in s then 1 else 0)
  {
    if s != [] {
      WithoutProps(s[1..], x);
      NoDupTail(s);
      if s[0] != x {
        NoDupFront(s[0], Without(s[1..], x));
        assert x in s <==> x in s[1..];
      }
    }
  }

  lemma NoDupTail<T>(s: seq<T>)
    requires NoDup(s) && s != []
    ensures NoDup(s[1..]) && s[0] !in s[1..] && Elems(s) == {s[0]} + Elems(s[1..]) && s[0] !in Elems(s[1..])
  {
    HeadAndTail(s);
    ElemsConcat([s[0]], s[1..]);
    assert Elems([s[0]]) == {s[0]};
  }

  lemma NoDupFront<T>(x: T, s: seq<T>)
    requires NoDup(s) && x !in Elems(s)
    ensures NoDup([x] + s) && Elems([x] + s) == {x} + Elems(s)
  {
    ElemsConcat([x], s);
    assert forall i :: 0 <= i < |s| ==> s[i] in Elems(s);
  }

  function MoveToFront<T(==)>(s: seq<T>, x: T): seq<T> { [x] + Without(s, x) }

  lemma MoveToFrontProps<T>(s: seq<T>, x: T)
    requires NoDup(s)
    ensures NoDup(MoveToFront(s, x)) && Elems(MoveToFront(s, x)) == Elems(s) + {x}
    ensures |MoveToFront(s, x)| == |s| + (if x in s then 0 else 1)
  {
    WithoutProps(s, x);
    assert x !in Elems(Without(s, x));
    assert x !in Without(s, x);
    ElemsConcat([x], Without(s, x));
  }
}
