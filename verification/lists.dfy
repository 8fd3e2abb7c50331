/**
 Sequences as lists without repetition, whose elements leave and come back at the end.
 */
module Lists {
  /** Without the first occurrence of x. */
  function Without<T(==)>(s: seq<T>, x: T): seq<T> {
    if s == [] then [] else if s[0] == x then s[1..] else [s[0]] + Without(s[1..], x)
  }

  function ToBack<T(==)>(s: seq<T>, x: T): seq<T> {
    Without(s, x) + [x]
  }

  ghost predicate NoDup<T>(s: seq<T>) {
    forall i, j :: 0 <= i < j < |s| ==> s[i] != s[j]
  }

  lemma {:induction false} WithoutFacts<T>(s: seq<T>, x: T)
    requires NoDup(s)
    ensures NoDup(Without(s, x)) && x !in Without(s, x)
    ensures forall y :: y in Without(s, x) <==> y in s && y != x
    ensures forall i :: 0 <= i < |Without(s, x)| ==> Without(s, x)[i] in s
    ensures x in s ==> |Without(s, x)| == |s| - 1
  {
    if s != [] {
      assert s == [s[0]] + s[1..];
      assert forall y :: y in s[1..] ==> y in s && y != s[0];
      WithoutFacts(s[1..], x);
      assert forall y :: y in s <==> y == s[0] || y in s[1..];
      if s[0] != x {
        ConsNoDup(s[0], Without(s[1..], x));
      }
    }
  }

  /** What is taken out is the first one. */
  lemma {:induction false} WithoutFirst<T>(a: seq<T>, x: T, b: seq<T>)
    requires x !in a
    ensures Without(a + [x] + b, x) == a + b && Without(a, x) == a
    decreases |a|
  {
    var s := a + [x] + b;
    if a == [] {
      assert s[0] == x && s[1..] == b && a + b == b;
    } else {
      assert s[0] == a[0] && s[1..] == a[1..] + [x] + b;
      WithoutFirst(a[1..], x, b);
      assert [a[0]] + (a[1..] + b) == a + b && [a[0]] + a[1..] == a;
    }
  }

  lemma ConsNoDup<T>(x: T, s: seq<T>)
    requires NoDup(s) && x !in s
    ensures NoDup([x] + s)
  {
  }

  lemma ToBackFacts<T>(s: seq<T>, x: T)
    requires NoDup(s)
    ensures NoDup(ToBack(s, x))
    ensures forall y :: y in ToBack(s, x) <==> y in s || y == x
    ensures forall i :: 0 <= i < |ToBack(s, x)| ==> ToBack(s, x)[i] in s || ToBack(s, x)[i] == x
  {
    WithoutFacts(s, x);
  }

  lemma InSplit<T>(s: seq<T>, n: nat)
    requires n <= |s|
    ensures forall x :: x in s <==> x in s[..n] || x in s[n..]
    ensures NoDup(s) ==> NoDup(s[..n]) && NoDup(s[n..]) && forall x :: x in s[..n] ==> x !in s[n..]
  {
    assert s == s[..n] + s[n..];
  }
}
