// Sets of numbers as their members in increasing order: what iterating over an
// ordered set, or sorting and removing repetitions, yields.
module OrderedSets {
  predicate Increasing(s: seq<nat>) {
    forall i, j | 0 <= i < j < |s| :: s[i] < s[j]
  }

  function Inserted(s: seq<nat>, n: nat): seq<nat> {
    if s == [] then [n]
    else if s[0] < n then [s[0]] + Inserted(s[1..], n)
    else if s[0] == n then s
    else [n] + s
  }

  function Deleted(s: seq<nat>, n: nat): seq<nat> {
    if s == [] then []
    else if s[0] == n then s[1..]
    else [s[0]] + Deleted(s[1..], n)
  }

  lemma Prepended(n: nat, s: seq<nat>)
    requires Increasing(s) && forall m | m in s :: n < m
    ensures Increasing([n] + s)
  {
    assert forall j | 0 <= j < |s| :: s[j] in s;
  }

  lemma HeadIsLeast(s: seq<nat>)
    requires Increasing(s) && s != []
    ensures Increasing(s[1..]) && forall m | m in s[1..] :: s[0] < m
    ensures forall m :: m in s <==> m == s[0] || m in s[1..]
  {
    assert s == [s[0]] + s[1..];
  }

  lemma {:induction false} InsertedHolds(s: seq<nat>, n: nat)
    requires Increasing(s)
    ensures Increasing(Inserted(s, n))
    ensures forall m :: m in Inserted(s, n) <==> m in s || m == n
  {
    if s != [] {
      HeadIsLeast(s);
      hide Increasing;
      if s[0] < n {
        InsertedHolds(s[1..], n);
        Prepended(s[0], Inserted(s[1..], n));
      } else if n < s[0] {
        Prepended(n, s);
      }
    }
  }

  lemma {:induction false} DeletedHolds(s: seq<nat>, n: nat)
    requires Increasing(s)
    ensures Increasing(Deleted(s, n))
    ensures forall m :: m in Deleted(s, n) <==> m in s && m != n
  {
    if s != [] {
      HeadIsLeast(s);
      hide Increasing;
      if s[0] != n {
        DeletedHolds(s[1..], n);
        Prepended(s[0], Deleted(s[1..], n));
      }
    }
  }

  lemma {:induction false} SameAreEqual(a: seq<nat>, b: seq<nat>)
    requires Increasing(a) && Increasing(b) && forall n :: n in a <==> n in b
    ensures a == b
  {
    assert (a != [] ==> a[0] in a) && (b != [] ==> b[0] in b);
    if a != [] && b != [] {
      HeadIsLeast(a);
      HeadIsLeast(b);
      hide Increasing;
      assert a[0] == b[0];
      SameAreEqual(a[1..], b[1..]);
      assert a == [a[0]] + a[1..] && b == [b[0]] + b[1..];
    }
  }
}
