/** Sequences without repetition, as recency lists use them. */
module Recency {
  import opened Types

  /** `s` with its `k`-th element taken out. */
  function Without<T>(s: seq<T>, k: nat): (r: seq<T>)
    requires k < |s|
  {
    s[..k] + s[k + 1..]
  }

  /** `s` with the first occurrence of `x`, if any, taken out. */
  function Drop<T(==)>(s: seq<T>, x: T): (r: seq<T>) {
    if s == [] then [] else if s[0] == x then s[1..] else [s[0]] + Drop(s[1..], x)
  }

  lemma WithoutAt<T>(s: seq<T>, k: nat, m: nat)
    requires k < |s| && m < |s| - 1
    ensures Without(s, k)[m] == s[if m < k then m else m + 1]
  {
  }

  lemma WithoutNoDup<T>(s: seq<T>, k: nat)
    requires k < |s| && NoDup(s)
    ensures NoDup(Without(s, k))
    ensures forall x :: x in Without(s, k) <==> x in s && x != s[k]
  {
    var r := Without(s, k);
    forall m | 0 <= m < |r|
      ensures r[m] == s[if m < k then m else m + 1]
    {
    }
    forall x | x in s && x != s[k]
      ensures x in r
    {
      var j :| 0 <= j < |s| && s[j] == x;
      assert r[if j < k then j else j - 1] == x;
    }
  }

  lemma {:induction false} DropIsWithout<T>(s: seq<T>, k: nat)
    requires k < |s| && NoDup(s)
    ensures Drop(s, s[k]) == Without(s, k)
  {
    if k > 0 {
      DropIsWithout(s[1..], k - 1);
      assert s[1..][k - 1] == s[k] != s[0];
      assert Without(s, k) == [s[0]] + Without(s[1..], k - 1);
    }
  }

  lemma {:induction false} DropAbsent<T>(s: seq<T>, x: T)
    requires x !in s
    ensures Drop(s, x) == s
  {
    if s != [] {
      DropAbsent(s[1..], x);
    }
  }

  // ---------------------------------------------------------------- neighbours in a linked list

  /** The neighbour before, and after, the `k`-th element. */
  function Before<T>(s: seq<T>, k: nat): Option<T>
    requires k < |s|
  {
    if k == 0 then None else Some(s[k - 1])
  }

  function After<T>(s: seq<T>, k: nat): Option<T>
    requires k < |s|
  {
    if k == |s| - 1 then None else Some(s[k + 1])
  }

  function First<T>(s: seq<T>): Option<T> {
    if s == [] then None else Some(s[0])
  }

  function Last<T>(s: seq<T>): Option<T> {
    if s == [] then None else Some(s[|s| - 1])
  }

  /** Taking an element out makes its two neighbours each other's neighbours. */
  lemma BeforeWithout<T>(s: seq<T>, k: nat, m: nat)
    requires k < |s| && m < |s| - 1
    ensures var j := if m < k then m else m + 1;
            Before(Without(s, k), m) == if j == k + 1 then Before(s, k) else Before(s, j)
  {
    if m > 0 { WithoutAt(s, k, m - 1); }
  }

  lemma AfterWithout<T>(s: seq<T>, k: nat, m: nat)
    requires k < |s| && m < |s| - 1
    ensures var j := if m < k then m else m + 1;
            After(Without(s, k), m) == if j == k - 1 then After(s, k) else After(s, j)
  {
    if m + 1 < |s| - 1 { WithoutAt(s, k, m + 1); }
  }
}
