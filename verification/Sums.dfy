/** Sums and occupancy counts over sequences, with the pigeonhole facts the space theorems rest on. */
module Sums {

  function Sum(s: seq<nat>): nat
  {
    if s == [] then 0 else s[0] + Sum(s[1..])
  }

  lemma {:induction false} SumUpdate(s: seq<nat>, i: nat, v: nat)
    requires i < |s|
    ensures Sum(s[i := v]) + s[i] == Sum(s) + v
  {
    if i == 0 {
      assert s[i := v][1..] == s[1..];
    } else {
      SumUpdate(s[1..], i - 1, v);
      assert s[i := v][1..] == s[1..][i - 1 := v];
    }
  }

  lemma {:induction false} SumAtMost(s: seq<nat>, c: nat)
    requires forall i | 0 <= i < |s| :: s[i] <= c
    ensures Sum(s) <= |s| * c
    ensures Sum(s) == |s| * c ==> forall i | 0 <= i < |s| :: s[i] == c
  {
    if s != [] {
      SumAtMost(s[1..], c);
      assert forall i | 0 < i < |s| :: s[i] == s[1..][i - 1];
      assert |s| * c == |s[1..]| * c + c;
    }
  }

  lemma {:induction false} SumAtLeast(s: seq<nat>, c: nat)
    requires forall i | 0 <= i < |s| :: c <= s[i]
    ensures |s| * c <= Sum(s)
  {
    if s != [] {
      SumAtLeast(s[1..], c);
      assert |s| * c == |s[1..]| * c + c;
    }
  }

  lemma {:induction false} SumSplit(s: seq<nat>, r: nat)
    requires r < |s|
    ensures Sum(s) == s[r] + Sum(s[..r] + s[r + 1..])
  {
    if r == 0 {
      assert s[..r] + s[r + 1..] == s[1..];
    } else {
      SumSplit(s[1..], r - 1);
      var rest := s[..r] + s[r + 1..];
      assert rest[1..] == s[1..][..r - 1] + s[1..][r..];
    }
  }

  lemma {:induction false} SumPrefix(s: seq<nat>, i: nat)
    requires i < |s|
    ensures Sum(s[..i + 1]) == Sum(s[..i]) + s[i]
  {
    if i == 0 {
      assert s[..1][1..] == [];
    } else {
      SumPrefix(s[1..], i - 1);
      assert s[..i + 1][1..] == s[1..][..i];
      assert s[..i][1..] == s[1..][..i - 1];
    }
  }

  lemma {:induction false} SumPart(s: seq<nat>, i: nat)
    requires i < |s|
    ensures s[i] <= Sum(s)
  {
    SumSplit(s, i);
  }

  lemma {:induction false} SumHalves(s: seq<nat>, i: nat)
    requires i <= |s|
    ensures Sum(s) == Sum(s[..i]) + Sum(s[i..])
  {
    if i == 0 {
      assert s[..0] == [] && s[0..] == s;
    } else {
      SumHalves(s, i - 1);
      SumPrefix(s, i - 1);
      assert s[i - 1..][1..] == s[i..];
    }
  }

  /** With position r empty and the others holding at most c, the total is at most (|s| - 1) * c,
      reached only when every other position holds c. */
  lemma SumAtMostExcept(s: seq<nat>, r: nat, c: nat)
    requires r < |s| && s[r] == 0
    requires forall i | 0 <= i < |s| && i != r :: s[i] <= c
    ensures Sum(s) <= (|s| - 1) * c
    ensures Sum(s) == (|s| - 1) * c ==> forall i | 0 <= i < |s| && i != r :: s[i] == c
  {
    var rest := s[..r] + s[r + 1..];
    SumSplit(s, r);
    SumAtMost(rest, c);
    forall i | 0 <= i < |s| && i != r && Sum(s) == (|s| - 1) * c
      ensures s[i] == c
    {
      assert s[i] == rest[if i < r then i else i - 1];
    }
  }

  /** With position r empty and the others holding at least c, the total is at least (|s| - 1) * c. */
  lemma SumAtLeastExcept(s: seq<nat>, r: nat, c: nat)
    requires r < |s| && s[r] == 0
    requires forall i | 0 <= i < |s| && i != r :: c <= s[i]
    ensures (|s| - 1) * c <= Sum(s)
  {
    var rest := s[..r] + s[r + 1..];
    SumSplit(s, r);
    SumAtLeast(rest, c);
  }

  /** The number of non-zero entries: the occupied slots of a reverse map. */
  function Count(s: seq<nat>): nat
  {
    if s == [] then 0 else (if s[0] != 0 then 1 else 0) + Count(s[1..])
  }

  lemma {:induction false} CountUpdate(s: seq<nat>, i: nat, v: nat)
    requires i < |s|
    ensures Count(s[i := v]) + (if s[i] != 0 then 1 else 0) == Count(s) + (if v != 0 then 1 else 0)
  {
    if i == 0 {
      assert s[i := v][1..] == s[1..];
    } else {
      CountUpdate(s[1..], i - 1, v);
      assert s[i := v][1..] == s[1..][i - 1 := v];
    }
  }

  lemma {:induction false} CountBounds(s: seq<nat>)
    ensures Count(s) <= |s|
    ensures Count(s) == |s| ==> forall i | 0 <= i < |s| :: s[i] != 0
    ensures Count(s) == 0 <==> forall i | 0 <= i < |s| :: s[i] == 0
  {
    if s != [] {
      CountBounds(s[1..]);
      assert forall i | 0 < i < |s| :: s[i] == s[1..][i - 1];
      assert Count(s) == 0 ==> forall i | 0 <= i < |s[1..]| :: s[1..][i] == 0;
      assert (forall i | 0 <= i < |s| :: s[i] == 0) ==> forall i | 0 <= i < |s[1..]| :: s[1..][i] == 0;
    }
  }

  /** A set of numbers below n has at most n elements, and n only if it has all of them. */
  lemma {:induction false} KeysCount(keys: set<nat>, n: nat)
    requires forall b | b in keys :: b < n
    ensures |keys| <= n && (|keys| == n <==> forall b | 0 <= b < n :: b in keys)
  {
    if n == 0 {
      assert keys == {};
    } else {
      var rest := keys - {n - 1};
      KeysCount(rest, n - 1);
      if n - 1 in keys {
        assert |keys| == |rest| + 1;
      } else {
        assert rest == keys;
      }
      assert (forall b | 0 <= b < n :: b in keys) <==> n - 1 in keys && forall b | 0 <= b < n - 1 :: b in rest;
    }
  }

  lemma {:induction false} SubsetAtMost(a: set<nat>, b: set<nat>)
    requires a <= b
    ensures |a| <= |b|
  {
    if a != {} {
      var x :| x in a;
      SubsetAtMost(a - {x}, b - {x});
    }
  }
}
