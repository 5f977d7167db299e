/** Removing the addresses of a rule element that other addresses of it cover. */
module Redundant {
  import opened AclAssign
  import opened AclSplit

  /** `shadows(a, b)` says that `b` covers all of `a`. */
  ghost predicate Transitive(shadows: (nat, nat) -> bool) {
    forall a, b, c :: shadows(a, b) && shadows(b, c) ==> shadows(a, c)
  }

  predicate Shadowed(order: seq<nat>, shadows: (nat, nat) -> bool, i: nat, j: nat)
    requires i < |order| && j < |order|
  {
    i != j && shadows(order[i], order[j])
  }

  /** `j` is reason enough to remove `i`: it covers more, or the same and comes later. */
  predicate Beats(order: seq<nat>, shadows: (nat, nat) -> bool, i: nat, j: nat)
    requires i < |order| && j < |order|
  {
    Shadowed(order, shadows, i, j) && (!Shadowed(order, shadows, j, i) || i < j)
  }

  /** What is left for a given order of iteration. */
  ghost predicate Survives(order: seq<nat>, shadows: (nat, nat) -> bool, i: nat)
    requires i < |order|
  {
    forall j :: 0 <= j < |order| ==> !Beats(order, shadows, i, j)
  }

  ghost function Beaters(order: seq<nat>, shadows: (nat, nat) -> bool, i: nat): set<nat>
    requires i < |order|
  {
    set j: nat | j < |order| && Beats(order, shadows, i, j)
  }

  lemma BeatsTransitive(order: seq<nat>, shadows: (nat, nat) -> bool, i: nat, j: nat, k: nat)
    requires Transitive(shadows) && i < |order| && j < |order| && k < |order|
    requires Beats(order, shadows, i, j) && Beats(order, shadows, j, k)
    ensures Beats(order, shadows, i, k)
  {
    var a, b, c := order[i], order[j], order[k];
    assert shadows(a, b) && shadows(b, c) && shadows(a, c);
    if shadows(c, a) {
      assert shadows(b, a) && shadows(c, b);
    }
  }

  /** Whatever is removed is covered by something that is left. */
  lemma {:induction false} CoveredBySurvivor(order: seq<nat>, shadows: (nat, nat) -> bool, i: nat) returns (k: nat)
    requires Transitive(shadows) && i < |order|
    ensures k < |order| && Survives(order, shadows, k)
    ensures k == i || Beats(order, shadows, i, k)
    decreases |Beaters(order, shadows, i)|
  {
    k := i;
    if !Survives(order, shadows, i) {
      var j :| 0 <= j < |order| && Beats(order, shadows, i, j);
      forall x | x in Beaters(order, shadows, j) ensures x in Beaters(order, shadows, i) {
        BeatsTransitive(order, shadows, i, j, x);
      }
      assert j in Beaters(order, shadows, i) && j !in Beaters(order, shadows, j);
      SmallerSet(Beaters(order, shadows, j), Beaters(order, shadows, i), j);
      k := CoveredBySurvivor(order, shadows, j);
      if k != j {
        BeatsTransitive(order, shadows, i, j, k);
      }
    }
  }

  lemma SmallerSet(a: set<nat>, b: set<nat>, x: nat)
    requires a <= b && x in b && x !in a
    ensures |a| < |b|
  {
    var c := b - {x};
    assert a <= c && |c| == |b| - 1;
    Subset(a, c);
  }

  lemma Subset(a: set<nat>, b: set<nat>)
    requires a <= b
    ensures |a| <= |b|
  {
    assert |b - a| == |b| - |a|;
  }

  /** What the inner loop finds: `i` is covered by something not removed so far.  Nothing from `i` on
      has been removed yet, and before `i` only survivors are left. */
  ghost predicate Seen(order: seq<nat>, shadows: (nat, nat) -> bool, i: nat, j: nat)
    requires i < |order| && j < |order|
  {
    Shadowed(order, shadows, i, j) && (i <= j || Survives(order, shadows, j))
  }

  /** The inner loop removes exactly what does not survive. */
  lemma RemovedExactly(order: seq<nat>, shadows: (nat, nat) -> bool, i: nat)
    requires Transitive(shadows) && i < |order|
    ensures Survives(order, shadows, i) <==> !exists j :: 0 <= j < |order| && Seen(order, shadows, i, j)
  {
    if Survives(order, shadows, i) {
      forall j | 0 <= j < |order| ensures !Seen(order, shadows, i, j) {
        assert !Beats(order, shadows, i, j);
        assert j < i && Survives(order, shadows, j) ==> !Beats(order, shadows, j, i);
      }
    } else {
      var j :| 0 <= j < |order| && Beats(order, shadows, i, j);
      var k := CoveredBySurvivor(order, shadows, j);
      if k != j {
        BeatsTransitive(order, shadows, i, j, k);
      }
      assert Seen(order, shadows, i, k);
    }
  }

  // What that means for the rule.

  /** No address is left that another one covers. */
  lemma NoneShadowed(order: seq<nat>, shadows: (nat, nat) -> bool, i: nat, j: nat)
    requires i < |order| && j < |order| && Survives(order, shadows, i) && Survives(order, shadows, j)
    ensures !Shadowed(order, shadows, i, j)
  {
    assert !Beats(order, shadows, i, j) && !Beats(order, shadows, j, i);
  }

  /** Of addresses that nothing strictly covers, exactly one of each group of equal ones is left. */
  lemma OneOfEqual(order: seq<nat>, shadows: (nat, nat) -> bool, i: nat) returns (k: nat)
    requires Transitive(shadows) && i < |order|
    requires forall j :: 0 <= j < |order| && Shadowed(order, shadows, i, j) ==> Shadowed(order, shadows, j, i)
    ensures k < |order| && Survives(order, shadows, k)
    ensures k == i || (Shadowed(order, shadows, i, k) && Shadowed(order, shadows, k, i))
    ensures forall j :: 0 <= j < |order| && j != k && (j == i || Shadowed(order, shadows, i, j)) ==>
                          !Survives(order, shadows, j)
  {
    k := CoveredBySurvivor(order, shadows, i);
    forall j | 0 <= j < |order| && j != k && (j == i || Shadowed(order, shadows, i, j))
      ensures !Survives(order, shadows, j)
    {
      assert j == i || shadows(order[j], order[i]);
      assert k == i || shadows(order[i], order[k]);
      assert Shadowed(order, shadows, j, k);
      if Survives(order, shadows, j) {
        NoneShadowed(order, shadows, j, k);
      }
    }
  }

  ghost predicate Covers(order: seq<nat>, extent: nat -> nat -> bool, address: nat, i: nat)
    requires i < |order|
  {
    extent(order[i])(address)
  }

  /** An address is covered by what is left exactly if it was covered before. */
  lemma SameAddresses(order: seq<nat>, shadows: (nat, nat) -> bool, extent: nat -> nat -> bool, address: nat)
    requires Transitive(shadows)
    requires forall a, b :: shadows(a, b) && extent(a)(address) ==> extent(b)(address)
    ensures (exists i :: 0 <= i < |order| && Covers(order, extent, address, i)) <==>
            (exists i :: 0 <= i < |order| && Survives(order, shadows, i) && Covers(order, extent, address, i))
  {
    if i :| 0 <= i < |order| && Covers(order, extent, address, i) {
      var k := CoveredBySurvivor(order, shadows, i);
      assert Covers(order, extent, address, k);
    }
  }

  // The processor.

  /** Each object once, in some order: the iteration order of a map keyed by pointers. */
  ghost predicate Enumerates(order: seq<nat>, re: seq<nat>) {
    Distinct(order) && (forall a :: a in order <==> a in re)
  }

  /** `status` records what has been removed once the first `n` objects have been looked at. */
  ghost predicate Marked(status: map<nat, bool>, order: seq<nat>, shadows: (nat, nat) -> bool, n: nat) {
    && (forall i :: 0 <= i < |order| ==> order[i] in status)
    && (forall i :: 0 <= i < |order| ==> (status[order[i]] <==> i < n && !Survives(order, shadows, i)))
  }

  method MarkRedundant(order: seq<nat>, shadows: (nat, nat) -> bool) returns (status: map<nat, bool>)
    requires Distinct(order) && Transitive(shadows)
    ensures Marked(status, order, shadows, |order|)
  {
    status := map a | a in order :: false;
    var i1 := 0;
    while i1 < |order|
      invariant i1 <= |order| && Marked(status, order, shadows, i1)
    {
      var i2 := 0;
      ghost var before := status;
      while i2 < |order|
        invariant i2 <= |order| && status.Keys == before.Keys && order[i1] in status
        invariant forall a :: a in status && a != order[i1] ==> status[a] == before[a]
        invariant status[order[i1]] <==> exists j :: 0 <= j < i2 && Seen(order, shadows, i1, j)
      {
        if !status[order[i2]] && order[i1] != order[i2] && shadows(order[i1], order[i2]) {
          assert Seen(order, shadows, i1, i2);
          status := status[order[i1] := true];
        }
        i2 := i2 + 1;
      }
      RemovedExactly(order, shadows, i1);
      i1 := i1 + 1;
    }
  }

  /** The references to other objects, in their order. */
  function Others(re: seq<nat>, gone: set<nat>): seq<nat> {
    if re == [] then []
    else if re[0] in gone then Others(re[1..], gone)
    else [re[0]] + Others(re[1..], gone)
  }

  lemma {:induction false} RemoveOneOther(re: seq<nat>, gone: set<nat>, a: nat)
    requires Distinct(re) && a !in gone
    ensures RemoveRef(Others(re, gone), a) == Others(re, gone + {a})
  {
    if re != [] {
      var rest := Others(re[1..], gone);
      RemoveOneOther(re[1..], gone, a);
      if re[0] == a {
        SameOthers(re[1..], gone, gone + {a});
      }
      assert ([re[0]] + rest)[1..] == rest;
    }
  }

  lemma {:induction false} SameOthers(re: seq<nat>, g: set<nat>, h: set<nat>)
    requires forall a :: a in re ==> (a in g <==> a in h)
    ensures Others(re, g) == Others(re, h)
  {
    if re != [] {
      assert re[0] in re;
      SameOthers(re[1..], g, h);
    }
  }

  lemma {:induction false} RemoveRefCounts(re: seq<nat>, a: nat)
    ensures multiset(RemoveRef(re, a)) == multiset(re) - multiset{a}
  {
    if re != [] {
      assert re == [re[0]] + re[1..];
      RemoveRefCounts(re[1..], a);
    }
  }

  /** The objects that do not survive. */
  ghost function Gone(order: seq<nat>, shadows: (nat, nat) -> bool): (gone: set<nat>)
    ensures Distinct(order) ==> forall i :: 0 <= i < |order| ==> (order[i] in gone <==> !Survives(order, shadows, i))
  {
    set i | 0 <= i < |order| && !Survives(order, shadows, i) :: order[i]
  }

  /** Each object in `gone` has lost one reference. */
  ghost predicate Reduced(re': seq<nat>, re: seq<nat>, gone: set<nat>) {
    && multiset(re') == multiset(re) - multiset(gone)
    && (Distinct(re) ==> re' == Others(re, gone))
  }

  lemma OneMoreGone(m: multiset<nat>, gone: set<nat>, a: nat)
    requires a !in gone
    ensures (m - multiset(gone)) - multiset{a} == m - multiset(gone + {a})
  {
    assert multiset(gone + {a}) == multiset(gone) + multiset{a};
  }

  lemma ReduceOne(re': seq<nat>, re: seq<nat>, gone: set<nat>, a: nat)
    requires Reduced(re', re, gone) && a !in gone
    ensures Reduced(RemoveRef(re', a), re, gone + {a})
  {
    RemoveRefCounts(re', a);
    OneMoreGone(multiset(re), gone, a);
    if Distinct(re) {
      RemoveOneOther(re, gone, a);
    }
  }

  lemma {:induction false} NothingGone(re: seq<nat>)
    ensures Others(re, {}) == re
  {
    if re != [] {
      NothingGone(re[1..]);
    }
  }

  lemma OneIsLeft(re: seq<nat>, order: seq<nat>, shadows: (nat, nat) -> bool)
    requires |re| == 1 && Enumerates(order, re)
    ensures Gone(order, shadows) == {}
  {
    forall i, j | 0 <= i < |order| && 0 <= j < |order| ensures !Beats(order, shadows, i, j) {
      assert order[i] in re && order[j] in re;
    }
  }

  lemma LeftOver(re': seq<nat>, re: seq<nat>, order: seq<nat>, shadows: (nat, nat) -> bool)
    requires re != [] && Enumerates(order, re) && Transitive(shadows)
    requires multiset(re') == multiset(re) - multiset(Gone(order, shadows))
    ensures re' != []
    ensures (forall a :: a in re' ==> a !in Gone(order, shadows)) <==>
            (forall a :: a in Gone(order, shadows) ==> multiset(re)[a] == 1)
  {
    var gone := Gone(order, shadows);
    assert re[0] in order;
    var i :| 0 <= i < |order| && order[i] == re[0];
    var k := CoveredBySurvivor(order, shadows, i);
    assert order[k] in order && order[k] in re && order[k] in multiset(re) && order[k] !in gone;
    assert order[k] in multiset(re');
    forall a ensures a in re' && a in gone <==> a in gone && multiset(re)[a] != 1 {
      assert a in re' <==> multiset(re')[a] > 0;
      assert a in gone ==> a in order && a in re && multiset(re)[a] > 0;
    }
  }

  lemma {:induction false} InOthers(re: seq<nat>, gone: set<nat>, a: nat)
    ensures a in Others(re, gone) <==> a in re && a !in gone
  {
    if re != [] {
      InOthers(re[1..], gone, a);
      assert re == [re[0]] + re[1..];
    }
  }

  /** `b` is `a`, or covers it. */
  ghost predicate Represents(shadows: (nat, nat) -> bool, a: nat, b: nat) {
    a == b || shadows(a, b)
  }

  /** Nothing in the element strictly covers `a`. */
  ghost predicate Widest(re: seq<nat>, shadows: (nat, nat) -> bool, a: nat) {
    a in re && forall b :: b in re && b != a && shadows(a, b) ==> shadows(b, a)
  }

  /** No address left covers another one, every address is still covered, and each of the widest ones by
      exactly one that is left. */
  ghost predicate Irredundant(re: seq<nat>, re': seq<nat>, shadows: (nat, nat) -> bool) {
    && (forall a, b :: a in re' && b in re' && a != b ==> !shadows(a, b))
    && (forall a :: a in re ==> exists b :: b in re' && Represents(shadows, a, b))
    && (forall a, b, c | b in re' && c in re' && Represents(shadows, a, b) && Represents(shadows, a, c) ::
          Widest(re, shadows, a) ==> b == c)
  }

  lemma IndexOf(order: seq<nat>, re: seq<nat>, shadows: (nat, nat) -> bool, a: nat) returns (i: nat)
    requires Enumerates(order, re) && a in re
    ensures i < |order| && order[i] == a
    ensures a in Others(re, Gone(order, shadows)) <==> Survives(order, shadows, i)
  {
    assert a in order;
    i :| 0 <= i < |order| && order[i] == a;
    InOthers(re, Gone(order, shadows), a);
  }

  lemma LeftCoverNothing(order: seq<nat>, re: seq<nat>, shadows: (nat, nat) -> bool, a: nat, b: nat)
    requires Enumerates(order, re) && a != b
    requires a in Others(re, Gone(order, shadows)) && b in Others(re, Gone(order, shadows))
    ensures !shadows(a, b)
  {
    InOthers(re, Gone(order, shadows), a);
    InOthers(re, Gone(order, shadows), b);
    var i := IndexOf(order, re, shadows, a);
    var j := IndexOf(order, re, shadows, b);
    NoneShadowed(order, shadows, i, j);
  }

  lemma OthersIrredundant(order: seq<nat>, re: seq<nat>, shadows: (nat, nat) -> bool)
    requires Enumerates(order, re) && Transitive(shadows)
    ensures Irredundant(re, Others(re, Gone(order, shadows)), shadows)
  {
    var re' := Others(re, Gone(order, shadows));
    forall a, b | a in re' && b in re' && a != b ensures !shadows(a, b) {
      LeftCoverNothing(order, re, shadows, a, b);
    }
    forall a | a in re ensures exists b :: b in re' && Represents(shadows, a, b) {
      var i := IndexOf(order, re, shadows, a);
      var k := CoveredBySurvivor(order, shadows, i);
      InOthers(re, Gone(order, shadows), order[k]);
      assert order[k] in order && Represents(shadows, a, order[k]);
    }
    forall a, b, c | b in re' && c in re' && Represents(shadows, a, b) && Represents(shadows, a, c)
      ensures Widest(re, shadows, a) ==> b == c
    {
      InOthers(re, Gone(order, shadows), b);
      InOthers(re, Gone(order, shadows), c);
      if Widest(re, shadows, a) && b != c {
        assert b == a || shadows(b, a);
        assert b == a || c == a || shadows(b, c);
        LeftCoverNothing(order, re, shadows, b, c);
        LeftCoverNothing(order, re, shadows, c, b);
      }
    }
  }

  /** The marked objects among the first `n`. */
  function MarkedUpTo(status: map<nat, bool>, order: seq<nat>, n: nat): set<nat>
    requires n <= |order| && forall i :: 0 <= i < |order| ==> order[i] in status
  {
    set i | 0 <= i < n && status[order[i]] :: order[i]
  }

  lemma MarkNext(status: map<nat, bool>, order: seq<nat>, n: nat)
    requires Distinct(order) && n < |order| && forall i :: 0 <= i < |order| ==> order[i] in status
    ensures order[n] !in MarkedUpTo(status, order, n)
    ensures MarkedUpTo(status, order, n + 1) ==
            MarkedUpTo(status, order, n) + if status[order[n]] then {order[n]} else {}
  {
  }

  lemma MarkedIsGone(status: map<nat, bool>, order: seq<nat>, shadows: (nat, nat) -> bool)
    requires Marked(status, order, shadows, |order|)
    ensures MarkedUpTo(status, order, |order|) == Gone(order, shadows)
  {
  }

  /** Removes one reference to each marked object. */
  method RemoveMarked(re: seq<nat>, order: seq<nat>, status: map<nat, bool>) returns (re': seq<nat>)
    requires Distinct(order) && forall i :: 0 <= i < |order| ==> order[i] in status
    ensures Reduced(re', re, MarkedUpTo(status, order, |order|))
  {
    re' := re;
    NothingGone(re);
    ghost var gone := {};
    var i := 0;
    while i < |order|
      invariant i <= |order| && gone == MarkedUpTo(status, order, i) && Reduced(re', re, gone)
    {
      MarkNext(status, order, i);
      if status[order[i]] {
        ReduceOne(re', re, gone, order[i]);
        re', gone := RemoveRef(re', order[i]), gone + {order[i]};
      }
      i := i + 1;
    }
  }

  /** If objects are referenced once, what is left is exactly what survives, in its order: an element
      that covers the same addresses without redundancy.  In general one reference of each object that
      does not survive goes, so a covered address stays exactly if it is referenced twice. */
  method RemoveRedundantAddresses(re: seq<nat>, order: seq<nat>, shadows: (nat, nat) -> bool) returns (re': seq<nat>)
    requires re != [] && Enumerates(order, re) && Transitive(shadows)
    ensures re' != [] && multiset(re') == multiset(re) - multiset(Gone(order, shadows))
    ensures Distinct(re) ==> re' == Others(re, Gone(order, shadows)) && Irredundant(re, re', shadows)
    ensures (forall a :: a in re' ==> a !in Gone(order, shadows)) <==>
            (forall a :: a in Gone(order, shadows) ==> multiset(re)[a] == 1)
  {
    OthersIrredundant(order, re, shadows);
    if |re| == 1 {
      re' := re;
      OneIsLeft(re, order, shadows);
      NothingGone(re);
    } else {
      var status := MarkRedundant(order, shadows);
      re' := RemoveMarked(re, order, status);
      MarkedIsGone(status, order, shadows);
    }
    LeftOver(re', re, order, shadows);
  }
}
