/** Splitting rule elements that contain the firewall, so that asking about an element's first object
    is asking about all of it. */
module AclSplit {
  import opened Basics
  import opened AclAssign

  function Element(r: Rule, ofSrc: bool): seq<nat> {
    if ofSrc then r.body.src else r.body.dst
  }

  function WithElement(r: Rule, ofSrc: bool, s: seq<nat>): Rule {
    if ofSrc then r.(body := r.body.(src := s)) else r.(body := r.body.(dst := s))
  }

  /** The objects taken out of an element of which `n` objects are left: those that match, as long as
      one object stays. */
  function Peeled(m: nat -> bool, objs: seq<nat>, n: nat): seq<nat> {
    if objs == [] || n <= 1 then []
    else if m(objs[0]) then [objs[0]] + Peeled(m, objs[1..], n - 1)
    else Peeled(m, objs[1..], n)
  }

  /** The objects that stay. */
  function Left(m: nat -> bool, objs: seq<nat>, n: nat): seq<nat> {
    if objs == [] || n <= 1 then objs
    else if m(objs[0]) then Left(m, objs[1..], n - 1)
    else [objs[0]] + Left(m, objs[1..], n)
  }

  /** Nothing matches in an element with more than one object. */
  ghost predicate Separated(m: nat -> bool, element: seq<nat>) {
    element != [] && (|element| > 1 ==> forall o :: o in element ==> !m(o))
  }

  /** `kept` objects before `objs` are known to stay and not to match. */
  lemma {:induction false} PeelSeparates(m: nat -> bool, objs: seq<nat>, kept: nat)
    requires 0 < kept + |objs|
    ensures var left := Left(m, objs, kept + |objs|);
            0 < kept + |left| && (kept + |left| > 1 ==> forall o :: o in left ==> !m(o))
    ensures forall o :: o in Peeled(m, objs, kept + |objs|) ==> m(o)
  {
    if objs != [] && kept + |objs| > 1 {
      PeelSeparates(m, objs[1..], if m(objs[0]) then kept else kept + 1);
    }
  }

  lemma {:induction false} PeelConserves(m: nat -> bool, objs: seq<nat>, n: nat)
    ensures multiset(Peeled(m, objs, n)) + multiset(Left(m, objs, n)) == multiset(objs)
  {
    if objs != [] {
      assert objs == [objs[0]] + objs[1..];
      if n > 1 {
        PeelConserves(m, objs[1..], if m(objs[0]) then n - 1 else n);
      }
    }
  }

  /** Removing a reference removes the first one to the object. */
  function RemoveRef(objs: seq<nat>, o: nat): seq<nat> {
    if objs == [] then []
    else if objs[0] == o then objs[1..]
    else [objs[0]] + RemoveRef(objs[1..], o)
  }

  function RemoveRefs(objs: seq<nat>, os: seq<nat>): seq<nat>
    decreases |os|
  {
    if os == [] then objs else RemoveRefs(RemoveRef(objs, os[0]), os[1..])
  }

  lemma {:induction false} RemoveOthers(o: nat, objs: seq<nat>, os: seq<nat>)
    requires o !in os
    ensures RemoveRefs([o] + objs, os) == [o] + RemoveRefs(objs, os)
    decreases |os|
  {
    if os != [] {
      assert ([o] + objs)[1..] == objs;
      RemoveOthers(o, RemoveRef(objs, os[0]), os[1..]);
    }
  }

  /** Even when the same object is referenced twice, removing what was peeled leaves what stays. */
  lemma {:induction false} PeelRemoves(m: nat -> bool, objs: seq<nat>, kept: nat)
    ensures RemoveRefs(objs, Peeled(m, objs, kept + |objs|)) == Left(m, objs, kept + |objs|)
  {
    if objs != [] && kept + |objs| > 1 {
      var rest := objs[1..];
      assert objs == [objs[0]] + rest;
      if m(objs[0]) {
        PeelRemoves(m, rest, kept);
        assert ([objs[0]] + Peeled(m, rest, kept + |rest|))[1..] == Peeled(m, rest, kept + |rest|);
      } else {
        PeelRemoves(m, rest, kept + 1);
        PeelSeparates(m, rest, kept + 1);
        RemoveOthers(objs[0], rest, Peeled(m, rest, kept + 1 + |rest|));
      }
    }
  }

  function Singles(r: Rule, ofSrc: bool, os: seq<nat>): (out: seq<Rule>)
    ensures |out| == |os| && forall k :: 0 <= k < |os| ==> out[k] == WithElement(r, ofSrc, [os[k]])
  {
    if os == [] then [] else [WithElement(r, ofSrc, [os[0]])] + Singles(r, ofSrc, os[1..])
  }

  /** What one rule becomes: a copy for each object taken out, then the rule with what is left. */
  function Split(m: nat -> bool, r: Rule, ofSrc: bool): (out: seq<Rule>)
    ensures out != []
  {
    var objs := Element(r, ofSrc);
    Singles(r, ofSrc, Peeled(m, objs, |objs|)) + [WithElement(r, ofSrc, Left(m, objs, |objs|))]
  }

  function AllSplit(m: nat -> bool, rules: seq<Rule>, ofSrc: bool): seq<Rule> {
    if rules == [] then [] else Split(m, rules[0], ofSrc) + AllSplit(m, rules[1..], ofSrc)
  }

  /** The objects of the element over all rules of a list, in order. */
  function Objects(rules: seq<Rule>, ofSrc: bool): seq<nat> {
    if rules == [] then [] else Element(rules[0], ofSrc) + Objects(rules[1..], ofSrc)
  }

  lemma {:induction false} ObjectsOfSingles(r: Rule, ofSrc: bool, os: seq<nat>, last: seq<nat>)
    ensures Objects(Singles(r, ofSrc, os) + [WithElement(r, ofSrc, last)], ofSrc) == os + last
  {
    var l := WithElement(r, ofSrc, last);
    if os == [] {
      assert [l][1..] == [] && Singles(r, ofSrc, os) + [l] == [l];
    } else {
      var all := Singles(r, ofSrc, os) + [l];
      assert all[1..] == Singles(r, ofSrc, os[1..]) + [l];
      ObjectsOfSingles(r, ofSrc, os[1..], last);
    }
  }

  /** `out` is the rule with another element, in which nothing matches or all there is is one object. */
  ghost predicate IsPart(m: nat -> bool, r: Rule, out: Rule, ofSrc: bool) {
    out == WithElement(r, ofSrc, Element(out, ofSrc)) && Separated(m, Element(out, ofSrc))
  }

  lemma IsPartWith(m: nat -> bool, r: Rule, ofSrc: bool, s: seq<nat>)
    requires Separated(m, s)
    ensures IsPart(m, r, WithElement(r, ofSrc, s), ofSrc)
  {
  }

  /** Splitting conserves the element's objects. */
  lemma SplitConserves(m: nat -> bool, r: Rule, ofSrc: bool)
    ensures multiset(Objects(Split(m, r, ofSrc), ofSrc)) == multiset(Element(r, ofSrc))
  {
    var objs := Element(r, ofSrc);
    PeelConserves(m, objs, |objs|);
    ObjectsOfSingles(r, ofSrc, Peeled(m, objs, |objs|), Left(m, objs, |objs|));
  }

  /** It changes nothing but that element, and it separates. */
  lemma SplitSeparates(m: nat -> bool, r: Rule, ofSrc: bool, out: Rule)
    requires Element(r, ofSrc) != [] && out in Split(m, r, ofSrc)
    ensures IsPart(m, r, out, ofSrc)
  {
    var objs := Element(r, ofSrc);
    var os, last := Peeled(m, objs, |objs|), Left(m, objs, |objs|);
    PeelSeparates(m, objs, 0);
    if out == WithElement(r, ofSrc, last) {
      IsPartWith(m, r, ofSrc, last);
    } else {
      var k :| 0 <= k < |os| && out == WithElement(r, ofSrc, [os[k]]);
      IsPartWith(m, r, ofSrc, [os[k]]);
    }
  }

  /** In a separated element, the first object speaks for all. */
  lemma FirstSpeaksForAll(m: nat -> bool, element: seq<nat>)
    requires Separated(m, element)
    ensures m(element[0]) <==> exists o :: o in element && m(o)
  {
    if m(element[0]) {
      assert element[0] in element;
    }
  }

  // Meaning.

  /** Which objects and services a packet falls under. */
  datatype Packet = Packet(src: nat -> bool, dst: nat -> bool, srv: nat -> bool)

  ghost predicate Under(objs: seq<nat>, covers: nat -> bool) {
    exists o :: o in objs && covers(o)
  }

  ghost predicate Hits(b: Body, p: Packet) {
    Under(b.src, p.src) && Under(b.dst, p.dst) && p.srv(b.srv)
  }

  /** The rule of the policy that decides a packet, with its action. */
  ghost function Decision(rules: seq<Rule>, p: Packet): Option<(nat, nat)> {
    if rules == [] then None
    else if Hits(rules[0].body, p) then Some((rules[0].body.origin, rules[0].body.action))
    else Decision(rules[1..], p)
  }

  ghost predicate ElementUnder(objs: seq<nat>, p: Packet, ofSrc: bool) {
    Under(objs, if ofSrc then p.src else p.dst)
  }

  /** The other element and the service match. */
  ghost predicate RestHits(r: Rule, p: Packet, ofSrc: bool) {
    Under(Element(r, !ofSrc), if ofSrc then p.dst else p.src) && p.srv(r.body.srv)
  }

  lemma HitsByElement(r: Rule, p: Packet, ofSrc: bool, s: seq<nat>)
    ensures Hits(WithElement(r, ofSrc, s).body, p) <==> ElementUnder(s, p, ofSrc) && RestHits(r, p, ofSrc)
  {
  }

  lemma {:induction false} DecisionOfSplit(r: Rule, ofSrc: bool, os: seq<nat>, last: seq<nat>,
                                           rest: seq<Rule>, p: Packet)
    ensures Decision(Singles(r, ofSrc, os) + [WithElement(r, ofSrc, last)] + rest, p) ==
            if ElementUnder(os + last, p, ofSrc) && RestHits(r, p, ofSrc) then Some((r.body.origin, r.body.action))
            else Decision(rest, p)
  {
    var l := WithElement(r, ofSrc, last);
    if os == [] {
      assert os + last == last;
      assert Singles(r, ofSrc, os) + [l] + rest == [l] + rest && ([l] + rest)[1..] == rest;
      HitsByElement(r, p, ofSrc, last);
    } else {
      var all := Singles(r, ofSrc, os) + [l] + rest;
      assert all[0] == WithElement(r, ofSrc, [os[0]]);
      assert all[1..] == Singles(r, ofSrc, os[1..]) + [l] + rest;
      DecisionOfSplit(r, ofSrc, os[1..], last, rest, p);
      HitsByElement(r, p, ofSrc, [os[0]]);
      UnderSplit([os[0]], os[1..] + last, if ofSrc then p.src else p.dst);
      assert os + last == [os[0]] + (os[1..] + last);
    }
  }

  lemma UnderSplit(a: seq<nat>, b: seq<nat>, covers: nat -> bool)
    ensures Under(a + b, covers) <==> Under(a, covers) || Under(b, covers)
  {
    forall o ensures o in a + b <==> o in a || o in b {}
  }

  lemma UnderSame(a: seq<nat>, b: seq<nat>, covers: nat -> bool)
    requires multiset(a) == multiset(b)
    ensures Under(a, covers) <==> Under(b, covers)
  {
    forall o ensures o in a <==> o in b {
      assert o in a <==> o in multiset(a);
      assert o in b <==> o in multiset(b);
    }
  }

  /** Splitting decides every packet as before. */
  lemma {:induction false} SplitDecides(m: nat -> bool, rules: seq<Rule>, ofSrc: bool, p: Packet)
    ensures Decision(AllSplit(m, rules, ofSrc), p) == Decision(rules, p)
  {
    if rules != [] {
      var r := rules[0];
      var objs := Element(r, ofSrc);
      var os, last := Peeled(m, objs, |objs|), Left(m, objs, |objs|);
      SplitDecides(m, rules[1..], ofSrc, p);
      DecisionOfSplit(r, ofSrc, os, last, AllSplit(m, rules[1..], ofSrc), p);
      PeelConserves(m, objs, |objs|);
      assert multiset(os + last) == multiset(objs);
      UnderSame(os + last, objs, if ofSrc then p.src else p.dst);
      HitsByElement(r, p, ofSrc, objs);
      assert WithElement(r, ofSrc, objs) == r;
    }
  }

  // Both elements.

  /** The first object of each element can be asked whether any object of it matches the firewall. */
  ghost predicate Sound(fw: Firewall, r: Rule) {
    Fresh(r) && Separated(fw.matches, r.body.src) && Separated(fw.matches, r.body.dst)
  }

  ghost predicate AllSeparated(m: nat -> bool, rules: seq<Rule>, ofSrc: bool) {
    forall r :: r in rules ==> Separated(m, Element(r, ofSrc))
  }

  lemma {:induction false} AllSplitSpec(m: nat -> bool, rules: seq<Rule>, ofSrc: bool)
    requires AllFresh(rules)
    ensures AllFresh(AllSplit(m, rules, ofSrc)) && AllSeparated(m, AllSplit(m, rules, ofSrc), ofSrc)
    ensures AllSeparated(m, rules, !ofSrc) ==> AllSeparated(m, AllSplit(m, rules, ofSrc), !ofSrc)
  {
    if rules != [] {
      AllSplitSpec(m, rules[1..], ofSrc);
      var part, rest := Split(m, rules[0], ofSrc), AllSplit(m, rules[1..], ofSrc);
      forall r | r in part + rest
        ensures Fresh(r) && Separated(m, Element(r, ofSrc))
        ensures AllSeparated(m, rules, !ofSrc) ==> Separated(m, Element(r, !ofSrc))
      {
        if r in part {
          SplitSeparates(m, rules[0], ofSrc, r);
          assert rules[0] in rules;
        }
      }
    }
  }

  lemma SinglesAppend(r: Rule, ofSrc: bool, os: seq<nat>, o: nat)
    ensures Singles(r, ofSrc, os + [o]) == Singles(r, ofSrc, os) + [WithElement(r, ofSrc, [o])]
  {
  }

  /** Before object `k`: `cl` has been taken out of `objs`, `nre` objects are left, and the queue has
      grown from `q0` to `q`. */
  ghost predicate Peeling(m: nat -> bool, r: Rule, ofSrc: bool, k: nat, nre: nat, cl: seq<nat>,
                          q0: seq<Rule>, q: seq<Rule>) {
    var objs := Element(r, ofSrc);
    && k <= |objs| && nre >= |objs| - k
    && cl + Peeled(m, objs[k..], nre) == Peeled(m, objs, |objs|)
    && q == q0 + Singles(r, ofSrc, cl)
  }

  lemma PeelNext(m: nat -> bool, r: Rule, ofSrc: bool, k: nat, nre: nat, cl: seq<nat>, q0: seq<Rule>, q: seq<Rule>)
    requires Peeling(m, r, ofSrc, k, nre, cl, q0, q) && nre > 1 && k < |Element(r, ofSrc)|
    ensures var o := Element(r, ofSrc)[k];
            if m(o) then Peeling(m, r, ofSrc, k + 1, nre - 1, cl + [o], q0, q + [WithElement(r, ofSrc, [o])])
            else Peeling(m, r, ofSrc, k + 1, nre, cl, q0, q)
  {
    var objs := Element(r, ofSrc);
    var rest := objs[k + 1..];
    assert objs[k..][0] == objs[k] && objs[k..][1..] == rest;
    if m(objs[k]) {
      PushOne(cl, objs[k], Peeled(m, rest, nre - 1));
      SinglesAppend(r, ofSrc, cl, objs[k]);
      Assoc(q0, Singles(r, ofSrc, cl), [WithElement(r, ofSrc, [objs[k]])]);
    }
  }

  lemma PeelEnd(m: nat -> bool, r: Rule, ofSrc: bool, k: nat, nre: nat, cl: seq<nat>, q0: seq<Rule>, q: seq<Rule>)
    requires Peeling(m, r, ofSrc, k, nre, cl, q0, q) && (nre <= 1 || k == |Element(r, ofSrc)|)
    ensures q + [WithElement(r, ofSrc, RemoveRefs(Element(r, ofSrc), cl))] == q0 + Split(m, r, ofSrc)
  {
    var objs := Element(r, ofSrc);
    assert cl + [] == cl;
    PeelRemoves(m, objs, 0);
    Assoc(q0, Singles(r, ofSrc, cl), [WithElement(r, ofSrc, Left(m, objs, |objs|))]);
  }

  method SplitIfMatches(p: Processor, m: nat -> bool, r: Rule, ofSrc: bool)
    requires Element(r, ofSrc) != []
    modifies p
    ensures p.tmpQueue == old(p.tmpQueue) + Split(m, r, ofSrc)
  {
    var objs := Element(r, ofSrc);
    var nre: nat, k := |objs|, 0;
    var cl: seq<nat> := [];
    assert objs[0..] == objs;
    while nre > 1 && k < |objs|
      invariant Peeling(m, r, ofSrc, k, nre, cl, old(p.tmpQueue), p.tmpQueue)
    {
      PeelNext(m, r, ofSrc, k, nre, cl, old(p.tmpQueue), p.tmpQueue);
      if m(objs[k]) {
        cl := cl + [objs[k]];
        nre := nre - 1;
        p.tmpQueue := p.tmpQueue + [WithElement(r, ofSrc, [objs[k]])];
      }
      k := k + 1;
    }
    PeelEnd(m, r, ofSrc, k, nre, cl, old(p.tmpQueue), p.tmpQueue);
    var left := RemoveAll(objs, cl);
    p.tmpQueue := p.tmpQueue + [WithElement(r, ofSrc, left)];
  }

  method RemoveAll(objs: seq<nat>, cl: seq<nat>) returns (left: seq<nat>)
    ensures left == RemoveRefs(objs, cl)
  {
    left := objs;
    var j := 0;
    while j < |cl|
      invariant j <= |cl| && RemoveRefs(left, cl[j..]) == RemoveRefs(objs, cl)
    {
      assert cl[j..][1..] == cl[j + 1..];
      left := RemoveRef(left, cl[j]);
      j := j + 1;
    }
    assert cl[j..] == [];
  }

  method RunSplit(m: nat -> bool, rules: seq<Rule>, ofSrc: bool) returns (out: seq<Rule>)
    requires AllFresh(rules)
    ensures out == AllSplit(m, rules, ofSrc)
  {
    var p := new Processor();
    var k := 0;
    while k < |rules|
      invariant k <= |rules| && p.tmpQueue + AllSplit(m, rules[k..], ofSrc) == AllSplit(m, rules, ofSrc)
    {
      ghost var rest := rules[k + 1..];
      assert rules[k..][1..] == rest;
      Assoc(p.tmpQueue, Split(m, rules[k], ofSrc), AllSplit(m, rest, ofSrc));
      SplitIfMatches(p, m, rules[k], ofSrc);
      k := k + 1;
    }
    assert rules[k..] == [];
    out := p.tmpQueue;
  }
}
