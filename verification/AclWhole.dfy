/** Asking the first object of an element against asking all of them: where rules go, exactly when that
    is the same, and what a packet from a network zone meets. */
module AclWhole {
  import opened Basics
  import opened AclAssign
  import opened AclSplit

  /** The element a direction asks about. */
  function Asked(r: Rule, d: Direction): seq<nat> {
    Element(r, d == Inbound)
  }

  predicate NoneOf(m: nat -> bool, objs: seq<nat>) {
    forall o :: o in objs ==> !m(o)
  }

  /** Taking broadcasts but not multicasts for the firewall never matches more than taking both. */
  ghost predicate StopsMatch(fw: Firewall) {
    forall o :: fw.stops(o) ==> fw.matches(o)
  }

  // The rules of the processors with every object asked.

  /** The zone of the element, or of one of its objects, goes with the interface. */
  predicate InZone(fw: Firewall, element: seq<nat>, i: nat)
    requires element != []
  {
    i in ZoneOrAll(fw, element) || exists o :: o in element && i in ZoneOrAll(fw, [o])
  }

  /** Adding an object to an element takes "any" out of it. */
  predicate AnyAlone(element: seq<nat>) {
    |element| > 1 ==> ANY_ADDRESS !in element
  }

  lemma InZoneOfSome(fw: Firewall, element: seq<nat>, i: nat)
    requires element != [] && AnyAlone(element)
    ensures InZone(fw, element, i) <==> exists o :: o in element && i in ZoneOrAll(fw, [o])
  {
    assert element[0] in element;
    if |element| == 1 {
      assert element == [element[0]];
    }
  }

  predicate WholeInbound(fw: Firewall, r: Rule, i: nat)
    requires Fresh(r)
  {
    && !Skipped(fw, i)
    && match r.dir
       case Inbound => i in fw.ifaces
       case Outbound => false
       case Both => NoneOf(fw.matches, r.body.src) && NoneOf(fw.matchesCluster, r.body.src) && InZone(fw, r.body.src, i)
  }

  predicate WholeOutbound(fw: Firewall, r: Rule, i: nat)
    requires Fresh(r)
  {
    && !Skipped(fw, i) && NoneOf(fw.stops, r.body.dst)
    && match r.dir
       case Inbound => false
       case Outbound => i in fw.ifaces
       case Both => NoneOf(fw.matches, r.body.dst) && NoneOf(fw.matchesCluster, r.body.dst) && InZone(fw, r.body.dst, i)
  }

  predicate AppliesWhole(fw: Firewall, r: Rule, i: nat, d: Direction)
    requires Fresh(r)
  {
    if r.itf != [] then i == r.itf[0] && d != Both && (r.dir == Both || r.dir == d)
    else if d == Inbound then WholeInbound(fw, r, i)
    else d == Outbound && WholeOutbound(fw, r, i)
  }

  /** The first object does not match, but another one does. */
  predicate Mixed(m: nat -> bool, objs: seq<nat>) {
    objs != [] && !m(objs[0]) && !NoneOf(m, objs)
  }

  /** Some object is in the zone of the interface, but the first one is not. */
  predicate Spans(fw: Firewall, element: seq<nat>, i: nat) {
    element != [] && i !in ZoneOrAll(fw, element) && InZone(fw, element, i)
  }

  /** How a rule can be on the wrong lists: it is where it should not be, or not where it should be. */
  datatype Wrong = Slipped | Missed

  /** A rule for any interface and both directions slips if its element has a cluster object, but not
      first; it is missed if its element has an object of the zone, but not first. */
  predicate Goes(fw: Firewall, r: Rule, i: nat, d: Direction, w: Wrong) {
    var element := Asked(r, d);
    && r.itf == [] && r.dir == Both && d != Both && !Skipped(fw, i)
    && match w
       case Slipped => Mixed(fw.matchesCluster, element) && i in ZoneOrAll(fw, element)
       case Missed => NoneOf(fw.matches, element) && NoneOf(fw.matchesCluster, element) && Spans(fw, element, i)
  }

  /** What the split makes of an element settles the questions about the firewall and about broadcasts. */
  lemma FirstSettles(fw: Firewall, element: seq<nat>)
    requires StopsMatch(fw) && Separated(fw.matches, element)
    ensures fw.matches(element[0]) <==> !NoneOf(fw.matches, element)
    ensures fw.stops(element[0]) <==> !NoneOf(fw.stops, element)
    ensures Mixed(fw.matchesCluster, element) ==> NoneOf(fw.matches, element) && NoneOf(fw.stops, element)
  {
    assert element[0] in element;
    if |element| == 1 {
      assert forall o :: o in element ==> o == element[0];
    } else {
      assert NoneOf(fw.matches, element);
    }
  }

  /** Asking the first object gives the answer of the whole element, on every interface and in every
      direction, if and only if the rule neither slips nor is missed there. */
  lemma FirstObjectExactly(fw: Firewall, r: Rule, i: nat, d: Direction)
    requires StopsMatch(fw) && Sound(fw, r)
    ensures Applies(fw, r, i, d) && !AppliesWhole(fw, r, i, d) <==> Goes(fw, r, i, d, Slipped)
    ensures AppliesWhole(fw, r, i, d) && !Applies(fw, r, i, d) <==> Goes(fw, r, i, d, Missed)
  {
    FirstSettles(fw, r.body.src);
    FirstSettles(fw, r.body.dst);
    FirstOfUnmixed(fw.matchesCluster, Asked(r, d));
  }

  lemma FirstOfUnmixed(m: nat -> bool, element: seq<nat>)
    requires element != []
    ensures Mixed(m, element) || (m(element[0]) <==> !NoneOf(m, element))
  {
    assert element[0] in element;
  }

  /** Where a rule for any interface and both directions goes: no object of the element asked may match
      the firewall, broadcasts included, and the first one may not match the cluster. */
  lemma NoFirewallPasses(fw: Firewall, r: Rule, i: nat, d: Direction)
    requires StopsMatch(fw) && Sound(fw, r) && r.itf == [] && r.dir == Both && d != Both
    ensures Applies(fw, r, i, d) <==>
            && NoneOf(fw.matches, Asked(r, d)) && !fw.matchesCluster(Asked(r, d)[0])
            && i in ZoneOrAll(fw, Asked(r, d)) && !Skipped(fw, i)
  {
    FirstSettles(fw, Asked(r, d));
  }

  lemma {:induction false} NothingToPeel(m: nat -> bool, objs: seq<nat>, n: nat)
    requires NoneOf(m, objs)
    ensures Peeled(m, objs, n) == [] && Left(m, objs, n) == objs
  {
    if objs != [] {
      assert objs[0] in objs && objs == [objs[0]] + objs[1..];
      NothingToPeel(m, objs[1..], n);
    }
  }

  /** The split never asks about the cluster: an element with a cluster object behind a plain one is left
      as it is, and the rule goes where it should not; with the cluster object in front it does not. */
  lemma ClusterSlips(fw: Firewall, plain: nat, member: nat, other: nat, i: nat) returns (r: Rule, swapped: Rule)
    requires plain != ANY_ADDRESS && !fw.matches(plain) && !fw.matches(member)
    requires !fw.matchesCluster(plain) && fw.matchesCluster(member)
    requires fw.zone(plain) == Some(i) && !Skipped(fw, i)
    ensures Fresh(r) && r.body.src == [plain, member] && Split(fw.matches, r, true) == [r]
    ensures Applies(fw, r, i, Inbound) && !AppliesWhole(fw, r, i, Inbound)
    ensures Fresh(swapped) && swapped.body.src == [member, plain] && !Applies(fw, swapped, i, Inbound)
  {
    r := Rule(Body(0, 0, [plain, member], [other], 0), [], Both, false, false, false);
    swapped := Rule(Body(0, 0, [member, plain], [other], 0), [], Both, false, false, false);
    assert member in r.body.src;
    NothingToPeel(fw.matches, r.body.src, 2);
    assert [] + [r] == [r];
  }

  /** Nor does it ask about zones: with the objects of two zones in one element, the rule goes to the
      list of the first one only. */
  lemma SecondZoneMissed(fw: Firewall, a: nat, b: nat, other: nat, i: nat, j: nat) returns (r: Rule, swapped: Rule)
    requires NoneOf(fw.matches, [a, b]) && NoneOf(fw.matchesCluster, [a, b]) && NoneOf(fw.stops, [a, b])
    requires a != ANY_ADDRESS && b != ANY_ADDRESS && i != j && !Skipped(fw, i)
    requires fw.zone(a) == Some(j) && fw.zone(b) == Some(i)
    ensures Fresh(r) && r.body.dst == [a, b] && Split(fw.matches, r, false) == [r]
    ensures AppliesWhole(fw, r, i, Outbound) && !Applies(fw, r, i, Outbound)
    ensures Fresh(swapped) && swapped.body.dst == [b, a] && Applies(fw, swapped, i, Outbound)
  {
    r := Rule(Body(0, 0, [other], [a, b], 0), [], Both, false, false, false);
    swapped := Rule(Body(0, 0, [other], [b, a], 0), [], Both, false, false, false);
    NothingToPeel(fw.matches, r.body.dst, 2);
    assert [] + [r] == [r];
    assert a in [a, b] && b in [a, b] && i in ZoneOrAll(fw, [b]);
  }

  // Whole policies.

  function WholeRestricted(fw: Firewall, rules: seq<Rule>, i: nat, d: Direction): seq<Body>
    requires AllFresh(rules)
  {
    if rules == [] then []
    else if AppliesWhole(fw, rules[0], i, d) then [rules[0].body] + WholeRestricted(fw, rules[1..], i, d)
    else WholeRestricted(fw, rules[1..], i, d)
  }

  ghost predicate AllSound(fw: Firewall, rules: seq<Rule>) {
    forall r :: r in rules ==> Sound(fw, r)
  }

  ghost predicate SomeGoes(fw: Firewall, rules: seq<Rule>, i: nat, d: Direction, w: Wrong) {
    exists r :: r in rules && Goes(fw, r, i, d, w)
  }

  lemma {:induction false} NoneGoesWrong(fw: Firewall, rules: seq<Rule>, i: nat, d: Direction)
    requires StopsMatch(fw) && AllFresh(rules) && AllSound(fw, rules)
    requires forall w :: !SomeGoes(fw, rules, i, d, w)
    ensures Restricted(fw, rules, i, d) == WholeRestricted(fw, rules, i, d)
  {
    if rules != [] {
      assert rules[0] in rules;
      FirstObjectExactly(fw, rules[0], i, d);
      assert !SomeGoes(fw, rules, i, d, Slipped) && !SomeGoes(fw, rules, i, d, Missed);
      forall w ensures !SomeGoes(fw, rules[1..], i, d, w) {
        assert !SomeGoes(fw, rules, i, d, w);
      }
      NoneGoesWrong(fw, rules[1..], i, d);
    }
  }

  /** Rules with one body can only go wrong one way, so the lists differ in how often they have it. */
  lemma {:induction false} CountsDiffer(fw: Firewall, rules: seq<Rule>, i: nat, d: Direction, b: Body, w: Wrong)
    requires StopsMatch(fw) && AllFresh(rules) && AllSound(fw, rules)
    requires forall r, v :: r in rules && r.body == b && Goes(fw, r, i, d, v) ==> v == w
    ensures var n, m := multiset(Restricted(fw, rules, i, d))[b], multiset(WholeRestricted(fw, rules, i, d))[b];
            && (if w == Slipped then m <= n else n <= m)
            && ((exists r :: r in rules && r.body == b && Goes(fw, r, i, d, w)) ==> n != m)
  {
    if rules != [] {
      assert rules[0] in rules && rules == [rules[0]] + rules[1..];
      FirstObjectExactly(fw, rules[0], i, d);
      CountsDiffer(fw, rules[1..], i, d, b, w);
    }
  }

  /** The access list of an interface is the policy restricted by whole elements if and only if no rule
      slips or is missed there. */
  lemma WholeRestrictedExactly(fw: Firewall, rules: seq<Rule>, i: nat, d: Direction)
    requires StopsMatch(fw) && AllFresh(rules) && AllSound(fw, rules)
    ensures Restricted(fw, rules, i, d) == WholeRestricted(fw, rules, i, d) <==>
            forall w :: !SomeGoes(fw, rules, i, d, w)
  {
    if w :| SomeGoes(fw, rules, i, d, w) {
      var r :| r in rules && Goes(fw, r, i, d, w);
      CountsDiffer(fw, rules, i, d, r.body, w);
    } else {
      NoneGoesWrong(fw, rules, i, d);
    }
  }

  // Which rules of the policy go wrong once they are split.

  /** The rule with what the split leaves of one element. */
  function LeftOf(fw: Firewall, r: Rule, ofSrc: bool): Rule {
    WithElement(r, ofSrc, Left(fw.matches, Element(r, ofSrc), |Element(r, ofSrc)|))
  }

  lemma {:induction false} InAllSplit(m: nat -> bool, rules: seq<Rule>, ofSrc: bool, out: Rule)
    ensures out in AllSplit(m, rules, ofSrc) <==> exists r :: r in rules && out in Split(m, r, ofSrc)
  {
    if rules != [] {
      InAllSplit(m, rules[1..], ofSrc, out);
      assert rules == [rules[0]] + rules[1..];
      assert forall r :: r in rules <==> r == rules[0] || r in rules[1..];
    }
  }

  lemma GoesByElement(fw: Firewall, r: Rule, s: Rule, i: nat, d: Direction, w: Wrong)
    requires r.itf == s.itf && r.dir == s.dir && Asked(r, d) == Asked(s, d)
    ensures Goes(fw, r, i, d, w) <==> Goes(fw, s, i, d, w)
  {
  }

  lemma SingleGoesRight(fw: Firewall, r: Rule, i: nat, d: Direction, w: Wrong)
    requires |Asked(r, d)| == 1
    ensures !Goes(fw, r, i, d, w)
  {
    assert Asked(r, d) == [Asked(r, d)[0]];
  }

  /** Of the parts of a rule, only what is left of the element can go wrong because of it. */
  lemma PartGoes(fw: Firewall, r: Rule, out: Rule, i: nat, d: Direction, w: Wrong)
    requires out in Split(fw.matches, r, d == Inbound)
    ensures Goes(fw, out, i, d, w) ==> out == LeftOf(fw, r, d == Inbound)
  {
    var ofSrc := d == Inbound;
    var os := Peeled(fw.matches, Element(r, ofSrc), |Element(r, ofSrc)|);
    if out != LeftOf(fw, r, ofSrc) {
      var k :| 0 <= k < |os| && out == WithElement(r, ofSrc, [os[k]]);
      SingleGoesRight(fw, out, i, d, w);
    }
  }

  lemma OwnSplitGoes(fw: Firewall, rules: seq<Rule>, i: nat, d: Direction, w: Wrong)
    ensures SomeGoes(fw, AllSplit(fw.matches, rules, d == Inbound), i, d, w) <==> PolicyGoes(fw, rules, i, d, w)
  {
    var split := AllSplit(fw.matches, rules, d == Inbound);
    if out :| out in split && Goes(fw, out, i, d, w) {
      InAllSplit(fw.matches, rules, d == Inbound, out);
      var r :| r in rules && out in Split(fw.matches, r, d == Inbound);
      PartGoes(fw, r, out, i, d, w);
    }
    if r :| r in rules && Goes(fw, LeftOf(fw, r, d == Inbound), i, d, w) {
      InAllSplit(fw.matches, rules, d == Inbound, LeftOf(fw, r, d == Inbound));
    }
  }

  lemma OtherPart(fw: Firewall, r: Rule, out: Rule, d: Direction)
    requires d != Both && out in Split(fw.matches, r, d != Inbound)
    ensures out.itf == r.itf && out.dir == r.dir && Asked(out, d) == Asked(r, d)
  {
    var ofSrc := d != Inbound;
    var os := Peeled(fw.matches, Element(r, ofSrc), |Element(r, ofSrc)|);
    if out != LeftOf(fw, r, ofSrc) {
      var k :| 0 <= k < |os| && out == WithElement(r, ofSrc, [os[k]]);
    }
  }

  /** Splitting the other element changes nothing for this one. */
  lemma OtherPartGoes(fw: Firewall, r: Rule, out: Rule, i: nat, d: Direction, w: Wrong)
    requires d != Both && out in Split(fw.matches, r, d != Inbound)
    ensures Goes(fw, out, i, d, w) <==> Goes(fw, r, i, d, w)
    ensures Goes(fw, LeftOf(fw, out, d == Inbound), i, d, w) <==> Goes(fw, LeftOf(fw, r, d == Inbound), i, d, w)
  {
    OtherPart(fw, r, out, d);
    GoesByElement(fw, out, r, i, d, w);
    GoesByElement(fw, LeftOf(fw, out, d == Inbound), LeftOf(fw, r, d == Inbound), i, d, w);
  }

  /** The condition on the policy itself: what the split leaves of a rule's element goes wrong. */
  ghost predicate PolicyGoes(fw: Firewall, rules: seq<Rule>, i: nat, d: Direction, w: Wrong) {
    exists r :: r in rules && Goes(fw, LeftOf(fw, r, d == Inbound), i, d, w)
  }

  lemma SplitGoes(fw: Firewall, rules: seq<Rule>, i: nat, d: Direction, w: Wrong)
    requires d != Both
    ensures SomeGoes(fw, AllSplit(fw.matches, AllSplit(fw.matches, rules, true), false), i, d, w) <==>
            PolicyGoes(fw, rules, i, d, w)
  {
    var bySrc := AllSplit(fw.matches, rules, true);
    if d == Inbound {
      OwnSplitGoes(fw, rules, i, d, w);
      OtherSplitGoes(fw, bySrc, i, d, w);
    } else {
      OwnSplitGoes(fw, bySrc, i, d, w);
      OtherSplitLeaves(fw, rules, i, d, w);
    }
  }

  lemma OtherSplitGoes(fw: Firewall, rules: seq<Rule>, i: nat, d: Direction, w: Wrong)
    requires d != Both
    ensures SomeGoes(fw, AllSplit(fw.matches, rules, d != Inbound), i, d, w) <==> SomeGoes(fw, rules, i, d, w)
  {
    if out :| out in AllSplit(fw.matches, rules, d != Inbound) && Goes(fw, out, i, d, w) {
      InAllSplit(fw.matches, rules, d != Inbound, out);
      var r :| r in rules && out in Split(fw.matches, r, d != Inbound);
      OtherPartGoes(fw, r, out, i, d, w);
    }
    if r :| r in rules && Goes(fw, r, i, d, w) {
      var out := LeftOf(fw, r, d != Inbound);
      InAllSplit(fw.matches, rules, d != Inbound, out);
      OtherPartGoes(fw, r, out, i, d, w);
    }
  }

  lemma OtherSplitLeaves(fw: Firewall, rules: seq<Rule>, i: nat, d: Direction, w: Wrong)
    requires d != Both
    ensures PolicyGoes(fw, AllSplit(fw.matches, rules, d != Inbound), i, d, w) <==> PolicyGoes(fw, rules, i, d, w)
  {
    var split := AllSplit(fw.matches, rules, d != Inbound);
    if out :| out in split && Goes(fw, LeftOf(fw, out, d == Inbound), i, d, w) {
      InAllSplit(fw.matches, rules, d != Inbound, out);
      var r :| r in rules && out in Split(fw.matches, r, d != Inbound);
      OtherPartGoes(fw, r, out, i, d, w);
    }
    if r :| r in rules && Goes(fw, LeftOf(fw, r, d == Inbound), i, d, w) {
      var out := LeftOf(fw, r, d != Inbound);
      InAllSplit(fw.matches, rules, d != Inbound, out);
      OtherPartGoes(fw, r, out, i, d, w);
    }
  }

  /** The access lists are the policy restricted by whole elements exactly where no rule slips or is
      missed. */
  ghost predicate WholeUnlessWrong(fw: Firewall, rules: seq<Rule>, split: seq<Rule>, out: seq<Rule>, i: nat,
                                   d: Direction)
    requires AllFresh(split)
  {
    Acl(out, i, d) == WholeRestricted(fw, split, i, d) <==> forall w :: !PolicyGoes(fw, rules, i, d, w)
  }

  /** Both splits in a row. */
  method RunSplits(fw: Firewall, rules: seq<Rule>) returns (split: seq<Rule>)
    requires AllFresh(rules)
    ensures split == AllSplit(fw.matches, AllSplit(fw.matches, rules, true), false)
    ensures forall p :: Decision(split, p) == Decision(rules, p)
    ensures AllFresh(split) && AllSound(fw, split)
  {
    var bySrc := RunSplit(fw.matches, rules, true);
    AllSplitSpec(fw.matches, rules, true);
    split := RunSplit(fw.matches, bySrc, false);
    AllSplitSpec(fw.matches, bySrc, false);
    forall p
      ensures Decision(split, p) == Decision(rules, p)
    {
      SplitDecides(fw.matches, rules, true, p);
      SplitDecides(fw.matches, bySrc, false, p);
    }
  }

  /** Source split, destination split and interface assignment in a row, as for IOS and NX-OS, which do not
      split by network zones.  `split` decides every packet as the policy does, and the access lists are
      its restrictions; they are the restrictions by whole elements, too, except exactly where a rule slips
      or is missed. */
  method CompileAcls(fw: Firewall, rules: seq<Rule>) returns (split: seq<Rule>, out: seq<Rule>)
    requires AllFresh(rules) && Distinct(fw.ifaces)
    ensures forall p :: Decision(split, p) == Decision(rules, p)
    ensures AllFresh(split) && AllSound(fw, split)
    ensures forall k :: 0 <= k < |out| ==> Concrete(out[k])
    ensures forall i, d :: Acl(out, i, d) == Restricted(fw, split, i, d)
    ensures StopsMatch(fw) ==> forall i, d :: d != Both ==> WholeUnlessWrong(fw, rules, split, out, i, d)
  {
    split := RunSplits(fw, rules);
    out := AssignInterfaces(fw, split);
    if StopsMatch(fw) {
      forall i: nat, d | d != Both
        ensures WholeUnlessWrong(fw, rules, split, out, i, d)
      {
        WholeRestrictedExactly(fw, split, i, d);
        forall w ensures SomeGoes(fw, split, i, d, w) <==> PolicyGoes(fw, rules, i, d, w) {
          SplitGoes(fw, rules, i, d, w);
        }
      }
    }
  }

  // Packets of a network zone.

  /** What a packet's source, or its destination on the way out, is taken for. */
  function Taken(p: Packet, d: Direction): nat -> bool {
    if d == Inbound then p.src else p.dst
  }

  /** Whatever it is taken for belongs to the zone of the interface. */
  ghost predicate OfZone(fw: Firewall, p: Packet, i: nat, d: Direction) {
    forall o :: Taken(p, d)(o) ==> i in ZoneOrAll(fw, [o])
  }

  /** A rule for any interface and both directions whose first object is neither firewall nor cluster. */
  predicate Passing(fw: Firewall, r: Rule, d: Direction) {
    && Fresh(r) && r.itf == [] && r.dir == Both && d != Both
    && !fw.matches(Asked(r, d)[0]) && !fw.matchesCluster(Asked(r, d)[0])
    && (d == Outbound ==> !fw.stops(Asked(r, d)[0]))
  }

  /** A packet that is taken for one object only on that side, and for anything else on the other. */
  function PacketOf(o: nat, d: Direction): (p: Packet)
    ensures Taken(p, d)(o) && forall x :: Taken(p, d)(x) ==> x == o
  {
    var one, all := (x: nat) => x == o, (x: nat) => true;
    if d == Inbound then Packet(one, all, all) else Packet(all, one, all)
  }

  lemma PacketOfHits(b: Body, o: nat, d: Direction)
    requires o in (if d == Inbound then b.src else b.dst) && b.src != [] && b.dst != []
    ensures Hits(b, PacketOf(o, d))
  {
    assert b.src[0] in b.src && b.dst[0] in b.dst;
  }

  /** A packet of the object that is in the zone hits the rule, which is not on the interface's list. */
  lemma SpanningMisses(fw: Firewall, r: Rule, i: nat, d: Direction)
    requires Passing(fw, r, d) && Spans(fw, Asked(r, d), i)
    ensures exists p :: OfZone(fw, p, i, d) && Hits(r.body, p) && !Applies(fw, r, i, d)
  {
    var o :| o in Asked(r, d) && i in ZoneOrAll(fw, [o]);
    PacketOfHits(r.body, o, d);
    assert OfZone(fw, PacketOf(o, d), i, d);
  }

  /** A packet of the zone of an interface meets such a rule on that interface's list, for every packet
      that hits it, if and only if the rule's element does not span zones there. */
  lemma ZoneExactly(fw: Firewall, r: Rule, i: nat, d: Direction)
    requires Passing(fw, r, d) && !Skipped(fw, i)
    ensures (forall p :: OfZone(fw, p, i, d) && Hits(r.body, p) ==> Applies(fw, r, i, d)) <==>
            !Spans(fw, Asked(r, d), i)
  {
    if Spans(fw, Asked(r, d), i) {
      SpanningMisses(fw, r, i, d);
    } else {
      forall p | OfZone(fw, p, i, d) && Hits(r.body, p) ensures Applies(fw, r, i, d) {
        var o :| o in Asked(r, d) && Taken(p, d)(o);
        assert i in ZoneOrAll(fw, [o]);
      }
    }
  }

  function Bodies(rules: seq<Rule>): seq<Body> {
    if rules == [] then [] else [rules[0].body] + Bodies(rules[1..])
  }

  /** The rule that decides a packet. */
  ghost function FirstHit(rules: seq<Rule>, p: Packet): (r: Option<Rule>)
    ensures r.Some? ==> r.value in rules && Hits(r.value.body, p)
  {
    if rules == [] then None else if Hits(rules[0].body, p) then Some(rules[0]) else FirstHit(rules[1..], p)
  }

  ghost function Hitting(p: Packet): Body -> bool {
    b => Hits(b, p)
  }

  /** Copies of one rule keep its interface and direction. */
  ghost predicate Traceable(rules: seq<Rule>) {
    forall r, q :: r in rules && q in rules && r.body == q.body ==> r.itf == q.itf && r.dir == q.dir
  }

  /** The list says of a packet what the whole policy says. */
  ghost predicate SaysTheSame(fw: Firewall, rules: seq<Rule>, i: nat, d: Direction, p: Packet)
    requires AllFresh(rules)
  {
    FirstMatch(Restricted(fw, rules, i, d), Hitting(p)) == FirstMatch(Bodies(rules), Hitting(p))
  }

  lemma MatchFirst(b: Body, acl: seq<Body>, hit: Body -> bool)
    ensures FirstMatch([b] + acl, hit) == if hit(b) then Some(b) else FirstMatch(acl, hit)
  {
    assert ([b] + acl)[1..] == acl;
  }

  lemma {:induction false} MatchApplies(fw: Firewall, rules: seq<Rule>, i: nat, d: Direction, hit: Body -> bool)
    requires AllFresh(rules)
    ensures var m := FirstMatch(Restricted(fw, rules, i, d), hit);
            m.Some? ==> exists r :: r in rules && r.body == m.value && Applies(fw, r, i, d)
  {
    if rules != [] {
      MatchApplies(fw, rules[1..], i, d, hit);
      assert rules[0] in rules && rules == [rules[0]] + rules[1..];
      MatchFirst(rules[0].body, Restricted(fw, rules[1..], i, d), hit);
    }
  }

  /** The rule that decides the packet, if there is one, is on the list. */
  ghost predicate DecidingApplies(fw: Firewall, rules: seq<Rule>, i: nat, d: Direction, p: Packet)
    requires AllFresh(rules)
  {
    FirstHit(rules, p).Some? ==> Applies(fw, FirstHit(rules, p).value, i, d)
  }

  lemma SaysNext(fw: Firewall, rules: seq<Rule>, i: nat, d: Direction, p: Packet)
    requires AllFresh(rules) && rules != []
    ensures var acl, rest := Restricted(fw, rules, i, d), Restricted(fw, rules[1..], i, d);
            var hit := Hitting(p);
            && FirstMatch(Bodies(rules), hit) ==
               (if Hits(rules[0].body, p) then Some(rules[0].body) else FirstMatch(Bodies(rules[1..]), hit))
            && FirstMatch(acl, hit) ==
               if Applies(fw, rules[0], i, d) && Hits(rules[0].body, p) then Some(rules[0].body)
               else FirstMatch(rest, hit)
  {
    MatchFirst(rules[0].body, Bodies(rules[1..]), Hitting(p));
    MatchFirst(rules[0].body, Restricted(fw, rules[1..], i, d), Hitting(p));
  }

  /** A rule that is not on the list has no copy that is. */
  lemma NotListed(fw: Firewall, rules: seq<Rule>, i: nat, d: Direction, p: Packet)
    requires AllFresh(rules) && rules != [] && Traceable(rules) && !Applies(fw, rules[0], i, d)
    ensures FirstMatch(Restricted(fw, rules[1..], i, d), Hitting(p)) != Some(rules[0].body)
  {
    MatchApplies(fw, rules[1..], i, d, Hitting(p));
    assert rules[0] in rules && forall r :: r in rules[1..] ==> r in rules;
  }

  /** On any list, any packet: the list says what the policy says if and only if the deciding rule is on
      it, unless a copy of it with another interface or direction is. */
  lemma {:induction false} ListSaysTheSame(fw: Firewall, rules: seq<Rule>, i: nat, d: Direction, p: Packet)
    requires AllFresh(rules)
    ensures DecidingApplies(fw, rules, i, d, p) ==> SaysTheSame(fw, rules, i, d, p)
    ensures Traceable(rules) && SaysTheSame(fw, rules, i, d, p) ==> DecidingApplies(fw, rules, i, d, p)
  {
    if rules != [] {
      SaysNext(fw, rules, i, d, p);
      if !Hits(rules[0].body, p) {
        ListSaysTheSame(fw, rules[1..], i, d, p);
        assert forall r :: r in rules[1..] ==> r in rules;
      } else if Traceable(rules) && !Applies(fw, rules[0], i, d) {
        NotListed(fw, rules, i, d, p);
      }
    }
  }

  /** So for a packet of the zone of an interface, its list decides as the whole policy if and only if the
      deciding rule, when it passes, does not span zones there. */
  lemma ZoneDecides(fw: Firewall, rules: seq<Rule>, i: nat, d: Direction, p: Packet)
    requires AllFresh(rules) && OfZone(fw, p, i, d) && !Skipped(fw, i)
    requires FirstHit(rules, p).Some? ==> Passing(fw, FirstHit(rules, p).value, d)
    ensures DecidingSpans(fw, rules, i, d, p) || SaysTheSame(fw, rules, i, d, p)
    ensures Traceable(rules) && DecidingSpans(fw, rules, i, d, p) ==> !SaysTheSame(fw, rules, i, d, p)
  {
    ListSaysTheSame(fw, rules, i, d, p);
    if FirstHit(rules, p).Some? {
      ZoneExactly(fw, FirstHit(rules, p).value, i, d);
    }
  }

  ghost predicate DecidingSpans(fw: Firewall, rules: seq<Rule>, i: nat, d: Direction, p: Packet) {
    FirstHit(rules, p).Some? && Spans(fw, Asked(FirstHit(rules, p).value, d), i)
  }
}
