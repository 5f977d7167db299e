/** Splitting rule elements by network zones, as the PIX compiler does before it binds rules to interfaces. */
module AclZones {
  import opened Basics
  import opened AclAssign
  import opened AclSplit
  import opened AclWhole

  /** The rule made for an interface. */
  datatype Part = Part(id: nat, rule: Rule)

  /** The map from interfaces to rules, in the order of its keys: the interface's rule gets one more object,
      or the interface gets a rule. */
  function AddToInterface(parts: seq<Part>, id: nat, o: nat, r: Rule, ofSrc: bool): seq<Part> {
    if parts == [] || id < parts[0].id then [Part(id, WithElement(r, ofSrc, [o]))] + parts
    else if id == parts[0].id then [Part(id, Longer(parts[0].rule, ofSrc, o))] + parts[1..]
    else [parts[0]] + AddToInterface(parts[1..], id, o, r, ofSrc)
  }

  function Longer(r: Rule, ofSrc: bool, o: nat): Rule {
    WithElement(r, ofSrc, Element(r, ofSrc) + [o])
  }

  function RulesOf(parts: seq<Part>): (rules: seq<Rule>)
    ensures |rules| == |parts| && forall k :: 0 <= k < |parts| ==> rules[k] == parts[k].rule
  {
    if parts == [] then [] else [parts[0].rule] + RulesOf(parts[1..])
  }

  /** An object of several has no zone: the search for its interface ends in an exception, which the
      processor would have to catch. */
  predicate Fails(fw: Firewall, element: seq<nat>) {
    |element| != 1 && exists o :: o in element && fw.zone(o).None?
  }

  /** The map once these objects have been added. */
  function PartsOf(fw: Firewall, objs: seq<nat>, r: Rule, ofSrc: bool): seq<Part>
    requires forall o :: o in objs ==> fw.zone(o).Some?
  {
    if objs == [] then []
    else
      var last := |objs| - 1;
      assert objs[last] in objs;
      AddToInterface(PartsOf(fw, objs[..last], r, ofSrc), fw.zone(objs[last]).value, objs[last], r, ofSrc)
  }

  /** What one rule becomes. */
  function ZoneSplit(fw: Firewall, r: Rule, ofSrc: bool): seq<Rule>
    requires !Fails(fw, Element(r, ofSrc))
  {
    if |Element(r, ofSrc)| == 1 then [r] else RulesOf(PartsOf(fw, Element(r, ofSrc), r, ofSrc))
  }

  // What the parts are.

  /** The objects of one zone, in order. */
  function ZonePart(fw: Firewall, objs: seq<nat>, z: nat): (part: seq<nat>)
    ensures forall o :: o in part <==> o in objs && fw.zone(o) == Some(z)
    ensures |part| <= |objs|
  {
    if objs == [] then []
    else
      var last := |objs| - 1;
      assert objs == objs[..last] + [objs[last]];
      ZonePart(fw, objs[..last], z) + if fw.zone(objs[last]) == Some(z) then [objs[last]] else []
  }

  ghost predicate Ascending(parts: seq<Part>) {
    forall i, j :: 0 <= i < j < |parts| ==> parts[i].id < parts[j].id
  }

  ghost predicate HasPart(parts: seq<Part>, id: nat, rule: Rule) {
    Part(id, rule) in parts
  }

  lemma {:induction false} AddAbove(parts: seq<Part>, id: nat, o: nat, r: Rule, ofSrc: bool, low: nat)
    requires low < id && forall x :: x in parts ==> low < x.id
    ensures forall x :: x in AddToInterface(parts, id, o, r, ofSrc) ==> low < x.id
  {
    if parts != [] && id > parts[0].id {
      AddAbove(parts[1..], id, o, r, ofSrc, low);
    }
  }

  lemma {:induction false} AddAscends(parts: seq<Part>, id: nat, o: nat, r: Rule, ofSrc: bool)
    requires Ascending(parts)
    ensures Ascending(AddToInterface(parts, id, o, r, ofSrc))
  {
    if parts != [] && id > parts[0].id {
      AddAscends(parts[1..], id, o, r, ofSrc);
      AddAbove(parts[1..], id, o, r, ofSrc, parts[0].id);
      var rest := AddToInterface(parts[1..], id, o, r, ofSrc);
      assert forall k :: 0 <= k < |rest| ==> rest[k] in rest;
    }
  }

  /** Only the part of the interface changes. */
  lemma {:induction false} AddChanges(parts: seq<Part>, id: nat, o: nat, r: Rule, ofSrc: bool, x: Part)
    requires Ascending(parts)
    ensures var more := AddToInterface(parts, id, o, r, ofSrc);
            if x.id != id then x in more <==> x in parts
            else if exists was: Rule :: HasPart(parts, id, was)
            then x in more <==> exists was: Rule :: HasPart(parts, id, was) && x.rule == Longer(was, ofSrc, o)
            else x in more <==> x.rule == WithElement(r, ofSrc, [o])
  {
    if parts == [] || id < parts[0].id {
      assert forall y :: y in parts ==> y.id != id;
    } else if id == parts[0].id {
      assert HasPart(parts, id, parts[0].rule);
      assert forall y :: y in parts[1..] ==> y.id != id;
      assert parts == [parts[0]] + parts[1..];
    } else {
      AddChanges(parts[1..], id, o, r, ofSrc, x);
      assert parts == [parts[0]] + parts[1..];
      assert forall was: Rule :: HasPart(parts, id, was) <==> HasPart(parts[1..], id, was);
    }
  }

  lemma ZonePartNext(fw: Firewall, objs: seq<nat>, o: nat, z: nat)
    ensures ZonePart(fw, objs + [o], z) ==
            ZonePart(fw, objs, z) + if fw.zone(o) == Some(z) then [o] else []
  {
    assert (objs + [o])[..|objs|] == objs;
  }

  /** The rule with the objects of the interface's zone. */
  ghost predicate IsZonePart(fw: Firewall, objs: seq<nat>, r: Rule, ofSrc: bool, x: Part) {
    ZonePart(fw, objs, x.id) != [] && x.rule == WithElement(r, ofSrc, ZonePart(fw, objs, x.id))
  }

  lemma LongerElement(r: Rule, ofSrc: bool, s: seq<nat>, o: nat)
    ensures Longer(WithElement(r, ofSrc, s), ofSrc, o) == WithElement(r, ofSrc, s + [o])
  {
  }

  lemma NextPart(fw: Firewall, objs: seq<nat>, o: nat, id: nat, parts: seq<Part>, r: Rule, ofSrc: bool, x: Part)
    requires Ascending(parts) && fw.zone(o) == Some(id)
    requires forall y :: y in parts <==> IsZonePart(fw, objs, r, ofSrc, y)
    ensures x in AddToInterface(parts, id, o, r, ofSrc) <==> IsZonePart(fw, objs + [o], r, ofSrc, x)
  {
    AddChanges(parts, id, o, r, ofSrc, x);
    ZonePartNext(fw, objs, o, x.id);
    if x.id == id {
      var had := WithElement(r, ofSrc, ZonePart(fw, objs, id));
      forall was: Rule ensures HasPart(parts, id, was) <==> IsZonePart(fw, objs, r, ofSrc, Part(id, was)) {}
      if ZonePart(fw, objs, id) != [] {
        assert HasPart(parts, id, had);
        LongerElement(r, ofSrc, ZonePart(fw, objs, id), o);
      } else {
        assert [] + [o] == [o];
      }
    }
  }

  /** Each interface with objects in its zone has one part, the rule with these objects. */
  lemma {:induction false} PartsExactly(fw: Firewall, objs: seq<nat>, r: Rule, ofSrc: bool)
    requires forall o :: o in objs ==> fw.zone(o).Some?
    ensures Ascending(PartsOf(fw, objs, r, ofSrc))
    ensures forall x :: x in PartsOf(fw, objs, r, ofSrc) <==> IsZonePart(fw, objs, r, ofSrc, x)
  {
    if objs != [] {
      var last := |objs| - 1;
      var front, o := objs[..last], objs[last];
      assert o in objs && objs == front + [o];
      var parts, id := PartsOf(fw, front, r, ofSrc), fw.zone(o).value;
      PartsExactly(fw, front, r, ofSrc);
      AddAscends(parts, id, o, r, ofSrc);
      forall x ensures x in AddToInterface(parts, id, o, r, ofSrc) <==> IsZonePart(fw, objs, r, ofSrc, x) {
        NextPart(fw, front, o, id, parts, r, ofSrc, x);
      }
    }
  }

  /** The parts of a rule: those of its zones, or the rule itself if the element is a single object. */
  lemma ZoneSplitExactly(fw: Firewall, r: Rule, ofSrc: bool, out: Rule)
    requires !Fails(fw, Element(r, ofSrc))
    ensures out in ZoneSplit(fw, r, ofSrc) <==>
            if |Element(r, ofSrc)| == 1 then out == r
            else exists z :: IsZonePart(fw, Element(r, ofSrc), r, ofSrc, Part(z, out))
  {
    if |Element(r, ofSrc)| != 1 {
      PartsExactly(fw, Element(r, ofSrc), r, ofSrc);
      InRules(PartsOf(fw, Element(r, ofSrc), r, ofSrc), out);
    }
  }

  lemma InRules(parts: seq<Part>, out: Rule)
    ensures out in RulesOf(parts) <==> exists z :: Part(z, out) in parts
  {
    if out in RulesOf(parts) {
      var k :| 0 <= k < |parts| && RulesOf(parts)[k] == out;
      assert parts[k] == Part(parts[k].id, out);
    }
    if z :| Part(z, out) in parts {
      var k :| 0 <= k < |parts| && parts[k] == Part(z, out);
      assert RulesOf(parts)[k] == out;
    }
  }

  lemma {:induction false} AddConserves(parts: seq<Part>, id: nat, o: nat, r: Rule, ofSrc: bool)
    ensures multiset(Objects(RulesOf(AddToInterface(parts, id, o, r, ofSrc)), ofSrc)) ==
            multiset(Objects(RulesOf(parts), ofSrc)) + multiset{o}
  {
    var more := AddToInterface(parts, id, o, r, ofSrc);
    assert RulesOf(more)[1..] == RulesOf(more[1..]);
    if parts == [] || id < parts[0].id {
      assert more[1..] == parts;
    } else {
      assert RulesOf(parts)[1..] == RulesOf(parts[1..]);
      if id == parts[0].id {
        assert more[1..] == parts[1..];
      } else {
        AddConserves(parts[1..], id, o, r, ofSrc);
        assert more[1..] == AddToInterface(parts[1..], id, o, r, ofSrc);
      }
    }
  }

  lemma {:induction false} PartsConserve(fw: Firewall, objs: seq<nat>, r: Rule, ofSrc: bool)
    requires forall o :: o in objs ==> fw.zone(o).Some?
    ensures multiset(Objects(RulesOf(PartsOf(fw, objs, r, ofSrc)), ofSrc)) == multiset(objs)
  {
    if objs != [] {
      var last := |objs| - 1;
      assert objs[last] in objs && objs == objs[..last] + [objs[last]];
      PartsConserve(fw, objs[..last], r, ofSrc);
      AddConserves(PartsOf(fw, objs[..last], r, ofSrc), fw.zone(objs[last]).value, objs[last], r, ofSrc);
    }
  }

  /** Splitting by zones conserves the element's objects. */
  lemma ZoneSplitConserves(fw: Firewall, r: Rule, ofSrc: bool)
    requires !Fails(fw, Element(r, ofSrc))
    ensures multiset(Objects(ZoneSplit(fw, r, ofSrc), ofSrc)) == multiset(Element(r, ofSrc))
  {
    if |Element(r, ofSrc)| == 1 {
      assert [r][1..] == [] && Element(r, ofSrc) + [] == Element(r, ofSrc);
    } else {
      PartsConserve(fw, Element(r, ofSrc), r, ofSrc);
    }
  }

  // Decisions.

  /** Rules that differ from `r` in that element only. */
  ghost predicate Variants(r: Rule, ofSrc: bool, outs: seq<Rule>) {
    forall out :: out in outs ==> out == WithElement(r, ofSrc, Element(out, ofSrc))
  }

  lemma {:induction false} DecisionOfVariants(r: Rule, ofSrc: bool, outs: seq<Rule>, rest: seq<Rule>, p: Packet)
    requires Variants(r, ofSrc, outs)
    ensures Decision(outs + rest, p) ==
            if ElementUnder(Objects(outs, ofSrc), p, ofSrc) && RestHits(r, p, ofSrc)
            then Some((r.body.origin, r.body.action)) else Decision(rest, p)
  {
    if outs == [] {
      assert outs + rest == rest;
    } else {
      assert (outs + rest)[0] == outs[0] && (outs + rest)[1..] == outs[1..] + rest;
      assert outs[0] in outs && outs == [outs[0]] + outs[1..];
      DecisionOfVariants(r, ofSrc, outs[1..], rest, p);
      HitsByElement(r, p, ofSrc, Element(outs[0], ofSrc));
      UnderSplit(Element(outs[0], ofSrc), Objects(outs[1..], ofSrc), if ofSrc then p.src else p.dst);
    }
  }

  lemma ZoneSplitDecides(fw: Firewall, r: Rule, ofSrc: bool, rest: seq<Rule>, p: Packet)
    requires !Fails(fw, Element(r, ofSrc))
    ensures Decision(ZoneSplit(fw, r, ofSrc) + rest, p) == Decision([r] + rest, p)
  {
    var outs := ZoneSplit(fw, r, ofSrc);
    forall out | out in outs ensures out == WithElement(r, ofSrc, Element(out, ofSrc)) {
      ZoneSplitExactly(fw, r, ofSrc, out);
    }
    DecisionOfVariants(r, ofSrc, outs, rest, p);
    ZoneSplitConserves(fw, r, ofSrc);
    UnderSame(Objects(outs, ofSrc), Element(r, ofSrc), if ofSrc then p.src else p.dst);
    HitsByElement(r, p, ofSrc, Element(r, ofSrc));
    assert WithElement(r, ofSrc, Element(r, ofSrc)) == r && ([r] + rest)[1..] == rest;
  }

  // Whole policies.

  predicate SomeFails(fw: Firewall, rules: seq<Rule>, ofSrc: bool) {
    exists r :: r in rules && Fails(fw, Element(r, ofSrc))
  }

  function AllZoneSplit(fw: Firewall, rules: seq<Rule>, ofSrc: bool): seq<Rule>
    requires !SomeFails(fw, rules, ofSrc)
  {
    if rules == [] then []
    else assert rules[0] in rules; ZoneSplit(fw, rules[0], ofSrc) + AllZoneSplit(fw, rules[1..], ofSrc)
  }

  lemma InTail(rules: seq<Rule>, r: Rule)
    requires rules != []
    ensures r in rules <==> r == rules[0] || r in rules[1..]
  {
    assert rules == [rules[0]] + rules[1..];
  }

  lemma {:induction false} InAllZoneSplit(fw: Firewall, rules: seq<Rule>, ofSrc: bool, out: Rule)
    requires !SomeFails(fw, rules, ofSrc)
    ensures out in AllZoneSplit(fw, rules, ofSrc) <==> exists r :: r in rules && out in ZoneSplit(fw, r, ofSrc)
  {
    if rules != [] {
      var first, rest := rules[0], rules[1..];
      assert first in rules;
      assert AllZoneSplit(fw, rules, ofSrc) == ZoneSplit(fw, first, ofSrc) + AllZoneSplit(fw, rest, ofSrc);
      InAllZoneSplit(fw, rest, ofSrc, out);
      forall r ensures r in rules <==> r == first || r in rest {
        InTail(rules, r);
      }
    }
  }

  lemma {:induction false} AllZoneSplitDecides(fw: Firewall, rules: seq<Rule>, ofSrc: bool, p: Packet)
    requires !SomeFails(fw, rules, ofSrc)
    ensures Decision(AllZoneSplit(fw, rules, ofSrc), p) == Decision(rules, p)
  {
    if rules != [] {
      assert rules[0] in rules && rules == [rules[0]] + rules[1..];
      AllZoneSplitDecides(fw, rules[1..], ofSrc, p);
      var rest := AllZoneSplit(fw, rules[1..], ofSrc);
      ZoneSplitDecides(fw, rules[0], ofSrc, rest, p);
      assert ([rules[0]] + rest)[1..] == rest;
    }
  }

  /** What the splits by the firewall achieved is kept. */
  lemma ZoneSplitKeeps(fw: Firewall, r: Rule, ofSrc: bool, out: Rule)
    requires !Fails(fw, Element(r, ofSrc)) && out in ZoneSplit(fw, r, ofSrc)
    ensures Sound(fw, r) ==> Sound(fw, out)
    ensures AnyAlone(Element(r, true)) && AnyAlone(Element(r, false)) ==>
              AnyAlone(Element(out, true)) && AnyAlone(Element(out, false))
    ensures out.itf == r.itf && out.dir == r.dir && Element(out, !ofSrc) == Element(r, !ofSrc)
  {
    ZoneSplitExactly(fw, r, ofSrc, out);
  }

  lemma SomePart(fw: Firewall, r: Rule, ofSrc: bool) returns (out: Rule)
    requires !Fails(fw, Element(r, ofSrc)) && Element(r, ofSrc) != []
    ensures out in ZoneSplit(fw, r, ofSrc)
  {
    var objs := Element(r, ofSrc);
    out := r;
    if |objs| != 1 {
      assert objs[0] in objs;
      var z := fw.zone(objs[0]).value;
      assert objs[0] in ZonePart(fw, objs, z);
      out := WithElement(r, ofSrc, ZonePart(fw, objs, z));
      assert IsZonePart(fw, objs, r, ofSrc, Part(z, out));
    }
    ZoneSplitExactly(fw, r, ofSrc, out);
  }

  // What still goes wrong.

  /** The objects of the interface's zone have one of the cluster among them, but not first. */
  predicate SlipsInZone(fw: Firewall, r: Rule, i: nat, d: Direction) {
    && r.itf == [] && r.dir == Both && d != Both && !Skipped(fw, i)
    && |Asked(r, d)| > 1 && Mixed(fw.matchesCluster, ZonePart(fw, Asked(r, d), i))
  }

  /** The zone of a part is that of all its objects. */
  lemma ZoneOfPart(fw: Firewall, objs: seq<nat>, z: nat, i: nat)
    requires |objs| > 1 && AnyAlone(objs) && ZonePart(fw, objs, z) != []
    ensures i in ZoneOrAll(fw, ZonePart(fw, objs, z)) <==> i == z
    ensures !Spans(fw, ZonePart(fw, objs, z), i)
  {
    var part := ZonePart(fw, objs, z);
    assert part[0] in part && ANY_ADDRESS !in part;
    assert forall o :: o in part ==> ZoneOrAll(fw, [o]) == [z];
  }

  /** A part of the rule slips exactly if the objects of the zone do, and none is missed. */
  lemma ZoneSplitGoes(fw: Firewall, r: Rule, i: nat, d: Direction)
    requires Fresh(r) && d != Both && !Fails(fw, Asked(r, d)) && AnyAlone(Asked(r, d))
    ensures (exists out :: out in ZoneSplit(fw, r, d == Inbound) && Goes(fw, out, i, d, Slipped)) <==>
            SlipsInZone(fw, r, i, d)
    ensures forall out :: out in ZoneSplit(fw, r, d == Inbound) ==> !Goes(fw, out, i, d, Missed)
  {
    var ofSrc, objs := d == Inbound, Asked(r, d);
    forall out | out in ZoneSplit(fw, r, ofSrc)
      ensures Goes(fw, out, i, d, Slipped) ==> SlipsInZone(fw, r, i, d)
      ensures !Goes(fw, out, i, d, Missed)
    {
      PartGoesBy(fw, r, i, d, out);
    }
    if SlipsInZone(fw, r, i, d) {
      var out := WithElement(r, ofSrc, ZonePart(fw, objs, i));
      assert IsZonePart(fw, objs, r, ofSrc, Part(i, out));
      ZoneSplitExactly(fw, r, ofSrc, out);
      ZoneOfPart(fw, objs, i, i);
      assert Goes(fw, out, i, d, Slipped);
    }
  }

  lemma PartGoesBy(fw: Firewall, r: Rule, i: nat, d: Direction, out: Rule)
    requires d != Both && !Fails(fw, Asked(r, d)) && AnyAlone(Asked(r, d)) && out in ZoneSplit(fw, r, d == Inbound)
    ensures Goes(fw, out, i, d, Slipped) ==> SlipsInZone(fw, r, i, d)
    ensures !Goes(fw, out, i, d, Missed)
  {
    var ofSrc, objs := d == Inbound, Asked(r, d);
    ZoneSplitExactly(fw, r, ofSrc, out);
    if |objs| == 1 {
      SingleGoesRight(fw, out, i, d, Slipped);
      SingleGoesRight(fw, out, i, d, Missed);
    } else {
      var z :| IsZonePart(fw, objs, r, ofSrc, Part(z, out));
      ZoneOfPart(fw, objs, z, i);
    }
  }

  ghost predicate AllAnyAlone(rules: seq<Rule>) {
    forall r :: r in rules ==> AnyAlone(Element(r, true)) && AnyAlone(Element(r, false))
  }

  lemma AllZoneSplitKeeps(fw: Firewall, rules: seq<Rule>, ofSrc: bool)
    requires AllFresh(rules) && AllSound(fw, rules) && !SomeFails(fw, rules, ofSrc)
    ensures AllFresh(AllZoneSplit(fw, rules, ofSrc)) && AllSound(fw, AllZoneSplit(fw, rules, ofSrc))
    ensures AllAnyAlone(rules) ==> AllAnyAlone(AllZoneSplit(fw, rules, ofSrc))
    ensures SomeFails(fw, AllZoneSplit(fw, rules, ofSrc), !ofSrc) <==> SomeFails(fw, rules, !ofSrc)
  {
    var outs := AllZoneSplit(fw, rules, ofSrc);
    forall out | out in outs
      ensures Sound(fw, out)
      ensures AllAnyAlone(rules) ==> AnyAlone(Element(out, true)) && AnyAlone(Element(out, false))
      ensures Fails(fw, Element(out, !ofSrc)) ==> SomeFails(fw, rules, !ofSrc)
    {
      InAllZoneSplit(fw, rules, ofSrc, out);
      var r :| r in rules && out in ZoneSplit(fw, r, ofSrc);
      ZoneSplitKeeps(fw, r, ofSrc, out);
    }
    if r :| r in rules && Fails(fw, Element(r, !ofSrc)) {
      var out := SomePart(fw, r, ofSrc);
      InAllZoneSplit(fw, rules, ofSrc, out);
      ZoneSplitKeeps(fw, r, ofSrc, out);
    }
    forall k | 0 <= k < |outs| ensures Fresh(outs[k]) {
      assert outs[k] in outs;
    }
  }

  ghost predicate SomeSlipsInZone(fw: Firewall, rules: seq<Rule>, i: nat, d: Direction) {
    exists r :: r in rules && SlipsInZone(fw, r, i, d)
  }

  /** After splitting the element asked, a rule goes wrong exactly by slipping within the zone. */
  lemma OwnZonesGo(fw: Firewall, rules: seq<Rule>, i: nat, d: Direction)
    requires AllFresh(rules) && AllAnyAlone(rules) && d != Both && !SomeFails(fw, rules, d == Inbound)
    ensures SomeGoes(fw, AllZoneSplit(fw, rules, d == Inbound), i, d, Slipped) <==> SomeSlipsInZone(fw, rules, i, d)
    ensures !SomeGoes(fw, AllZoneSplit(fw, rules, d == Inbound), i, d, Missed)
  {
    var outs := AllZoneSplit(fw, rules, d == Inbound);
    forall out | out in outs
      ensures Goes(fw, out, i, d, Slipped) ==> SomeSlipsInZone(fw, rules, i, d)
      ensures !Goes(fw, out, i, d, Missed)
    {
      InAllZoneSplit(fw, rules, d == Inbound, out);
      var r :| r in rules && out in ZoneSplit(fw, r, d == Inbound);
      PartGoesBy(fw, r, i, d, out);
    }
    if r :| r in rules && SlipsInZone(fw, r, i, d) {
      ZoneSplitGoes(fw, r, i, d);
      var out :| out in ZoneSplit(fw, r, d == Inbound) && Goes(fw, out, i, d, Slipped);
      InAllZoneSplit(fw, rules, d == Inbound, out);
    }
  }

  /** Splitting the other element changes nothing for this one. */
  lemma OtherZonesGo(fw: Firewall, rules: seq<Rule>, i: nat, d: Direction)
    requires AllFresh(rules) && d != Both && !SomeFails(fw, rules, d != Inbound)
    ensures forall w :: SomeGoes(fw, AllZoneSplit(fw, rules, d != Inbound), i, d, w) <==> SomeGoes(fw, rules, i, d, w)
    ensures SomeSlipsInZone(fw, AllZoneSplit(fw, rules, d != Inbound), i, d) <==> SomeSlipsInZone(fw, rules, i, d)
  {
    var outs := AllZoneSplit(fw, rules, d != Inbound);
    forall out | out in outs
      ensures exists r :: r in rules && SameAsked(r, out, d)
    {
      InAllZoneSplit(fw, rules, d != Inbound, out);
      var r :| r in rules && out in ZoneSplit(fw, r, d != Inbound);
      ZoneSplitKeeps(fw, r, d != Inbound, out);
    }
    forall r | r in rules
      ensures exists out :: out in outs && SameAsked(r, out, d)
    {
      var out := SomePart(fw, r, d != Inbound);
      InAllZoneSplit(fw, rules, d != Inbound, out);
      ZoneSplitKeeps(fw, r, d != Inbound, out);
    }
    SameGoes(fw, rules, outs, i, d);
  }

  ghost predicate SameAsked(r: Rule, s: Rule, d: Direction) {
    r.itf == s.itf && r.dir == s.dir && Asked(r, d) == Asked(s, d)
  }

  lemma SameGoes(fw: Firewall, rules: seq<Rule>, outs: seq<Rule>, i: nat, d: Direction)
    requires forall out :: out in outs ==> exists r :: r in rules && SameAsked(r, out, d)
    requires forall r :: r in rules ==> exists out :: out in outs && SameAsked(r, out, d)
    ensures forall w :: SomeGoes(fw, outs, i, d, w) <==> SomeGoes(fw, rules, i, d, w)
    ensures SomeSlipsInZone(fw, outs, i, d) <==> SomeSlipsInZone(fw, rules, i, d)
  {
    forall r, s, w | SameAsked(r, s, d)
      ensures Goes(fw, r, i, d, w) <==> Goes(fw, s, i, d, w)
      ensures SlipsInZone(fw, r, i, d) <==> SlipsInZone(fw, s, i, d)
    {
      GoesByElement(fw, r, s, i, d, w);
    }
  }

  /** Source, then destination. */
  lemma BothZonesGo(fw: Firewall, rules: seq<Rule>, i: nat, d: Direction)
    requires AllFresh(rules) && AllSound(fw, rules) && AllAnyAlone(rules) && d != Both
    requires !SomeFails(fw, rules, true) && !SomeFails(fw, AllZoneSplit(fw, rules, true), false)
    ensures var zoned := AllZoneSplit(fw, AllZoneSplit(fw, rules, true), false);
            && (SomeGoes(fw, zoned, i, d, Slipped) <==> SomeSlipsInZone(fw, rules, i, d))
            && !SomeGoes(fw, zoned, i, d, Missed)
  {
    var bySrc := AllZoneSplit(fw, rules, true);
    AllZoneSplitKeeps(fw, rules, true);
    if d == Inbound {
      OwnZonesGo(fw, rules, i, d);
      OtherZonesGo(fw, bySrc, i, d);
    } else {
      OtherZonesGo(fw, rules, i, d);
      OwnZonesGo(fw, bySrc, i, d);
    }
  }

  // The processors.

  /** One rule: fails as soon as an object of several has no zone. */
  method SplitByNetworkZones(p: Processor, fw: Firewall, r: Rule, ofSrc: bool) returns (ok: bool)
    modifies p
    ensures ok <==> !Fails(fw, Element(r, ofSrc))
    ensures p.tmpQueue == if ok then old(p.tmpQueue) + ZoneSplit(fw, r, ofSrc) else old(p.tmpQueue)
    ensures ok <==> |Element(r, ofSrc)| == 1 || forall o :: o in Element(r, ofSrc) ==> fw.zone(o) != None
    ensures |Element(r, ofSrc)| == 1 ==> p.tmpQueue == old(p.tmpQueue) + [r]
  {
    var objs := Element(r, ofSrc);
    ok := true;
    if |objs| == 1 {
      p.tmpQueue := p.tmpQueue + [r];
      return;
    }
    var parts: seq<Part>, k := [], 0;
    while k < |objs|
      invariant k <= |objs| && p.tmpQueue == old(p.tmpQueue)
      invariant forall o :: o in objs[..k] ==> fw.zone(o).Some?
      invariant parts == PartsOf(fw, objs[..k], r, ofSrc)
    {
      assert objs[..k + 1][..k] == objs[..k] && objs[..k + 1] == objs[..k] + [objs[k]];
      if fw.zone(objs[k]).None? {
        ok := false;
        return;
      }
      parts := AddToInterface(parts, fw.zone(objs[k]).value, objs[k], r, ofSrc);
      k := k + 1;
    }
    assert objs[..k] == objs;
    p.tmpQueue := p.tmpQueue + RulesOf(parts);
  }

  method RunZoneSplit(fw: Firewall, rules: seq<Rule>, ofSrc: bool) returns (outs: Option<seq<Rule>>)
    ensures outs.None? <==> SomeFails(fw, rules, ofSrc)
    ensures outs.Some? ==> outs.value == AllZoneSplit(fw, rules, ofSrc)
  {
    var p := new Processor();
    var k := 0;
    while k < |rules|
      invariant k <= |rules| && forall r :: r in rules[..k] ==> !Fails(fw, Element(r, ofSrc))
      invariant p.tmpQueue == AllZoneSplit(fw, rules[..k], ofSrc)
    {
      var ok := SplitByNetworkZones(p, fw, rules[k], ofSrc);
      if !ok {
        assert rules[k] in rules;
        return None;
      }
      ZoneSplitNext(fw, rules, ofSrc, k);
      k := k + 1;
    }
    assert rules[..k] == rules;
    outs := Some(p.tmpQueue);
  }

  lemma {:induction false} ZoneSplitAppend(fw: Firewall, a: seq<Rule>, r: Rule, ofSrc: bool)
    requires !SomeFails(fw, a, ofSrc) && !Fails(fw, Element(r, ofSrc))
    ensures !SomeFails(fw, a + [r], ofSrc)
    ensures AllZoneSplit(fw, a + [r], ofSrc) == AllZoneSplit(fw, a, ofSrc) + ZoneSplit(fw, r, ofSrc)
  {
    if a == [] {
      assert [] + [r] == [r] && [r][1..] == [];
    } else {
      assert a[0] in a && (a + [r])[0] == a[0] && (a + [r])[1..] == a[1..] + [r];
      ZoneSplitAppend(fw, a[1..], r, ofSrc);
      Assoc(ZoneSplit(fw, a[0], ofSrc), AllZoneSplit(fw, a[1..], ofSrc), ZoneSplit(fw, r, ofSrc));
    }
  }

  lemma TakeOneMore(rules: seq<Rule>, k: nat)
    requires k < |rules|
    ensures rules[..k + 1] == rules[..k] + [rules[k]]
  {
  }

  lemma ZoneSplitNext(fw: Firewall, rules: seq<Rule>, ofSrc: bool, k: nat)
    requires k < |rules| && !SomeFails(fw, rules[..k], ofSrc) && !Fails(fw, Element(rules[k], ofSrc))
    ensures !SomeFails(fw, rules[..k + 1], ofSrc)
    ensures AllZoneSplit(fw, rules[..k + 1], ofSrc) ==
            AllZoneSplit(fw, rules[..k], ofSrc) + ZoneSplit(fw, rules[k], ofSrc)
  {
    TakeOneMore(rules, k);
    ZoneSplitAppend(fw, rules[..k], rules[k], ofSrc);
  }

  /** On an interface's list a rule can be where it should not be, but is never missed. */
  ghost predicate WholeUnlessSlips(fw: Firewall, split: seq<Rule>, zoned: seq<Rule>, out: seq<Rule>, i: nat,
                                   d: Direction)
    requires AllFresh(zoned)
  {
    Acl(out, i, d) == WholeRestricted(fw, zoned, i, d) <==> !SomeSlipsInZone(fw, split, i, d)
  }

  /** Both zone splits in a row. */
  method RunZoneSplits(fw: Firewall, split: seq<Rule>) returns (zoned: Option<seq<Rule>>)
    requires AllFresh(split) && AllSound(fw, split)
    ensures zoned.None? <==> SomeFails(fw, split, true) || SomeFails(fw, split, false)
    ensures zoned.Some? ==>
              && AllFresh(zoned.value) && AllSound(fw, zoned.value)
              && (forall p :: Decision(zoned.value, p) == Decision(split, p))
    ensures zoned.Some? && AllAnyAlone(split) ==> forall i, d :: d != Both ==>
              && (SomeGoes(fw, zoned.value, i, d, Slipped) <==> SomeSlipsInZone(fw, split, i, d))
              && !SomeGoes(fw, zoned.value, i, d, Missed)
  {
    var bySrc := RunZoneSplit(fw, split, true);
    if bySrc.None? {
      return None;
    }
    AllZoneSplitKeeps(fw, split, true);
    zoned := RunZoneSplit(fw, bySrc.value, false);
    if zoned.Some? {
      AllZoneSplitKeeps(fw, bySrc.value, false);
      forall p ensures Decision(zoned.value, p) == Decision(split, p) {
        AllZoneSplitDecides(fw, split, true, p);
        AllZoneSplitDecides(fw, bySrc.value, false, p);
      }
      if AllAnyAlone(split) {
        forall i, d | d != Both
          ensures SomeGoes(fw, zoned.value, i, d, Slipped) <==> SomeSlipsInZone(fw, split, i, d)
          ensures !SomeGoes(fw, zoned.value, i, d, Missed)
        {
          BothZonesGo(fw, split, i, d);
        }
      }
    }
  }

  lemma NoneOrSlipped(fw: Firewall, rules: seq<Rule>, i: nat, d: Direction)
    requires !SomeGoes(fw, rules, i, d, Missed)
    ensures (forall w :: !SomeGoes(fw, rules, i, d, w)) <==> !SomeGoes(fw, rules, i, d, Slipped)
  {
    forall w | !SomeGoes(fw, rules, i, d, Slipped) ensures !SomeGoes(fw, rules, i, d, w) {
      match w
      case Slipped =>
      case Missed =>
    }
  }

  lemma {:induction false} LeftWithin(m: nat -> bool, objs: seq<nat>, n: nat)
    ensures |Left(m, objs, n)| <= |objs| && forall o :: o in Left(m, objs, n) ==> o in objs
  {
    if objs != [] && n > 1 {
      LeftWithin(m, objs[1..], if m(objs[0]) then n - 1 else n);
    }
  }

  lemma SplitAlone(m: nat -> bool, r: Rule, ofSrc: bool, out: Rule)
    requires out in Split(m, r, ofSrc) && AnyAlone(Element(r, true)) && AnyAlone(Element(r, false))
    ensures AnyAlone(Element(out, true)) && AnyAlone(Element(out, false))
  {
    var objs := Element(r, ofSrc);
    var os, left := Peeled(m, objs, |objs|), Left(m, objs, |objs|);
    if out == WithElement(r, ofSrc, left) {
      LeftWithin(m, objs, |objs|);
    } else {
      var k :| 0 <= k < |os| && out == WithElement(r, ofSrc, [os[k]]);
    }
  }

  lemma AllSplitAlone(m: nat -> bool, rules: seq<Rule>, ofSrc: bool)
    requires AllAnyAlone(rules)
    ensures AllAnyAlone(AllSplit(m, rules, ofSrc))
  {
    forall out | out in AllSplit(m, rules, ofSrc)
      ensures AnyAlone(Element(out, true)) && AnyAlone(Element(out, false))
    {
      InAllSplit(m, rules, ofSrc, out);
      var r :| r in rules && out in Split(m, r, ofSrc);
      SplitAlone(m, r, ofSrc, out);
    }
  }

  lemma FailsExactly(fw: Firewall, rules: seq<Rule>)
    requires AllFresh(rules)
    ensures SomeFails(fw, rules, true) || SomeFails(fw, rules, false) <==>
            exists r, o :: r in rules && fw.zone(o) == None &&
              ((o in r.body.src && |r.body.src| > 1) || (o in r.body.dst && |r.body.dst| > 1))
  {
    if r :| r in rules && Fails(fw, Element(r, true)) {
      var o :| o in r.body.src && fw.zone(o) == None;
    }
    if r :| r in rules && Fails(fw, Element(r, false)) {
      var o :| o in r.body.dst && fw.zone(o) == None;
    }
    if r, o :| r in rules && fw.zone(o) == None &&
               ((o in r.body.src && |r.body.src| > 1) || (o in r.body.dst && |r.body.dst| > 1)) {
      assert Element(r, true) == r.body.src && Element(r, false) == r.body.dst;
    }
  }

  /** The splits by the firewall, the splits by zones and the interface assignment, as for PIX.  There is no
      result exactly if an element of several objects has one without a zone; otherwise every packet is
      decided as by the policy, no rule is missed on any list, and the lists are the restrictions by whole
      elements exactly where no rule slips within the zone. */
  method CompilePix(fw: Firewall, rules: seq<Rule>)
    returns (split: seq<Rule>, zoned: Option<seq<Rule>>, out: seq<Rule>)
    requires AllFresh(rules) && Distinct(fw.ifaces)
    ensures AllFresh(split) && split == AllSplit(fw.matches, AllSplit(fw.matches, rules, true), false)
    ensures zoned.None? <==> SomeFails(fw, split, true) || SomeFails(fw, split, false)
    ensures zoned.None? <==> exists r, o :: r in split && fw.zone(o) == None &&
                               ((o in r.body.src && |r.body.src| > 1) || (o in r.body.dst && |r.body.dst| > 1))
    ensures zoned.Some? ==>
              && AllFresh(zoned.value) && (forall p :: Decision(zoned.value, p) == Decision(rules, p))
              && (forall k :: 0 <= k < |out| ==> Concrete(out[k]))
              && (forall i, d :: Acl(out, i, d) == Restricted(fw, zoned.value, i, d))
    ensures zoned.Some? && StopsMatch(fw) && AllAnyAlone(rules) ==>
              forall i, d :: d != Both ==> WholeUnlessSlips(fw, split, zoned.value, out, i, d)
  {
    split := RunSplits(fw, rules);
    if AllAnyAlone(rules) {
      AllSplitAlone(fw.matches, rules, true);
      AllSplitAlone(fw.matches, AllSplit(fw.matches, rules, true), false);
    }
    zoned := RunZoneSplits(fw, split);
    FailsExactly(fw, split);
    out := [];
    if zoned.Some? {
      out := AssignInterfaces(fw, zoned.value);
      if StopsMatch(fw) && AllAnyAlone(rules) {
        forall i: nat, d | d != Both
          ensures WholeUnlessSlips(fw, split, zoned.value, out, i, d)
        {
          WholeRestrictedExactly(fw, zoned.value, i, d);
          NoneOrSlipped(fw, zoned.value, i, d);
        }
      }
    }
  }
}
