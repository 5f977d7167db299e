/** Policy rules on their way to access lists: rule elements that contain the firewall are split, and
    every rule is bound to interfaces and directions by three processors in a row. */
module AclAssign {
  import opened Basics

  datatype Direction = Inbound | Outbound | Both

  /** What a copy of a rule keeps.  Objects, services and actions are ids; `origin` says which rule of
      the policy it comes from. */
  datatype Body = Body(origin: nat, action: nat, src: seq<nat>, dst: seq<nat>, srv: nat)

  /** An empty `itf` stands for "any interface". */
  datatype Rule = Rule(body: Body, itf: seq<nat>, dir: Direction, fromSrc: bool, fromDst: bool, isSet: bool)

  const ANY_ADDRESS: nat := 0

  /** What the processors ask about the firewall.  `matches` and `matchesCluster` are the complex match
      with the firewall and its cluster; `stops` counts broadcasts but not multicasts as the firewall;
      `zone` is the interface whose network zone includes an address, if there is one. */
  datatype Firewall = Firewall(
    ifaces: seq<nat>, isUnprotected: nat -> bool, isLoopback: nat -> bool,
    matches: nat -> bool, matchesCluster: nat -> bool, stops: nat -> bool, zone: nat -> Option<nat>)

  predicate Distinct(s: seq<nat>) {
    forall i, j :: 0 <= i < j < |s| ==> s[i] != s[j]
  }

  /** The rules a policy starts with. */
  predicate Fresh(r: Rule) {
    r.body.src != [] && r.body.dst != [] && !r.fromSrc && !r.fromDst
  }

  ghost predicate AllFresh(rules: seq<Rule>) {
    forall k :: 0 <= k < |rules| ==> Fresh(rules[k])
  }

  function Protected(fw: Firewall, ids: seq<nat>): (r: seq<nat>)
    ensures forall i :: i in r <==> i in ids && !fw.isUnprotected(i)
    ensures Distinct(ids) ==> Distinct(r)
  {
    if ids == [] then []
    else if fw.isUnprotected(ids[0]) then Protected(fw, ids[1..])
    else [ids[0]] + Protected(fw, ids[1..])
  }

  /** The interfaces whose network zone goes with an element: the zone of its first object, or all of
      them when it is "any" or no zone includes it. */
  function ZoneOrAll(fw: Firewall, element: seq<nat>): (ids: seq<nat>)
    requires element != []
    ensures Distinct(fw.ifaces) ==> Distinct(ids)
  {
    if element == [ANY_ADDRESS] then Protected(fw, fw.ifaces)
    else match fw.zone(element[0])
         case Some(i) => [i]
         case None => fw.ifaces
  }

  // When a rule of the policy belongs on interface `i` in direction `d`.

  predicate AppliesInbound(fw: Firewall, r: Rule, i: nat)
    requires Fresh(r)
  {
    && !fw.isUnprotected(i) && !fw.isLoopback(i)
    && match r.dir
       case Inbound => i in fw.ifaces
       case Outbound => false
       case Both => !fw.matches(r.body.src[0]) && !fw.matchesCluster(r.body.src[0]) && i in ZoneOrAll(fw, r.body.src)
  }

  predicate AppliesOutbound(fw: Firewall, r: Rule, i: nat)
    requires Fresh(r)
  {
    && !fw.isUnprotected(i) && !fw.isLoopback(i) && !fw.stops(r.body.dst[0])
    && match r.dir
       case Inbound => false
       case Outbound => i in fw.ifaces
       case Both => !fw.matches(r.body.dst[0]) && !fw.matchesCluster(r.body.dst[0]) && i in ZoneOrAll(fw, r.body.dst)
  }

  predicate Applies(fw: Firewall, r: Rule, i: nat, d: Direction)
    requires Fresh(r)
  {
    if r.itf != [] then i == r.itf[0] && d != Both && (r.dir == Both || r.dir == d)
    else if d == Inbound then AppliesInbound(fw, r, i)
    else d == Outbound && AppliesOutbound(fw, r, i)
  }

  /** The policy restricted to an interface and a direction. */
  function Restricted(fw: Firewall, rules: seq<Rule>, i: nat, d: Direction): seq<Body>
    requires AllFresh(rules)
  {
    if rules == [] then []
    else if Applies(fw, rules[0], i, d) then [rules[0].body] + Restricted(fw, rules[1..], i, d)
    else Restricted(fw, rules[1..], i, d)
  }

  /** The access list that goes out on an interface in a direction. */
  function Acl(rules: seq<Rule>, i: nat, d: Direction): seq<Body> {
    if rules == [] then []
    else if rules[0].itf != [] && rules[0].itf[0] == i && rules[0].dir == d then [rules[0].body] + Acl(rules[1..], i, d)
    else Acl(rules[1..], i, d)
  }

  function FirstMatch(acl: seq<Body>, hit: Body -> bool): Option<Body> {
    if acl == [] then None else if hit(acl[0]) then Some(acl[0]) else FirstMatch(acl[1..], hit)
  }

  /** The first rule of the policy that applies and matches. */
  function FirstApplicable(fw: Firewall, rules: seq<Rule>, i: nat, d: Direction, hit: Body -> bool): Option<Body>
    requires AllFresh(rules)
  {
    if rules == [] then None
    else if Applies(fw, rules[0], i, d) && hit(rules[0].body) then Some(rules[0].body)
    else FirstApplicable(fw, rules[1..], i, d, hit)
  }

  lemma {:induction false} FirstOfRestricted(fw: Firewall, rules: seq<Rule>, i: nat, d: Direction, hit: Body -> bool)
    requires AllFresh(rules)
    ensures FirstMatch(Restricted(fw, rules, i, d), hit) == FirstApplicable(fw, rules, i, d, hit)
  {
    if rules != [] {
      FirstOfRestricted(fw, rules[1..], i, d, hit);
      var rest := Restricted(fw, rules[1..], i, d);
      assert ([rules[0].body] + rest)[1..] == rest;
    }
  }

  /** Whatever a packet is and matches, the access list finds the first rule that applies. */
  ghost predicate DecidesAs(fw: Firewall, acl: seq<Body>, rules: seq<Rule>, i: nat, d: Direction)
    requires AllFresh(rules)
  {
    forall hit :: FirstMatch(acl, hit) == FirstApplicable(fw, rules, i, d, hit)
  }

  lemma RestrictedDecides(fw: Firewall, rules: seq<Rule>, i: nat, d: Direction)
    requires AllFresh(rules)
    ensures DecidesAs(fw, Restricted(fw, rules, i, d), rules, i, d)
  {
    forall hit
      ensures FirstMatch(Restricted(fw, rules, i, d), hit) == FirstApplicable(fw, rules, i, d, hit)
    {
      FirstOfRestricted(fw, rules, i, d, hit);
    }
  }

  // What each processor makes of one rule.

  predicate Skipped(fw: Firewall, i: nat) {
    fw.isUnprotected(i) || fw.isLoopback(i)
  }

  /** One copy of the rule for each interface that is not skipped. */
  function Copies(fw: Firewall, ids: seq<nat>, r: Rule, d: Direction): (out: seq<Rule>)
    ensures forall k {:trigger out[k]} :: 0 <= k < |out| ==> IsCopy(r, out[k], d)
  {
    if ids == [] then []
    else if Skipped(fw, ids[0]) then Copies(fw, ids[1..], r, d)
    else [BoundCopy(r, [ids[0]], d)] + Copies(fw, ids[1..], r, d)
  }

  ghost predicate IsCopy(r: Rule, c: Rule, d: Direction) {
    |c.itf| == 1 && c == BoundCopy(r, c.itf, d)
  }

  function BoundCopy(r: Rule, itf: seq<nat>, d: Direction): Rule {
    if d == Inbound then r.(itf := itf, dir := d, fromSrc := true) else r.(itf := itf, dir := d, fromDst := true)
  }

  function SrcInterfaces(fw: Firewall, r: Rule): (ids: seq<nat>)
    requires Fresh(r)
    ensures Distinct(fw.ifaces) ==> Distinct(ids)
  {
    match r.dir
    case Inbound => Protected(fw, fw.ifaces)
    case Outbound => []
    case Both =>
      if fw.matches(r.body.src[0]) || fw.matchesCluster(r.body.src[0]) then [] else ZoneOrAll(fw, r.body.src)
  }

  function DstInterfaces(fw: Firewall, r: Rule): (ids: seq<nat>)
    requires Fresh(r)
    ensures Distinct(fw.ifaces) ==> Distinct(ids)
  {
    match r.dir
    case Inbound => []
    case Outbound => Protected(fw, fw.ifaces)
    case Both =>
      if fw.matches(r.body.dst[0]) || fw.matchesCluster(r.body.dst[0]) then [] else ZoneOrAll(fw, r.body.dst)
  }

  function BySrc(fw: Firewall, r: Rule): seq<Rule>
    requires Fresh(r)
  {
    if r.itf != [] then [r]
    else if fw.stops(r.body.dst[0]) then Copies(fw, SrcInterfaces(fw, r), r, Inbound)
    else Copies(fw, SrcInterfaces(fw, r), r, Inbound) + [r]
  }

  /** Rules between the first two processors, and between the last two. */
  predicate Halfway(r: Rule) {
    if r.fromSrc then r.itf != [] && r.dir == Inbound && !r.fromDst else Fresh(r)
  }

  ghost predicate AllHalfway(rules: seq<Rule>) {
    forall k :: 0 <= k < |rules| ==> Halfway(rules[k])
  }

  predicate NearlyDone(r: Rule) {
    r.itf != [] && (r.fromSrc || r.fromDst ==> r.dir != Both)
  }

  function ByDst(fw: Firewall, r: Rule): seq<Rule>
    requires Halfway(r)
  {
    if r.fromSrc || r.itf != [] then [r] else Copies(fw, DstInterfaces(fw, r), r, Outbound)
  }

  function IfSet(r: Rule): seq<Rule> {
    if r.itf == [] || r.fromSrc || r.fromDst then [r]
    else if r.dir == Both then
      [r.(itf := r.itf[..1], dir := Inbound, isSet := true), r.(itf := r.itf[..1], dir := Outbound, isSet := true)]
    else [r.(itf := r.itf[..1], isSet := true)]
  }

  // What a whole rule queue becomes.

  function AllBySrc(fw: Firewall, rules: seq<Rule>): (out: seq<Rule>)
    requires AllFresh(rules)
    ensures AllHalfway(out)
  {
    if rules == [] then [] else BySrc(fw, rules[0]) + AllBySrc(fw, rules[1..])
  }

  function AllByDst(fw: Firewall, rules: seq<Rule>): (out: seq<Rule>)
    requires AllHalfway(rules)
    ensures forall k :: 0 <= k < |out| ==> NearlyDone(out[k])
  {
    if rules == [] then [] else ByDst(fw, rules[0]) + AllByDst(fw, rules[1..])
  }

  function AllIfSet(rules: seq<Rule>): seq<Rule> {
    if rules == [] then [] else IfSet(rules[0]) + AllIfSet(rules[1..])
  }

  lemma {:induction false} AclAppend(a: seq<Rule>, b: seq<Rule>, i: nat, d: Direction)
    ensures Acl(a + b, i, d) == Acl(a, i, d) + Acl(b, i, d)
  {
    if a == [] {
      assert a + b == b;
    } else {
      assert (a + b)[1..] == a[1..] + b;
      AclAppend(a[1..], b, i, d);
    }
  }

  lemma {:induction false} ByDstAppend(fw: Firewall, a: seq<Rule>, b: seq<Rule>)
    requires AllHalfway(a) && AllHalfway(b)
    ensures AllByDst(fw, a + b) == AllByDst(fw, a) + AllByDst(fw, b)
  {
    if a == [] {
      assert a + b == b;
    } else {
      assert (a + b)[1..] == a[1..] + b;
      ByDstAppend(fw, a[1..], b);
    }
  }

  lemma {:induction false} IfSetAppend(a: seq<Rule>, b: seq<Rule>)
    ensures AllIfSet(a + b) == AllIfSet(a) + AllIfSet(b)
  {
    if a == [] {
      assert a + b == b;
    } else {
      assert (a + b)[1..] == a[1..] + b;
      IfSetAppend(a[1..], b);
    }
  }

  /** Bound copies pass the later processors unchanged. */
  lemma {:induction false} BoundPass(fw: Firewall, rules: seq<Rule>)
    requires forall k :: 0 <= k < |rules| ==> rules[k].itf != [] && (rules[k].fromSrc || rules[k].fromDst)
    ensures AllIfSet(rules) == rules
    ensures AllHalfway(rules) ==> AllByDst(fw, rules) == rules
  {
    if rules != [] {
      BoundPass(fw, rules[1..]);
    }
  }

  lemma AclOfOne(r: Rule, i: nat, d: Direction)
    ensures Acl([r], i, d) == if r.itf != [] && r.itf[0] == i && r.dir == d then [r.body] else []
  {
    assert [r][1..] == [];
  }

  lemma {:induction false} AclOfCopies(fw: Firewall, ids: seq<nat>, r: Rule, d: Direction, i: nat, e: Direction)
    requires Distinct(ids)
    ensures Acl(Copies(fw, ids, r, d), i, e) == if e == d && i in ids && !Skipped(fw, i) then [r.body] else []
  {
    if ids != [] {
      AclOfCopies(fw, ids[1..], r, d, i, e);
      assert i in ids <==> i == ids[0] || i in ids[1..];
      if !Skipped(fw, ids[0]) {
        var c := BoundCopy(r, [ids[0]], d);
        AclAppend([c], Copies(fw, ids[1..], r, d), i, e);
        AclOfOne(c, i, e);
      }
    }
  }

  function Assigned(fw: Firewall, rules: seq<Rule>): seq<Rule>
    requires AllFresh(rules)
  {
    AllIfSet(AllByDst(fw, AllBySrc(fw, rules)))
  }

  lemma AssignedAppend(fw: Firewall, rules: seq<Rule>)
    requires AllFresh(rules) && rules != []
    ensures Assigned(fw, rules) == AllIfSet(AllByDst(fw, BySrc(fw, rules[0]))) + Assigned(fw, rules[1..])
  {
    ByDstAppend(fw, BySrc(fw, rules[0]), AllBySrc(fw, rules[1..]));
    IfSetAppend(AllByDst(fw, BySrc(fw, rules[0])), AllByDst(fw, AllBySrc(fw, rules[1..])));
  }

  /** One rule bound to an interface already. */
  lemma OneBound(fw: Firewall, r: Rule, i: nat, d: Direction)
    requires Fresh(r) && r.itf != []
    ensures Acl(AllIfSet(AllByDst(fw, BySrc(fw, r))), i, d) == if Applies(fw, r, i, d) then [r.body] else []
  {
    OneByDst(fw, r);
    assert [r][1..] == [] && AllIfSet([r]) == IfSet(r);
    var out := IfSet(r);
    AclOfOne(out[0], i, d);
    if r.dir == Both {
      assert out == [out[0]] + [out[1]];
      AclAppend([out[0]], [out[1]], i, d);
      AclOfOne(out[1], i, d);
    }
  }

  lemma CopiesPass(fw: Firewall, ids: seq<nat>, r: Rule, d: Direction)
    requires Fresh(r) && d != Both
    ensures AllIfSet(Copies(fw, ids, r, d)) == Copies(fw, ids, r, d)
    ensures d == Inbound ==> AllHalfway(Copies(fw, ids, r, d))
    ensures d == Inbound ==> AllByDst(fw, Copies(fw, ids, r, d)) == Copies(fw, ids, r, d)
  {
    var copies := Copies(fw, ids, r, d);
    forall k | 0 <= k < |copies|
      ensures copies[k].itf != [] && (copies[k].fromSrc || copies[k].fromDst)
      ensures d == Inbound ==> Halfway(copies[k])
    {
      assert IsCopy(r, copies[k], d);
    }
    BoundPass(fw, copies);
  }

  lemma OneByDst(fw: Firewall, r: Rule)
    requires Halfway(r)
    ensures AllHalfway([r]) && AllByDst(fw, [r]) == ByDst(fw, r)
  {
    assert [r][1..] == [];
  }

  /** What the processors make of one rule for any interface: first what its source puts inbound, then
      what its destination puts outbound. */
  lemma UnboundBecomes(fw: Firewall, r: Rule)
    requires Fresh(r) && r.itf == []
    ensures AllIfSet(AllByDst(fw, BySrc(fw, r))) ==
            Copies(fw, SrcInterfaces(fw, r), r, Inbound) +
            if fw.stops(r.body.dst[0]) then [] else Copies(fw, DstInterfaces(fw, r), r, Outbound)
  {
    var ins := Copies(fw, SrcInterfaces(fw, r), r, Inbound);
    var outs := Copies(fw, DstInterfaces(fw, r), r, Outbound);
    CopiesPass(fw, SrcInterfaces(fw, r), r, Inbound);
    if fw.stops(r.body.dst[0]) {
      assert ins + [] == ins;
    } else {
      OneByDst(fw, r);
      ByDstAppend(fw, ins, [r]);
      CopiesPass(fw, DstInterfaces(fw, r), r, Outbound);
      IfSetAppend(ins, outs);
    }
  }

  /** The interfaces that go with the source are those where the rule applies inbound. */
  lemma SrcApplies(fw: Firewall, r: Rule, i: nat)
    requires Fresh(r)
    ensures i in SrcInterfaces(fw, r) && !Skipped(fw, i) <==> AppliesInbound(fw, r, i)
  {
  }

  lemma DstApplies(fw: Firewall, r: Rule, i: nat)
    requires Fresh(r)
    ensures !fw.stops(r.body.dst[0]) && i in DstInterfaces(fw, r) && !Skipped(fw, i) <==> AppliesOutbound(fw, r, i)
  {
  }

  /** A rule for any interface ends on exactly the lists where it applies. */
  lemma OneUnbound(fw: Firewall, r: Rule, i: nat, d: Direction)
    requires Fresh(r) && r.itf == [] && Distinct(fw.ifaces)
    ensures Acl(AllIfSet(AllByDst(fw, BySrc(fw, r))), i, d) == if Applies(fw, r, i, d) then [r.body] else []
  {
    UnboundBecomes(fw, r);
    SrcApplies(fw, r, i);
    DstApplies(fw, r, i);
    var ids := if fw.stops(r.body.dst[0]) then [] else DstInterfaces(fw, r);
    var ins, outs := Copies(fw, SrcInterfaces(fw, r), r, Inbound), Copies(fw, ids, r, Outbound);
    AclAppend(ins, outs, i, d);
    AclOfCopies(fw, SrcInterfaces(fw, r), r, Inbound, i, d);
    AclOfCopies(fw, ids, r, Outbound, i, d);
  }

  /** Every access list consists of exactly the rules that apply there, once each and in order. */
  lemma {:induction false} AclIsRestricted(fw: Firewall, rules: seq<Rule>, i: nat, d: Direction)
    requires AllFresh(rules) && Distinct(fw.ifaces)
    ensures Acl(Assigned(fw, rules), i, d) == Restricted(fw, rules, i, d)
  {
    if rules != [] {
      var r := rules[0];
      AssignedAppend(fw, rules);
      AclAppend(AllIfSet(AllByDst(fw, BySrc(fw, r))), Assigned(fw, rules[1..]), i, d);
      if r.itf == [] {
        OneUnbound(fw, r, i, d);
      } else {
        OneBound(fw, r, i, d);
      }
      AclIsRestricted(fw, rules[1..], i, d);
    }
  }

  predicate Concrete(r: Rule) {
    |r.itf| >= 1 && r.dir != Both
  }

  lemma {:induction false} IfSetIsConcrete(rules: seq<Rule>)
    requires forall k :: 0 <= k < |rules| ==> NearlyDone(rules[k])
    ensures forall k :: 0 <= k < |AllIfSet(rules)| ==> Concrete(AllIfSet(rules)[k])
  {
    if rules != [] {
      IfSetIsConcrete(rules[1..]);
    }
  }

  /** No rule leaves for "any" interface or for both directions, so the access lists lose none. */
  lemma AssignedIsConcrete(fw: Firewall, rules: seq<Rule>)
    requires AllFresh(rules)
    ensures forall k :: 0 <= k < |Assigned(fw, rules)| ==> Concrete(Assigned(fw, rules)[k])
  {
    IfSetIsConcrete(AllByDst(fw, AllBySrc(fw, rules)));
  }

  // What comes out, in terms of the rules and the firewall's answers alone.

  /** Some rule with this body is bound to the interface and the direction. */
  ghost predicate OnList(out: seq<Rule>, b: Body, i: nat, d: Direction) {
    exists k :: 0 <= k < |out| && out[k].body == b && out[k].itf != [] && out[k].itf[0] == i && out[k].dir == d
  }

  /** The interface is that of the first object's zone; "any" and an object without a zone go with every
      interface. */
  ghost predicate ZoneHas(fw: Firewall, element: seq<nat>, i: nat) {
    && element != []
    && if element == [ANY_ADDRESS] || fw.zone(element[0]).None? then i in fw.ifaces else fw.zone(element[0]).value == i
  }

  /** A rule for any interface goes to each interface that is neither unprotected nor loopback, for its own
      direction; if it is for both, only where the zone of the element asked has it, and only if that
      element's first object is neither the firewall nor its cluster.  What stops at the firewall does not
      go outbound. */
  ghost predicate Belongs(fw: Firewall, r: Rule, i: nat, d: Direction) {
    var element := if d == Inbound then r.body.src else r.body.dst;
    && d != Both && (r.dir == d || r.dir == Both) && element != []
    && if r.itf != [] then r.itf[0] == i
       else
         && !fw.isUnprotected(i) && !fw.isLoopback(i) && (d == Outbound ==> !fw.stops(element[0]))
         && if r.dir == d then i in fw.ifaces
            else !fw.matches(element[0]) && !fw.matchesCluster(element[0]) && ZoneHas(fw, element, i)
  }

  lemma BelongsIsApplies(fw: Firewall, r: Rule, i: nat, d: Direction)
    requires Fresh(r)
    ensures Applies(fw, r, i, d) <==> Belongs(fw, r, i, d)
  {
  }

  lemma {:induction false} InAcl(out: seq<Rule>, b: Body, i: nat, d: Direction)
    ensures b in Acl(out, i, d) <==> OnList(out, b, i, d)
  {
    if out != [] {
      InAcl(out[1..], b, i, d);
      OnListStep(out, b, i, d);
    }
  }

  lemma OnListStep(out: seq<Rule>, b: Body, i: nat, d: Direction)
    requires out != []
    ensures OnList(out, b, i, d) <==>
            (out[0].body == b && out[0].itf != [] && out[0].itf[0] == i && out[0].dir == d) || OnList(out[1..], b, i, d)
  {
    if k :| 0 <= k < |out| && out[k].body == b && out[k].itf != [] && out[k].itf[0] == i && out[k].dir == d {
      assert k > 0 ==> out[1..][k - 1] == out[k];
    }
    if k :| 0 <= k < |out[1..]| && out[1..][k].body == b && out[1..][k].itf != [] && out[1..][k].itf[0] == i &&
            out[1..][k].dir == d {
      assert out[k + 1] == out[1..][k];
    }
  }

  lemma {:induction false} CopiesAreOn(fw: Firewall, ids: seq<nat>, r: Rule, i: nat, d: Direction)
    ensures OnList(Copies(fw, ids, r, d), r.body, i, d) <==> i in ids && !Skipped(fw, i)
  {
    if ids != [] {
      CopiesAreOn(fw, ids[1..], r, i, d);
      if !Skipped(fw, ids[0]) {
        OnListStep(Copies(fw, ids, r, d), r.body, i, d);
      }
    }
  }

  /** A rule for any interface is put inbound by its source exactly where it belongs. */
  lemma BySrcPuts(fw: Firewall, r: Rule, i: nat)
    requires Fresh(r) && r.itf == []
    ensures OnList(BySrc(fw, r), r.body, i, Inbound) <==> Belongs(fw, r, i, Inbound)
  {
    var copies := Copies(fw, SrcInterfaces(fw, r), r, Inbound);
    CopiesAreOn(fw, SrcInterfaces(fw, r), r, i, Inbound);
    AclAppend(copies, [r], i, Inbound);
    AclOfOne(r, i, Inbound);
    InAcl(copies, r.body, i, Inbound);
    InAcl(copies + [r], r.body, i, Inbound);
    BelongsIsApplies(fw, r, i, Inbound);
  }

  /** What is left for any interface is put outbound by its destination exactly where it belongs. */
  lemma ByDstPuts(fw: Firewall, r: Rule, i: nat)
    requires Halfway(r) && r.itf == [] && !fw.stops(r.body.dst[0])
    ensures OnList(ByDst(fw, r), r.body, i, Outbound) <==> Belongs(fw, r, i, Outbound)
  {
    CopiesAreOn(fw, DstInterfaces(fw, r), r, i, Outbound);
    BelongsIsApplies(fw, r, i, Outbound);
  }

  /** The queue a processor fills, one method per processor and rule. */
  class Processor {
    var tmpQueue: seq<Rule>

    constructor ()
      ensures tmpQueue == []
    {
      tmpQueue := [];
    }

    method PushCopies(fw: Firewall, ids: seq<nat>, r: Rule, d: Direction)
      modifies this
      ensures tmpQueue == old(tmpQueue) + Copies(fw, ids, r, d)
    {
      var k := 0;
      ghost var all := Copies(fw, ids, r, d);
      while k < |ids|
        invariant k <= |ids| && tmpQueue + Copies(fw, ids[k..], r, d) == old(tmpQueue) + all
      {
        ghost var rest := Copies(fw, ids[k + 1..], r, d);
        assert ids[k..][1..] == ids[k + 1..];
        if !fw.isUnprotected(ids[k]) && !fw.isLoopback(ids[k]) {
          PushOne(tmpQueue, BoundCopy(r, [ids[k]], d), rest);
          tmpQueue := tmpQueue + [BoundCopy(r, [ids[k]], d)];
        }
        k := k + 1;
      }
      assert ids[k..] == [];
    }

    method SetInterfaceAndDirectionBySrc(fw: Firewall, r: Rule)
      requires Fresh(r)
      modifies this
      ensures tmpQueue == old(tmpQueue) + BySrc(fw, r)
      ensures r.itf == [] ==>
                forall i :: OnList(tmpQueue[|old(tmpQueue)|..], r.body, i, Inbound) <==> Belongs(fw, r, i, Inbound)
    {
      if r.itf == [] {
        forall i ensures OnList(BySrc(fw, r), r.body, i, Inbound) <==> Belongs(fw, r, i, Inbound) {
          BySrcPuts(fw, r, i);
        }
      }
      if r.itf != [] {
        tmpQueue := tmpQueue + [r];
        return;
      }
      var ids: seq<nat> := [];
      if r.dir == Both && !fw.matches(r.body.src[0]) && !fw.matchesCluster(r.body.src[0]) {
        ids := ZoneOrAll(fw, r.body.src);
      }
      if r.dir == Inbound {
        ids := Protected(fw, fw.ifaces);
      }
      PushCopies(fw, ids, r, Inbound);
      if !fw.stops(r.body.dst[0]) {
        tmpQueue := tmpQueue + [r];
      }
    }

    method SetInterfaceAndDirectionByDst(fw: Firewall, r: Rule)
      requires Halfway(r)
      modifies this
      ensures tmpQueue == old(tmpQueue) + ByDst(fw, r)
      ensures r.itf == [] && !fw.stops(r.body.dst[0]) ==>
                forall i :: OnList(tmpQueue[|old(tmpQueue)|..], r.body, i, Outbound) <==> Belongs(fw, r, i, Outbound)
    {
      if r.itf == [] && !fw.stops(r.body.dst[0]) {
        forall i ensures OnList(ByDst(fw, r), r.body, i, Outbound) <==> Belongs(fw, r, i, Outbound) {
          ByDstPuts(fw, r, i);
        }
      }
      if r.fromSrc || r.itf != [] {
        tmpQueue := tmpQueue + [r];
        return;
      }
      var ids: seq<nat> := [];
      if r.dir == Both && !fw.matches(r.body.dst[0]) && !fw.matchesCluster(r.body.dst[0]) {
        ids := ZoneOrAll(fw, r.body.dst);
      }
      if r.dir == Outbound {
        ids := Protected(fw, fw.ifaces);
      }
      PushCopies(fw, ids, r, Outbound);
    }

    method SetInterfaceAndDirectionIfInterfaceSet(r: Rule)
      modifies this
      ensures tmpQueue == old(tmpQueue) + IfSet(r)
    {
      if r.itf == [] || r.fromSrc || r.fromDst {
        tmpQueue := tmpQueue + [r];
        return;
      }
      var copy := r.(itf := r.itf[..1], isSet := true);
      if r.dir == Both {
        tmpQueue := tmpQueue + [copy.(dir := Inbound)];
        tmpQueue := tmpQueue + [copy.(dir := Outbound)];
      } else {
        tmpQueue := tmpQueue + [copy];
      }
    }
  }

  method RunBySrc(fw: Firewall, rules: seq<Rule>) returns (out: seq<Rule>)
    requires AllFresh(rules)
    ensures out == AllBySrc(fw, rules)
  {
    var p := new Processor();
    var k := 0;
    while k < |rules|
      invariant k <= |rules| && p.tmpQueue + AllBySrc(fw, rules[k..]) == AllBySrc(fw, rules)
    {
      ghost var rest := rules[k + 1..];
      assert rules[k..][1..] == rest;
      Assoc(p.tmpQueue, BySrc(fw, rules[k]), AllBySrc(fw, rest));
      p.SetInterfaceAndDirectionBySrc(fw, rules[k]);
      k := k + 1;
    }
    assert rules[k..] == [];
    out := p.tmpQueue;
  }

  method RunByDst(fw: Firewall, rules: seq<Rule>) returns (out: seq<Rule>)
    requires AllHalfway(rules)
    ensures out == AllByDst(fw, rules)
  {
    var p := new Processor();
    var k := 0;
    while k < |rules|
      invariant k <= |rules| && p.tmpQueue + AllByDst(fw, rules[k..]) == AllByDst(fw, rules)
    {
      ghost var rest := rules[k + 1..];
      assert rules[k..][1..] == rest;
      Assoc(p.tmpQueue, ByDst(fw, rules[k]), AllByDst(fw, rest));
      p.SetInterfaceAndDirectionByDst(fw, rules[k]);
      k := k + 1;
    }
    assert rules[k..] == [];
    out := p.tmpQueue;
  }

  method RunIfSet(rules: seq<Rule>) returns (out: seq<Rule>)
    ensures out == AllIfSet(rules)
  {
    var p := new Processor();
    var k := 0;
    while k < |rules|
      invariant k <= |rules| && p.tmpQueue + AllIfSet(rules[k..]) == AllIfSet(rules)
    {
      ghost var rest := rules[k + 1..];
      assert rules[k..][1..] == rest;
      Assoc(p.tmpQueue, IfSet(rules[k]), AllIfSet(rest));
      p.SetInterfaceAndDirectionIfInterfaceSet(rules[k]);
      k := k + 1;
    }
    assert rules[k..] == [];
    out := p.tmpQueue;
  }

  lemma {:induction false} InRestricted(fw: Firewall, rules: seq<Rule>, b: Body, i: nat, d: Direction)
    requires AllFresh(rules)
    ensures b in Restricted(fw, rules, i, d) <==> exists r :: r in rules && r.body == b && Belongs(fw, r, i, d)
  {
    if rules != [] {
      InRestricted(fw, rules[1..], b, i, d);
      BelongsIsApplies(fw, rules[0], i, d);
      assert rules == [rules[0]] + rules[1..];
    }
  }

  /** The three processors in a row.  Exactly the rules that belong on a list are on it.  Every rule that
      leaves has a concrete interface and direction, and each access list decides every packet as the
      policy restricted to its interface and direction. */
  method AssignInterfaces(fw: Firewall, rules: seq<Rule>) returns (out: seq<Rule>)
    requires AllFresh(rules) && Distinct(fw.ifaces)
    ensures forall k :: 0 <= k < |out| ==> Concrete(out[k])
    ensures forall i, d :: Acl(out, i, d) == Restricted(fw, rules, i, d)
    ensures forall i, d :: DecidesAs(fw, Acl(out, i, d), rules, i, d)
    ensures forall b, i, d :: OnList(out, b, i, d) <==> exists r :: r in rules && r.body == b && Belongs(fw, r, i, d)
  {
    var bySrc := RunBySrc(fw, rules);
    var byDst := RunByDst(fw, bySrc);
    out := RunIfSet(byDst);
    assert out == Assigned(fw, rules);
    AssignedIsConcrete(fw, rules);
    forall i, d
      ensures Acl(out, i, d) == Restricted(fw, rules, i, d) && DecidesAs(fw, Acl(out, i, d), rules, i, d)
    {
      AclIsRestricted(fw, rules, i, d);
      RestrictedDecides(fw, rules, i, d);
    }
    forall b, i, d
      ensures OnList(out, b, i, d) <==> exists r :: r in rules && r.body == b && Belongs(fw, r, i, d)
    {
      InAcl(out, b, i, d);
      InRestricted(fw, rules, b, i, d);
    }
  }
}
