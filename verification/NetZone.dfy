/** Finding the interface whose network zone includes an address. */
module NetZone {
  import opened Basics

  const ANY_ADDRESS_ID: nat := 0
  const LONG_MAX: nat := 0x7FFF_FFFF_FFFF_FFFF
  const INT_MAX: nat := 0x7FFF_FFFF

  /** A network: family, first address and the number of address bits below its mask. */
  datatype Net = Net(id: nat, v6: bool, first: nat, hostBits: nat)

  /** Groups keep references to their members; the references are objects themselves. */
  datatype Obj = Group(children: seq<Obj>) | Reference(target: Obj) | Network(net: Net) | Other

  datatype Interface = Interface(id: nat, failover: bool, unprotected: bool, zone: Option<Obj>, addresses: seq<Net>)

  function Pow2(n: nat): (p: nat)
    ensures p >= 1
  {
    if n == 0 then 1 else 2 * Pow2(n - 1)
  }

  lemma {:induction false} Pow2Grows(a: nat, b: nat)
    requires a < b
    ensures Pow2(a) < Pow2(b)
  {
    if a < b - 1 {
      Pow2Grows(a, b - 1);
    }
  }

  lemma {:induction false} Pow2Divides(a: nat, b: nat) returns (m: nat)
    requires a <= b
    ensures Pow2(b) == Pow2(a) * m
  {
    if a == b {
      m := 1;
    } else {
      var k := Pow2Divides(a, b - 1);
      m := 2 * k;
    }
  }

  /** The number of addresses, except that 32 and more host bits all count as `INT_MAX`. */
  function Dimension(hostBits: nat): nat {
    if hostBits >= 32 then INT_MAX else Pow2(hostBits)
  }

  /** Exactly when a network counts as narrower than another.  From 32 host bits on it is no longer a
      matter of size, and 31 of them count for more than 32. */
  lemma DimensionOrders(a: nat, b: nat)
    ensures Dimension(a) < Dimension(b) <==> (a < b < 32) || (a < 31 && b >= 32) || (a >= 32 && b == 31)
  {
    Pow2Of31();
    if a < b {
      Pow2Grows(a, b);
    }
    if b < a {
      Pow2Grows(b, a);
    }
    if a < 31 {
      Pow2Grows(a, 31);
      if a < 30 {
        Pow2Grows(a, 30);
      }
    }
    if b < 31 {
      Pow2Grows(b, 31);
      if b < 30 {
        Pow2Grows(b, 30);
      }
    }
  }

  // The size of an object.

  function Size(o: Obj): nat {
    match o
    case Group(children) => SizeOfAll(children)
    case Reference(_) => 0
    case Network(net) => if net.id == ANY_ADDRESS_ID then LONG_MAX else Dimension(net.hostBits)
    case Other => 0
  }

  /** References are not followed. */
  function SizeOfAll(os: seq<Obj>): nat {
    if os == [] then 0 else Size(os[0]) + SizeOfAll(os[1..])
  }

  lemma {:induction false} SizeOfAllAppend(a: seq<Obj>, b: seq<Obj>)
    ensures SizeOfAll(a + b) == SizeOfAll(a) + SizeOfAll(b)
  {
    if a == [] {
      assert a + b == b;
    } else {
      assert (a + b)[0] == a[0] && (a + b)[1..] == a[1..] + b;
      SizeOfAllAppend(a[1..], b);
    }
  }

  lemma SizeWithout(os: seq<Obj>, k: nat)
    requires k < |os|
    ensures SizeOfAll(os) == Size(os[k]) + SizeOfAll(os[..k] + os[k + 1..])
  {
    assert os == os[..k] + os[k..] && os[k..][0] == os[k] && os[k..][1..] == os[k + 1..];
    SizeOfAllAppend(os[..k], os[k..]);
    SizeOfAllAppend(os[..k], os[k + 1..]);
  }

  lemma TakenOut(os: seq<Obj>, k: nat)
    requires k < |os|
    ensures multiset(os[..k] + os[k + 1..]) == multiset(os) - multiset{os[k]}
  {
    assert os == os[..k] + [os[k]] + os[k + 1..];
  }

  /** The first member of a list, found in a permutation of it. */
  lemma FindFirst(a: seq<Obj>, b: seq<Obj>) returns (k: nat)
    requires a != [] && multiset(a) == multiset(b)
    ensures k < |b| && b[k] == a[0] && multiset(a[1..]) == multiset(b[..k] + b[k + 1..])
  {
    assert a[0] in multiset(b);
    k :| 0 <= k < |b| && b[k] == a[0];
    FirstTakenOut(a);
    TakenOut(b, k);
  }

  lemma FirstTakenOut(os: seq<Obj>)
    requires os != []
    ensures multiset(os[1..]) == multiset(os) - multiset{os[0]}
  {
    assert os == [os[0]] + os[1..];
  }

  /** The order of the members does not matter. */
  lemma {:induction false} SizeOfPermutation(a: seq<Obj>, b: seq<Obj>)
    requires multiset(a) == multiset(b)
    ensures SizeOfAll(a) == SizeOfAll(b)
    decreases |a|
  {
    if a == [] {
      assert |multiset(b)| == 0;
    } else {
      var k := FindFirst(a, b);
      SizeOfPermutation(a[1..], b[..k] + b[k + 1..]);
      SizeWithout(b, k);
    }
  }

  lemma Pow2Of31()
    ensures Pow2(31) == INT_MAX + 1
  {
    assert Pow2(8) == 256 && Pow2(16) == 65536 && Pow2(24) == 16777216;
  }

  lemma DimensionFits(hostBits: nat)
    ensures Dimension(hostBits) <= INT_MAX + 1 < LONG_MAX
  {
    if hostBits < 31 {
      Pow2Grows(hostBits, 31);
    }
    Pow2Of31();
  }

  lemma NoWrap(x: nat)
    requires x <= LONG_MAX
    ensures x % 0x1_0000_0000_0000_0000 == x
  {
  }

  /** The sum of the members, saturating: it never wraps, whatever their order. */
  method CalculateDimension(o: Obj) returns (n: nat)
    ensures n == Min(LONG_MAX, Size(o))
    ensures o.Network? && o.net.id != ANY_ADDRESS_ID ==>
              n == if o.net.hostBits < 32 then Pow2(o.net.hostBits) else INT_MAX
    ensures o.Network? && o.net.id == ANY_ADDRESS_ID ==> n == LONG_MAX
    ensures o.Reference? || o.Other? ==> n == 0
    decreases o
  {
    match o
    case Group(children) =>
      var res: nat, i: nat := 0, 0;
      while i < |children|
        invariant i <= |children| && res <= LONG_MAX
        invariant res + SizeOfAll(children[i..]) == SizeOfAll(children)
      {
        assert children[i..][0] == children[i] && children[i..][1..] == children[i + 1..];
        assert SizeOfAll(children[i..]) == Size(children[i]) + SizeOfAll(children[i + 1..]);
        n := CalculateDimension(children[i]);
        if n == LONG_MAX {
          return;
        }
        if LONG_MAX - res < n {
          n := LONG_MAX;
          return;
        }
        NoWrap(res + n);
        res := (res + n) % 0x1_0000_0000_0000_0000;
        i := i + 1;
      }
      assert children[i..] == [];
      n := res;
    case Network(net) =>
      DimensionFits(net.hostBits);
      n := if net.id == ANY_ADDRESS_ID then LONG_MAX else Dimension(net.hostBits);
    case _ =>
      n := 0;
  }

  // Zones.

  predicate Contains(a: Net, b: Net) {
    a.v6 == b.v6 && a.first <= b.first && b.first + Pow2(b.hostBits) <= a.first + Pow2(a.hostBits)
  }

  predicate HasAddress(n: Net, x: int) {
    n.first <= x < n.first + Pow2(n.hostBits)
  }

  /** Containing a network is having all of its addresses. */
  lemma ContainsExactly(a: Net, b: Net)
    ensures Contains(a, b) <==> a.v6 == b.v6 && forall x :: HasAddress(b, x) ==> HasAddress(a, x)
  {
    if forall x :: HasAddress(b, x) ==> HasAddress(a, x) {
      assert HasAddress(b, b.first) && HasAddress(b, b.first + Pow2(b.hostBits) - 1);
    }
  }

  /** The networks in a zone, references followed; other objects are passed over. */
  function Expand(o: Obj): seq<Net> {
    match o
    case Group(children) => ExpandAll(children)
    case Network(net) => [net]
    case _ => []
  }

  function ExpandAll(os: seq<Obj>): seq<Net> {
    if os == [] then []
    else
      var nets := match os[0] { case Reference(t) => Expand(t) case o => Expand(o) };
      nets + ExpandAll(os[1..])
  }

  /** What a group's child stands for. */
  function Followed(child: Obj): Obj {
    if child.Reference? then child.target else child
  }

  /** Going down through these children, each followed if it is a reference, leads to the network. */
  ghost predicate Leads(o: Obj, path: seq<nat>, n: Net)
    decreases |path|
  {
    if path == [] then o == Network(n)
    else o.Group? && path[0] < |o.children| && Leads(Followed(o.children[path[0]]), path[1..], n)
  }

  ghost predicate IsUnder(o: Obj, n: Net) {
    exists path :: Leads(o, path, n)
  }

  lemma LeadsFrom(o: Obj, k: nat, path: seq<nat>, n: Net)
    requires o.Group? && k < |o.children| && Leads(Followed(o.children[k]), path, n)
    ensures IsUnder(o, n)
  {
    var whole := [k] + path;
    assert whole[0] == k && whole[1..] == path;
    assert Leads(o, whole, n);
  }

  lemma LeadsInto(o: Obj, path: seq<nat>, n: Net)
    requires o.Group? && Leads(o, path, n)
    ensures path != [] && path[0] < |o.children| && IsUnder(Followed(o.children[path[0]]), n)
  {
    assert Leads(Followed(o.children[path[0]]), path[1..], n);
  }

  lemma {:induction false} InExpandAll(os: seq<Obj>, n: Net)
    ensures n in ExpandAll(os) <==> exists k :: 0 <= k < |os| && n in Expand(Followed(os[k]))
  {
    if os != [] {
      InExpandAll(os[1..], n);
      if k :| 0 <= k < |os| && n in Expand(Followed(os[k])) {
        assert k > 0 ==> os[1..][k - 1] == os[k];
      }
      if k :| 0 <= k < |os[1..]| && n in Expand(Followed(os[1..][k])) {
        assert os[k + 1] == os[1..][k];
      }
    }
  }

  /** A network is in the expansion exactly if some way down leads to it. */
  lemma {:induction false} ExpandExactly(o: Obj, n: Net)
    ensures n in Expand(o) <==> IsUnder(o, n)
    decreases o
  {
    if o.Network? && n in Expand(o) {
      assert Leads(o, [], n);
    }
    if o.Group? {
      InExpandAll(o.children, n);
      forall k: nat | k < |o.children|
        ensures n in Expand(Followed(o.children[k])) <==> IsUnder(Followed(o.children[k]), n)
      {
        assert o.children[k] < o;
        ExpandExactly(Followed(o.children[k]), n);
      }
      if k :| 0 <= k < |o.children| && IsUnder(Followed(o.children[k]), n) {
        var path :| Leads(Followed(o.children[k]), path, n);
        LeadsFrom(o, k, path, n);
      }
      if path :| Leads(o, path, n) {
        LeadsInto(o, path, n);
      }
    }
  }

  lemma {:induction false} ExpandAllAppend(a: seq<Obj>, b: seq<Obj>)
    ensures ExpandAll(a + b) == ExpandAll(a) + ExpandAll(b)
  {
    if a == [] {
      assert a + b == b;
    } else {
      assert (a + b)[0] == a[0] && (a + b)[1..] == a[1..] + b;
      ExpandAllAppend(a[1..], b);
    }
  }

  /** It makes no difference whether a member is in a group itself or through a reference. */
  lemma ReferenceIsMember(children: seq<Obj>, k: nat)
    requires k < |children| && !children[k].Reference?
    ensures Expand(Group(children[k := Reference(children[k])])) == Expand(Group(children)) ==
            Expand(Group(children[..k])) + Expand(children[k]) + Expand(Group(children[k + 1..]))
  {
    var a, b, c, d := children[..k], children[k], children[k + 1..], Reference(children[k]);
    assert children == a + ([b] + c) && children[k := d] == a + ([d] + c);
    ExpandAllAppend(a, [b] + c);
    ExpandAllAppend(a, [d] + c);
    assert ([b] + c)[1..] == c && ([d] + c)[1..] == c;
  }

  predicate Eligible(i: Interface) {
    !i.failover && !i.unprotected
  }

  function ZoneNets(i: Interface): seq<Net> {
    if Eligible(i) && i.zone.Some? then Expand(i.zone.value) else []
  }

  /** The last network that contains the subnet: later matches replace earlier ones. */
  function LastMatch(nets: seq<Net>, q: Net): (n: Option<Net>)
    ensures n.Some? <==> exists k :: 0 <= k < |nets| && Contains(nets[k], q)
    ensures n.Some? ==> n.value in nets && Contains(n.value, q)
  {
    if nets == [] then None
    else if Contains(nets[|nets| - 1], q) then Some(nets[|nets| - 1])
    else LastMatch(nets[..|nets| - 1], q)
  }

  function NetDimension(n: Net): nat {
    if n.id == ANY_ADDRESS_ID then LONG_MAX else Dimension(n.hostBits)
  }

  ghost predicate DistinctIds(ifaces: seq<Interface>) {
    forall i, j :: 0 <= i < j < |ifaces| ==> ifaces[i].id != ifaces[j].id
  }

  // The map from interfaces to the networks that matched, in the order of interface ids.

  datatype ZoneMatch = ZoneMatch(id: nat, net: Net)

  ghost predicate Ascending(zones: seq<ZoneMatch>) {
    forall i, j :: 0 <= i < j < |zones| ==> zones[i].id < zones[j].id
  }

  /** Sets the entry of an id. */
  function Put(zones: seq<ZoneMatch>, m: ZoneMatch): seq<ZoneMatch> {
    if zones == [] || m.id < zones[0].id then [m] + zones
    else if m.id == zones[0].id then [m] + zones[1..]
    else [zones[0]] + Put(zones[1..], m)
  }

  lemma {:induction false} PutMembers(zones: seq<ZoneMatch>, m: ZoneMatch, x: ZoneMatch)
    requires Ascending(zones)
    ensures x in Put(zones, m) <==> x == m || (x in zones && x.id != m.id)
  {
    if zones != [] {
      assert x in zones <==> x == zones[0] || x in zones[1..];
      if m.id > zones[0].id {
        PutMembers(zones[1..], m, x);
      }
    }
  }

  lemma {:induction false} PutAscends(zones: seq<ZoneMatch>, m: ZoneMatch)
    requires Ascending(zones)
    ensures Ascending(Put(zones, m))
  {
    if zones != [] && m.id > zones[0].id {
      PutAscends(zones[1..], m);
      var rest := Put(zones[1..], m);
      forall i | 0 <= i < |rest| ensures zones[0].id < rest[i].id {
        PutMembers(zones[1..], m, rest[i]);
      }
    }
  }

  lemma PutSpec(zones: seq<ZoneMatch>, m: ZoneMatch)
    requires Ascending(zones)
    ensures Ascending(Put(zones, m))
    ensures forall x :: x in Put(zones, m) <==> x == m || (x in zones && x.id != m.id)
  {
    PutAscends(zones, m);
    forall x ensures x in Put(zones, m) <==> x == m || (x in zones && x.id != m.id) {
      PutMembers(zones, m, x);
    }
  }

  lemma {:induction false} PutTwice(zones: seq<ZoneMatch>, id: nat, a: Net, b: Net)
    ensures Put(Put(zones, ZoneMatch(id, a)), ZoneMatch(id, b)) == Put(zones, ZoneMatch(id, b))
  {
    if zones == [] || id < zones[0].id {
      assert ([ZoneMatch(id, a)] + zones)[1..] == zones;
    } else if id > zones[0].id {
      PutTwice(zones[1..], id, a, b);
    }
  }

  function PutIf(zones: seq<ZoneMatch>, id: nat, n: Option<Net>): seq<ZoneMatch> {
    if n.None? then zones else Put(zones, ZoneMatch(id, n.value))
  }

  ghost predicate IsMatch(ifaces: seq<Interface>, q: Net, k: nat, m: ZoneMatch)
    requires k < |ifaces|
  {
    LastMatch(ZoneNets(ifaces[k]), q) == Some(m.net) && ifaces[k].id == m.id
  }

  ghost predicate HasMatch(ifaces: seq<Interface>, q: Net, k: nat)
    requires k < |ifaces|
  {
    LastMatch(ZoneNets(ifaces[k]), q).Some?
  }

  /** The map holds one entry for each of the first `n` interfaces whose zone has a match. */
  ghost predicate Collected(zones: seq<ZoneMatch>, ifaces: seq<Interface>, q: Net, n: nat)
    requires n <= |ifaces|
  {
    && Ascending(zones)
    && (forall m :: m in zones ==> exists k :: 0 <= k < n && IsMatch(ifaces, q, k, m))
    && (forall k :: 0 <= k < n && HasMatch(ifaces, q, k) ==>
          ZoneMatch(ifaces[k].id, LastMatch(ZoneNets(ifaces[k]), q).value) in zones)
  }

  lemma CollectOne(zones: seq<ZoneMatch>, ifaces: seq<Interface>, q: Net, n: nat)
    requires DistinctIds(ifaces) && n < |ifaces| && Collected(zones, ifaces, q, n)
    ensures Collected(PutIf(zones, ifaces[n].id, LastMatch(ZoneNets(ifaces[n]), q)), ifaces, q, n + 1)
  {
    var best := LastMatch(ZoneNets(ifaces[n]), q);
    var zones' := PutIf(zones, ifaces[n].id, best);
    if best.Some? {
      PutSpec(zones, ZoneMatch(ifaces[n].id, best.value));
    }
    forall m | m in zones' ensures exists k :: 0 <= k < n + 1 && IsMatch(ifaces, q, k, m) {
      if m in zones {
        var k :| 0 <= k < n && IsMatch(ifaces, q, k, m);
      } else {
        assert IsMatch(ifaces, q, n, m);
      }
    }
    forall k | 0 <= k < n + 1 && HasMatch(ifaces, q, k)
      ensures ZoneMatch(ifaces[k].id, LastMatch(ZoneNets(ifaces[k]), q).value) in zones'
    {
    }
  }

  /** The first eligible interface with an address whose network contains the subnet. */
  function ByAddress(ifaces: seq<Interface>, q: Net): Option<nat> {
    if ifaces == [] then None
    else if Eligible(ifaces[0]) && LastMatch(ifaces[0].addresses, q).Some? then Some(ifaces[0].id)
    else ByAddress(ifaces[1..], q)
  }

  /** The first eligible interface with "any" in its zone. */
  function ByAny(ifaces: seq<Interface>): Option<nat> {
    if ifaces == [] then None
    else if exists n :: n in ZoneNets(ifaces[0]) && n.id == ANY_ADDRESS_ID then Some(ifaces[0].id)
    else ByAny(ifaces[1..])
  }

  // The same in terms of the interfaces alone.

  /** The interface takes part, and the network is in its zone. */
  ghost predicate InZoneOf(i: Interface, n: Net) {
    !i.failover && !i.unprotected && i.zone.Some? && IsUnder(i.zone.value, n)
  }

  ghost predicate ZoneIncludes(i: Interface, q: Net) {
    exists n :: InZoneOf(i, n) && Contains(n, q)
  }

  ghost predicate ZoneHasAny(i: Interface) {
    exists n :: InZoneOf(i, n) && n.id == ANY_ADDRESS_ID
  }

  ghost predicate OwnIncludes(i: Interface, q: Net) {
    !i.failover && !i.unprotected && exists n :: n in i.addresses && Contains(n, q)
  }

  lemma ZoneNetsExactly(i: Interface, n: Net)
    ensures n in ZoneNets(i) <==> InZoneOf(i, n)
  {
    if i.zone.Some? {
      ExpandExactly(i.zone.value, n);
    }
  }

  lemma MatchExactly(ifaces: seq<Interface>, q: Net, k: nat)
    requires k < |ifaces|
    ensures HasMatch(ifaces, q, k) <==> ZoneIncludes(ifaces[k], q)
  {
    var nets := ZoneNets(ifaces[k]);
    forall n ensures n in nets <==> InZoneOf(ifaces[k], n) {
      ZoneNetsExactly(ifaces[k], n);
    }
    if j :| 0 <= j < |nets| && Contains(nets[j], q) {
      assert nets[j] in nets;
    }
    if n :| InZoneOf(ifaces[k], n) && Contains(n, q) {
      assert n in nets;
    }
  }

  /** The first interface for which the question is answered with yes. */
  ghost predicate IsFirst(r: Option<nat>, ifaces: seq<Interface>, yes: Interface -> bool) {
    if r.None? then forall i :: i in ifaces ==> !yes(i)
    else exists k :: 0 <= k < |ifaces| && yes(ifaces[k]) && ifaces[k].id == r.value &&
                     forall j :: 0 <= j < k ==> !yes(ifaces[j])
  }

  lemma FirstOrLater(ifaces: seq<Interface>, r: Option<nat>, yes: Interface -> bool)
    requires ifaces != [] && IsFirst(r, ifaces[1..], yes)
    ensures IsFirst(if yes(ifaces[0]) then Some(ifaces[0].id) else r, ifaces, yes)
  {
    if !yes(ifaces[0]) && r.Some? {
      var k :| 0 <= k < |ifaces[1..]| && yes(ifaces[1..][k]) && ifaces[1..][k].id == r.value &&
               forall j :: 0 <= j < k ==> !yes(ifaces[1..][j]);
      assert ifaces[k + 1] == ifaces[1..][k];
      assert forall j :: 0 < j < k + 1 ==> ifaces[j] == ifaces[1..][j - 1];
    }
    if !yes(ifaces[0]) && r.None? {
      assert ifaces == [ifaces[0]] + ifaces[1..];
    }
  }

  ghost function HasAnyZone(): Interface -> bool {
    i => ZoneHasAny(i)
  }

  ghost function HasOwn(q: Net): Interface -> bool {
    i => OwnIncludes(i, q)
  }

  lemma {:induction false} ByAnyExactly(ifaces: seq<Interface>)
    ensures IsFirst(ByAny(ifaces), ifaces, HasAnyZone())
  {
    if ifaces != [] {
      ByAnyExactly(ifaces[1..]);
      forall n ensures n in ZoneNets(ifaces[0]) <==> InZoneOf(ifaces[0], n) {
        ZoneNetsExactly(ifaces[0], n);
      }
      FirstOrLater(ifaces, ByAny(ifaces[1..]), HasAnyZone());
    }
  }

  lemma {:induction false} ByAddressExactly(ifaces: seq<Interface>, q: Net)
    ensures IsFirst(ByAddress(ifaces, q), ifaces, HasOwn(q))
  {
    if ifaces != [] {
      ByAddressExactly(ifaces[1..], q);
      var nets := ifaces[0].addresses;
      assert forall j :: 0 <= j < |nets| ==> nets[j] in nets;
      FirstOrLater(ifaces, ByAddress(ifaces[1..], q), HasOwn(q));
    }
  }

  method ExpandGroupRecursive(o: Obj, ol: seq<Net>) returns (ol': seq<Net>)
    ensures ol' == ol + Expand(o)
    ensures forall n :: n in ol' <==> n in ol || IsUnder(o, n)
    decreases o
  {
    forall n ensures n in Expand(o) <==> IsUnder(o, n) { ExpandExactly(o, n); }
    ol' := ol;
    match o
    case Group(children) =>
      var i := 0;
      while i < |children|
        invariant i <= |children| && ol' + ExpandAll(children[i..]) == ol + Expand(o)
      {
        ghost var before, rest := ol', ExpandAll(children[i + 1..]);
        assert children[i..][0] == children[i] && children[i..][1..] == children[i + 1..];
        match children[i] {
          case Reference(t) =>
            Assoc(before, Expand(t), rest);
            ol' := ExpandGroupRecursive(t, ol');
          case _ =>
            Assoc(before, Expand(children[i]), rest);
            ol' := ExpandGroupRecursive(children[i], ol');
        }
        i := i + 1;
      }
      assert children[i..] == [];
    case Network(net) => ol' := ol' + [net];
    case _ =>
  }

  method MatchZone(zones: seq<ZoneMatch>, id: nat, nets: seq<Net>, q: Net) returns (zones': seq<ZoneMatch>)
    ensures zones' == PutIf(zones, id, LastMatch(nets, q))
  {
    zones' := zones;
    var j := 0;
    while j < |nets|
      invariant j <= |nets| && zones' == PutIf(zones, id, LastMatch(nets[..j], q))
    {
      assert nets[..j + 1][..j] == nets[..j];
      if nets[j].v6 == q.v6 && Contains(nets[j], q) {
        if LastMatch(nets[..j], q).Some? {
          PutTwice(zones, id, LastMatch(nets[..j], q).value, nets[j]);
        }
        zones' := Put(zones', ZoneMatch(id, nets[j]));
      }
      j := j + 1;
    }
    assert nets[..j] == nets;
  }

  method CollectZones(ifaces: seq<Interface>, q: Net) returns (zones: seq<ZoneMatch>)
    requires DistinctIds(ifaces)
    ensures Collected(zones, ifaces, q, |ifaces|)
  {
    zones := [];
    var i := 0;
    while i < |ifaces|
      invariant i <= |ifaces| && Collected(zones, ifaces, q, i)
    {
      CollectOne(zones, ifaces, q, i);
      if Eligible(ifaces[i]) && ifaces[i].zone.Some? {
        var nets := ExpandGroupRecursive(ifaces[i].zone.value, []);
        assert nets == ZoneNets(ifaces[i]);
        zones := MatchZone(zones, ifaces[i].id, nets, q);
      }
      i := i + 1;
    }
  }

  ghost predicate Least(zones: seq<ZoneMatch>, n: nat, k: nat)
    requires k < n <= |zones|
  {
    && (forall j :: 0 <= j < n ==> NetDimension(zones[k].net) <= NetDimension(zones[j].net))
    && (forall j :: k < j < n ==> NetDimension(zones[k].net) < NetDimension(zones[j].net))
  }

  /** The entry of least dimension, and among equals the last. */
  method PickNarrowest(zones: seq<ZoneMatch>) returns (r: Option<nat>, ghost k: nat)
    ensures r.None? <==> zones == []
    ensures r.Some? ==> k < |zones| && r.value == zones[k].id && Least(zones, |zones|, k)
  {
    r, k := None, 0;
    var resDim, i := LONG_MAX, 0;
    while i < |zones|
      invariant i <= |zones| && (r.None? <==> i == 0)
      invariant r.None? ==> resDim == LONG_MAX
      invariant r.Some? ==> k < i && r.value == zones[k].id && Least(zones, i, k)
      invariant r.Some? ==> resDim == NetDimension(zones[k].net)
    {
      DimensionFits(zones[i].net.hostBits);
      var dim := CalculateDimension(Network(zones[i].net));
      if dim <= resDim {
        r, k := Some(zones[i].id), i;
        resDim := dim;
      }
      i := i + 1;
    }
  }

  method FindInterfaceByAddress(ifaces: seq<Interface>, addr: Option<Net>) returns (r: Option<nat>)
    ensures r == if addr.None? then None else ByAddress(ifaces, addr.value)
    ensures addr.Some? ==> IsFirst(r, ifaces, HasOwn(addr.value))
  {
    if addr.Some? {
      ByAddressExactly(ifaces, addr.value);
    }
    if addr.None? {
      return None;
    }
    var i := 0;
    while i < |ifaces|
      invariant i <= |ifaces| && ByAddress(ifaces, addr.value) == ByAddress(ifaces[i..], addr.value)
    {
      assert ifaces[i..][0] == ifaces[i] && ifaces[i..][1..] == ifaces[i + 1..];
      if Eligible(ifaces[i]) {
        var nets, j := ifaces[i].addresses, 0;
        while j < |nets|
          invariant j <= |nets| && LastMatch(nets[..j], addr.value).None?
        {
          assert nets[..j + 1][..j] == nets[..j];
          if Contains(nets[j], addr.value) {
            assert nets[j] in nets;
            return Some(ifaces[i].id);
          }
          j := j + 1;
        }
        assert nets[..j] == nets;
      }
      i := i + 1;
    }
    r := None;
  }

  method FindAny(ifaces: seq<Interface>) returns (r: Option<nat>)
    ensures r == ByAny(ifaces) && IsFirst(r, ifaces, HasAnyZone())
  {
    ByAnyExactly(ifaces);
    var i := 0;
    while i < |ifaces|
      invariant i <= |ifaces| && ByAny(ifaces) == ByAny(ifaces[i..])
    {
      assert ifaces[i..][0] == ifaces[i] && ifaces[i..][1..] == ifaces[i + 1..];
      if Eligible(ifaces[i]) && ifaces[i].zone.Some? {
        var nets := ExpandGroupRecursive(ifaces[i].zone.value, []);
        assert nets == ZoneNets(ifaces[i]);
        var j := 0;
        while j < |nets|
          invariant j <= |nets| && forall k :: 0 <= k < j ==> nets[k].id != ANY_ADDRESS_ID
        {
          if nets[j].id == ANY_ADDRESS_ID {
            assert nets[j] in nets;
            return Some(ifaces[i].id);
          }
          j := j + 1;
        }
      }
      i := i + 1;
    }
    r := None;
  }

  ghost predicate AnyMatch(ifaces: seq<Interface>, q: Net) {
    exists k :: 0 <= k < |ifaces| && HasMatch(ifaces, q, k)
  }

  /** Interface `k` is chosen: its match has the least dimension, and among equals its id is largest. */
  ghost predicate Chosen(ifaces: seq<Interface>, q: Net, k: nat) {
    && k < |ifaces| && HasMatch(ifaces, q, k)
    && forall j :: 0 <= j < |ifaces| && HasMatch(ifaces, q, j) ==> NotBetter(ifaces, q, j, k)
  }

  ghost predicate NotBetter(ifaces: seq<Interface>, q: Net, j: nat, k: nat)
    requires j < |ifaces| && k < |ifaces| && HasMatch(ifaces, q, j) && HasMatch(ifaces, q, k)
  {
    var dj := NetDimension(LastMatch(ZoneNets(ifaces[j]), q).value);
    var dk := NetDimension(LastMatch(ZoneNets(ifaces[k]), q).value);
    dk < dj || (dk == dj && ifaces[j].id <= ifaces[k].id)
  }

  lemma LeastIsNotBeaten(zones: seq<ZoneMatch>, ifaces: seq<Interface>, q: Net, z: nat, j: nat, k: nat)
    requires Collected(zones, ifaces, q, |ifaces|) && z < |zones| && Least(zones, |zones|, z)
    requires k < |ifaces| && IsMatch(ifaces, q, k, zones[z])
    requires j < |ifaces| && HasMatch(ifaces, q, j)
    ensures NotBetter(ifaces, q, j, k)
  {
    var m := ZoneMatch(ifaces[j].id, LastMatch(ZoneNets(ifaces[j]), q).value);
    assert m in zones;
    var y :| 0 <= y < |zones| && zones[y] == m;
  }

  lemma LeastIsChosen(zones: seq<ZoneMatch>, ifaces: seq<Interface>, q: Net, z: nat) returns (k: nat)
    requires DistinctIds(ifaces) && Collected(zones, ifaces, q, |ifaces|)
    requires z < |zones| && Least(zones, |zones|, z)
    ensures Chosen(ifaces, q, k) && ifaces[k].id == zones[z].id
  {
    var best := zones[z];
    assert best in zones;
    k :| 0 <= k < |ifaces| && IsMatch(ifaces, q, k, best);
    forall j | 0 <= j < |ifaces| && HasMatch(ifaces, q, j) ensures NotBetter(ifaces, q, j, k) {
      LeastIsNotBeaten(zones, ifaces, q, z, j, k);
    }
  }

  lemma MatchesExactly(ifaces: seq<Interface>, q: Net)
    ensures forall k :: 0 <= k < |ifaces| ==> (HasMatch(ifaces, q, k) <==> ZoneIncludes(ifaces[k], q))
    ensures AnyMatch(ifaces, q) <==> exists i :: i in ifaces && ZoneIncludes(i, q)
  {
    forall k: nat | k < |ifaces| ensures HasMatch(ifaces, q, k) <==> ZoneIncludes(ifaces[k], q) {
      MatchExactly(ifaces, q, k);
    }
    if i :| i in ifaces && ZoneIncludes(i, q) {
      var k :| 0 <= k < |ifaces| && ifaces[k] == i;
      assert HasMatch(ifaces, q, k);
    }
  }

  /** Interfaces that differ only in how their zones are written get the same answer. */
  lemma SameZonesSameAnswer(a: seq<Interface>, b: seq<Interface>, q: Net, k: nat)
    requires |a| == |b|
    requires forall j :: 0 <= j < |a| ==> b[j] == a[j].(zone := b[j].zone) && ZoneNets(a[j]) == ZoneNets(b[j])
    ensures Chosen(a, q, k) <==> Chosen(b, q, k)
    ensures ByAny(a) == ByAny(b) && ByAddress(a, q) == ByAddress(b, q)
    decreases |a|
  {
    forall j: nat, l: nat | j < |a| && l < |a| && HasMatch(a, q, j) && HasMatch(a, q, l)
      ensures NotBetter(a, q, j, l) <==> NotBetter(b, q, j, l)
    {
    }
    if a != [] {
      assert forall j :: 0 <= j < |a[1..]| ==> a[1..][j] == a[j + 1] && b[1..][j] == b[j + 1];
      SameZonesSameAnswer(a[1..], b[1..], q, 0);
    }
  }

  /** The whole search: the narrowest match among the zones; without one, the interface whose own
      network contains the subnet; for no address at all, the zone with "any".  None is the error. */
  method FindInterfaceByNetzone(ifaces: seq<Interface>, addr: Option<Net>) returns (r: Option<nat>)
    requires DistinctIds(ifaces)
    ensures addr.None? ==> r == ByAny(ifaces)
    ensures addr.Some? && AnyMatch(ifaces, addr.value) ==>
              exists k: nat :: Chosen(ifaces, addr.value, k) && r == Some(ifaces[k].id) &&
                               ExactlyNarrowest(ifaces, addr.value, k)
    ensures addr.Some? && !AnyMatch(ifaces, addr.value) ==> r == ByAddress(ifaces, addr.value)
    ensures addr.None? ==> IsFirst(r, ifaces, HasAnyZone())
    ensures addr.Some? && (forall i :: i in ifaces ==> !ZoneIncludes(i, addr.value)) ==>
              IsFirst(r, ifaces, HasOwn(addr.value))
    ensures addr.Some? && (exists i :: i in ifaces && ZoneIncludes(i, addr.value)) ==>
              r.Some? && exists i :: i in ifaces && i.id == r.value && ZoneIncludes(i, addr.value)
  {
    if addr.None? {
      r := FindAny(ifaces);
      if r.None? {
        r := FindInterfaceByAddress(ifaces, addr);
      }
      return;
    }
    var q := addr.value;
    MatchesExactly(ifaces, q);
    var zones := CollectZones(ifaces, q);
    ghost var z: nat;
    r, z := PickNarrowest(zones);
    if r.None? {
      assert !AnyMatch(ifaces, q);
      r := FindInterfaceByAddress(ifaces, addr);
    } else {
      ghost var k := LeastIsChosen(zones, ifaces, q, z);
      ChosenExactly(ifaces, q, k);
    }
  }

  // When the choice is the narrowest zone.

  ghost predicate Aligned(n: Net) {
    n.first % Pow2(n.hostBits) == 0
  }

  /** No network of a zone lies in another one. */
  ghost predicate Unnested(nets: seq<Net>) {
    && (forall n :: n in nets ==> Aligned(n))
    && (forall i, j :: 0 <= i < |nets| && 0 <= j < |nets| && i != j ==> !Contains(nets[i], nets[j]))
  }

  lemma Multiples(u: nat, j: nat, k: nat)
    requires u >= 1 && u * j < u * k
    ensures j < k
  {
  }

  /** Of two aligned blocks around a point, one `m` times as large as the other, the large one contains
      the small one. */
  lemma BlocksNest(u: nat, i: nat, j: nat, m: nat, p: nat)
    requires u >= 1 && u * i <= p < u * i + u && u * j <= p < u * j + u * m
    ensures u * j <= u * i && u * i + u <= u * j + u * m
  {
    assert u * i + u == u * (i + 1) && u * j + u * m == u * (j + m);
    Multiples(u, j, i + 1);
    Multiples(u, i, j + m);
    Scale(u, j, i);
    Scale(u, i + 1, j + m);
  }

  lemma Scale(u: nat, a: nat, b: nat)
    requires a <= b
    ensures u * a <= u * b
  {
  }

  /** Networks that share a subnet are nested. */
  lemma SharingIsNested(a: Net, b: Net, q: Net)
    requires Aligned(a) && Aligned(b) && Contains(a, q) && Contains(b, q) && a.hostBits <= b.hostBits
    ensures Contains(b, a)
  {
    var u, v := Pow2(a.hostBits), Pow2(b.hostBits);
    var m := Pow2Divides(a.hostBits, b.hostBits);
    var i := Quotient(a.first, u);
    var k := Quotient(b.first, v);
    Regroup(u, m, k);
    BlocksNest(u, i, m * k, m, q.first);
  }

  lemma Quotient(x: nat, u: nat) returns (i: nat)
    requires u >= 1 && x % u == 0
    ensures x == u * i
  {
    i := x / u;
  }

  lemma Regroup(u: nat, m: nat, k: nat)
    ensures (u * m) * k == u * (m * k)
  {
  }

  lemma OnlyMatch(nets: seq<Net>, q: Net, n: Net)
    requires Unnested(nets) && n in nets && Contains(n, q)
    ensures LastMatch(nets, q) == Some(n)
  {
    var i :| 0 <= i < |nets| && nets[i] == n;
    var m := LastMatch(nets, q).value;
    var j :| 0 <= j < |nets| && nets[j] == m;
    if i != j {
      if n.hostBits <= m.hostBits {
        SharingIsNested(n, m, q);
      } else {
        SharingIsNested(m, n, q);
      }
    }
  }

  /** With unnested zones, no network of any zone that contains the subnet has a smaller dimension than
      the chosen one's. */
  lemma ChosenIsLeast(ifaces: seq<Interface>, q: Net, k: nat, j: nat, n: Net)
    requires Chosen(ifaces, q, k) && j < |ifaces| && n in ZoneNets(ifaces[j]) && Contains(n, q)
    requires Unnested(ZoneNets(ifaces[j]))
    ensures NetDimension(LastMatch(ZoneNets(ifaces[k]), q).value) <= NetDimension(n)
  {
    OnlyMatch(ZoneNets(ifaces[j]), q, n);
    assert HasMatch(ifaces, q, j) && NotBetter(ifaces, q, j, k);
  }

  // Exactly when the choice is the narrowest match.

  predicate IsAny(n: Net) {
    n.id == ANY_ADDRESS_ID
  }

  /** "Any" is wider than every network. */
  predicate NoWider(a: Net, b: Net) {
    IsAny(b) || (!IsAny(a) && a.hostBits <= b.hostBits)
  }

  /** Networks whose dimension is their size and below that of all others. */
  predicate Small(n: Net) {
    !IsAny(n) && n.hostBits < 31
  }

  /** Networks that all count as equally large. */
  predicate Wide(n: Net) {
    !IsAny(n) && n.hostBits >= 32
  }

  ghost function MatchOf(ifaces: seq<Interface>, q: Net, k: nat): Net
    requires k < |ifaces| && HasMatch(ifaces, q, k)
  {
    LastMatch(ZoneNets(ifaces[k]), q).value
  }

  /** No interface has a narrower match. */
  ghost predicate NarrowestMatch(ifaces: seq<Interface>, q: Net, k: nat) {
    && k < |ifaces| && HasMatch(ifaces, q, k)
    && forall j :: 0 <= j < |ifaces| && HasMatch(ifaces, q, j) ==> NoWider(MatchOf(ifaces, q, k), MatchOf(ifaces, q, j))
  }

  /** The wide match whose interface has the largest id. */
  ghost predicate LastWide(ifaces: seq<Interface>, q: Net, w: nat) {
    && w < |ifaces| && HasMatch(ifaces, q, w) && Wide(MatchOf(ifaces, q, w))
    && forall j :: 0 <= j < |ifaces| && HasMatch(ifaces, q, j) && Wide(MatchOf(ifaces, q, j)) ==>
                     ifaces[j].id <= ifaces[w].id
  }

  /** Some match is small, or none is wide, or the wide one with the largest id happens to be the
      narrowest match. */
  ghost predicate SizesDecide(ifaces: seq<Interface>, q: Net) {
    || (exists j :: 0 <= j < |ifaces| && HasMatch(ifaces, q, j) && Small(MatchOf(ifaces, q, j)))
    || (forall j :: 0 <= j < |ifaces| && HasMatch(ifaces, q, j) ==> !Wide(MatchOf(ifaces, q, j)))
    || (exists w: nat :: LastWide(ifaces, q, w) && NarrowestMatch(ifaces, q, w))
  }

  /** How dimensions compare: small networks by size, then the wide ones, then those of 31 host bits,
      then "any". */
  lemma NetOrder(a: Net, b: Net)
    ensures NetDimension(a) < NetDimension(b) <==>
            || (!IsAny(a) && IsAny(b))
            || (Small(a) && !IsAny(b) && a.hostBits < b.hostBits)
            || (Wide(a) && !IsAny(b) && b.hostBits == 31)
  {
    DimensionFits(a.hostBits);
    DimensionFits(b.hostBits);
    DimensionOrders(a.hostBits, b.hostBits);
  }

  lemma ChosenAgainst(ifaces: seq<Interface>, q: Net, k: nat, j: nat)
    requires Chosen(ifaces, q, k) && j < |ifaces| && HasMatch(ifaces, q, j)
    ensures Small(MatchOf(ifaces, q, j)) ==> Small(MatchOf(ifaces, q, k))
    ensures Small(MatchOf(ifaces, q, k)) ==> NoWider(MatchOf(ifaces, q, k), MatchOf(ifaces, q, j))
    ensures Wide(MatchOf(ifaces, q, j)) ==> Small(MatchOf(ifaces, q, k)) ||
                                            (Wide(MatchOf(ifaces, q, k)) && ifaces[j].id <= ifaces[k].id)
    ensures IsAny(MatchOf(ifaces, q, k)) ==> IsAny(MatchOf(ifaces, q, j))
  {
    var mj, mk := MatchOf(ifaces, q, j), MatchOf(ifaces, q, k);
    assert NotBetter(ifaces, q, j, k);
    NetOrder(mj, mk);
    NetOrder(mk, mj);
  }

  /** The chosen match is the narrowest one if and only if sizes decide. */
  lemma ChosenIsNarrowest(ifaces: seq<Interface>, q: Net, k: nat)
    requires DistinctIds(ifaces) && Chosen(ifaces, q, k)
    ensures NarrowestMatch(ifaces, q, k) <==> SizesDecide(ifaces, q)
  {
    var mk := MatchOf(ifaces, q, k);
    forall j | 0 <= j < |ifaces| && HasMatch(ifaces, q, j)
      ensures Small(MatchOf(ifaces, q, j)) ==> Small(mk)
      ensures Small(mk) ==> NoWider(mk, MatchOf(ifaces, q, j))
      ensures Wide(MatchOf(ifaces, q, j)) ==> Small(mk) || (Wide(mk) && ifaces[j].id <= ifaces[k].id)
      ensures IsAny(mk) ==> IsAny(MatchOf(ifaces, q, j))
    {
      ChosenAgainst(ifaces, q, k, j);
    }
    if Wide(mk) {
      assert LastWide(ifaces, q, k);
      assert forall w: nat :: LastWide(ifaces, q, w) ==> w == k;
    }
  }

  // Zones that list networks in an order that makes the last match the narrowest.

  function AddressBits(v6: bool): nat {
    if v6 then 128 else 32
  }

  /** A network of its address family; "any" is all of it. */
  ghost predicate Real(n: Net) {
    && Aligned(n) && n.hostBits <= AddressBits(n.v6)
    && n.first + Pow2(n.hostBits) <= Pow2(AddressBits(n.v6))
    && (IsAny(n) ==> n.hostBits == AddressBits(n.v6))
  }

  ghost predicate AllReal(nets: seq<Net>) {
    forall n {:trigger Real(n)} :: n in nets ==> Real(n)
  }

  /** The last listed network that contains a listed one is no wider than it. */
  ghost predicate InOrder(nets: seq<Net>) {
    forall n :: n in nets ==> LastMatch(nets, n).Some? && NoWider(LastMatch(nets, n).value, n)
  }

  ghost predicate LastIsNarrowest(nets: seq<Net>, q: Net) {
    forall n :: n in nets && Contains(n, q) ==>
                  LastMatch(nets, q).Some? && NoWider(LastMatch(nets, q).value, n)
  }

  lemma {:induction false} LastMatchIsLast(nets: seq<Net>, q: Net) returns (k: nat)
    requires LastMatch(nets, q).Some?
    ensures k < |nets| && nets[k] == LastMatch(nets, q).value
    ensures forall j :: k < j < |nets| ==> !Contains(nets[j], q)
  {
    var last := |nets| - 1;
    if Contains(nets[last], q) {
      k := last;
    } else {
      k := LastMatchIsLast(nets[..last], q);
    }
  }

  /** "Any" contains every network of its family, and a wider network contains the narrower one it
      shares a subnet with. */
  lemma WiderContains(a: Net, b: Net, q: Net)
    requires Real(a) && Real(b) && Contains(a, q) && Contains(b, q) && !NoWider(a, b)
    ensures Contains(a, b)
  {
    if IsAny(a) {
      assert b.hostBits <= a.hostBits;
    }
    SharingIsNested(b, a, q);
  }

  lemma ContainsTransitive(a: Net, b: Net, c: Net)
    requires Contains(a, b) && Contains(b, c)
    ensures Contains(a, c)
  {
  }

  /** If the last match of `q` contains `n`, and `n` contains `q`, it is the last match of `n` as well. */
  lemma SameLastMatch(nets: seq<Net>, q: Net, n: Net)
    requires LastMatch(nets, q).Some? && Contains(n, q) && Contains(LastMatch(nets, q).value, n)
    ensures LastMatch(nets, n) == LastMatch(nets, q)
  {
    var j := LastMatchIsLast(nets, q);
    assert LastMatch(nets, n).Some?;
    var i := LastMatchIsLast(nets, n);
    ContainsTransitive(nets[i], n, q);
  }

  lemma ListedMatches(nets: seq<Net>, q: Net, n: Net)
    requires n in nets && Contains(n, q)
    ensures LastMatch(nets, q).Some?
  {
    var at :| 0 <= at < |nets| && nets[at] == n;
  }

  lemma WiderMatchContains(nets: seq<Net>, q: Net, n: Net)
    requires AllReal(nets) && n in nets && Contains(n, q) && LastMatch(nets, q).Some?
    requires !NoWider(LastMatch(nets, q).value, n)
    ensures Contains(LastMatch(nets, q).value, n)
  {
    assert Real(n) && Real(LastMatch(nets, q).value);
    WiderContains(LastMatch(nets, q).value, n, q);
  }

  lemma InOrderIsNarrowest(nets: seq<Net>, q: Net, n: Net)
    requires AllReal(nets) && InOrder(nets) && n in nets && Contains(n, q)
    ensures LastMatch(nets, q).Some? && NoWider(LastMatch(nets, q).value, n)
  {
    ListedMatches(nets, q, n);
    if !NoWider(LastMatch(nets, q).value, n) {
      WiderMatchContains(nets, q, n);
      SameLastMatch(nets, q, n);
    }
  }

  /** The last match is the narrowest for every subnet if and only if the networks are in that order. */
  lemma InOrderExactly(nets: seq<Net>)
    requires AllReal(nets)
    ensures InOrder(nets) <==> forall q :: LastIsNarrowest(nets, q)
  {
    if InOrder(nets) {
      forall q, n | n in nets && Contains(n, q)
        ensures LastMatch(nets, q).Some? && NoWider(LastMatch(nets, q).value, n)
      {
        InOrderIsNarrowest(nets, q, n);
      }
    }
    if forall q :: LastIsNarrowest(nets, q) {
      forall n | n in nets ensures LastMatch(nets, n).Some? && NoWider(LastMatch(nets, n).value, n) {
        assert Contains(n, n) && LastIsNarrowest(nets, n);
      }
    }
  }

  /** A zone that lists a network before a wider one around it gives the wider one; the other way round
      it does not. */
  lemma NestedListFails(narrow: Net, wide: Net)
    requires Real(narrow) && Real(wide) && Contains(wide, narrow) && narrow.hostBits < wide.hostBits && !IsAny(narrow)
    ensures LastMatch([narrow, wide], narrow) == Some(wide) && !InOrder([narrow, wide])
    ensures LastMatch([wide, narrow], narrow) == Some(narrow) && InOrder([wide, narrow])
  {
    Pow2Grows(narrow.hostBits, wide.hostBits);
    var s := [wide, narrow];
    assert narrow in [narrow, wide] && s[..1] == [wide];
    assert LastMatch(s, wide) == LastMatch([wide], wide) == Some(wide);
  }

  lemma UnnestedIsInOrder(nets: seq<Net>)
    requires Unnested(nets)
    ensures InOrder(nets)
  {
    forall n | n in nets ensures LastMatch(nets, n).Some? && NoWider(LastMatch(nets, n).value, n) {
      OnlyMatch(nets, n, n);
    }
  }

  ghost predicate ZonesInOrder(ifaces: seq<Interface>) {
    forall i :: 0 <= i < |ifaces| ==> AllReal(ZoneNets(ifaces[i])) && InOrder(ZoneNets(ifaces[i]))
  }

  /** No network of any zone that contains the subnet is narrower. */
  ghost predicate NarrowestOfAll(ifaces: seq<Interface>, q: Net, k: nat) {
    && k < |ifaces| && HasMatch(ifaces, q, k)
    && forall j, n :: 0 <= j < |ifaces| && n in ZoneNets(ifaces[j]) && Contains(n, q) ==>
                        NoWider(MatchOf(ifaces, q, k), n)
  }

  /** With zones in order, the narrowest match is the narrowest network of all zones. */
  lemma NarrowestAmongAll(ifaces: seq<Interface>, q: Net, k: nat)
    requires ZonesInOrder(ifaces) && k < |ifaces| && HasMatch(ifaces, q, k)
    ensures NarrowestOfAll(ifaces, q, k) <==> NarrowestMatch(ifaces, q, k)
  {
    if NarrowestMatch(ifaces, q, k) {
      forall j, n | 0 <= j < |ifaces| && n in ZoneNets(ifaces[j]) && Contains(n, q)
        ensures NoWider(MatchOf(ifaces, q, k), n)
      {
        InOrderIsNarrowest(ZoneNets(ifaces[j]), q, n);
        assert HasMatch(ifaces, q, j);
      }
    }
    if NarrowestOfAll(ifaces, q, k) {
      forall j | 0 <= j < |ifaces| && HasMatch(ifaces, q, j)
        ensures NoWider(MatchOf(ifaces, q, k), MatchOf(ifaces, q, j))
      {
        assert MatchOf(ifaces, q, j) in ZoneNets(ifaces[j]);
      }
    }
  }

  /** The interface has the narrowest match, and with zones in order the narrowest network of all zones,
      if and only if sizes decide. */
  ghost predicate ExactlyNarrowest(ifaces: seq<Interface>, q: Net, k: nat) {
    && (NarrowestMatch(ifaces, q, k) <==> SizesDecide(ifaces, q))
    && (ZonesInOrder(ifaces) ==> (NarrowestOfAll(ifaces, q, k) <==> SizesDecide(ifaces, q)))
  }

  lemma ChosenExactly(ifaces: seq<Interface>, q: Net, k: nat)
    requires DistinctIds(ifaces) && Chosen(ifaces, q, k)
    ensures ExactlyNarrowest(ifaces, q, k)
  {
    ChosenIsNarrowest(ifaces, q, k);
    if ZonesInOrder(ifaces) {
      NarrowestAmongAll(ifaces, q, k);
    }
  }

  /** Of two nested zones with 31 host bits or more, the wider one is taken if its interface has the
      larger id, so also the whole of IPv4 instead of a half. */
  lemma WideZoneChosen(narrow: Net, wide: Net, q: Net) returns (ifaces: seq<Interface>)
    requires Aligned(narrow) && Aligned(wide) && 31 <= narrow.hostBits < wide.hostBits
    requires !IsAny(narrow) && !IsAny(wide) && Contains(narrow, q) && Contains(wide, narrow)
    ensures |ifaces| == 2 && DistinctIds(ifaces) && Chosen(ifaces, q, 1) && !NarrowestMatch(ifaces, q, 1)
    ensures ZoneNets(ifaces[0]) == [narrow] && ZoneNets(ifaces[1]) == [wide]
  {
    ifaces := [Interface(1, false, false, Some(Network(narrow)), []),
               Interface(2, false, false, Some(Network(wide)), [])];
    assert [narrow][..0] == [] && [wide][..0] == [];
    assert LastMatch([narrow], q) == Some(narrow) && LastMatch([wide], q) == Some(wide);
    NetOrder(narrow, wide);
    forall x | 0 <= x < |ifaces| && HasMatch(ifaces, q, x) ensures NotBetter(ifaces, q, x, 1) {}
    assert HasMatch(ifaces, q, 0) && MatchOf(ifaces, q, 0) == narrow && MatchOf(ifaces, q, 1) == wide;
  }
}
