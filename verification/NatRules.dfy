/** Source-NAT rules as the PIX compiler sees them once they are atomic, and the two relations
    between rules that the command merger works with. */
module NatRules {
  import opened Basics

  datatype Shape = InterfaceShape | NetworkShape | RangeShape | HostShape

  /** An object used in "Translated Source".  Two rules can share the object itself (the same `id`)
      or only its address; dynamic interfaces have no address at all. */
  datatype AddressObject = AddressObject(id: int, shape: Shape, inet: Option<int>, netmask: int, rangeEnd: int)

  datatype Iface = Iface(id: int, dynamic: bool, netmask: int)

  const ANY: int := 0

  /** What a `nat` command selects: original source, destination and service, each up to the
      compiler's value equality, and the inbound interface. */
  datatype Match = Match(src: int, dst: int, srv: int, iface: int)

  datatype SnatRule = SnatRule(m: Match, tAddr: AddressObject, out: Iface, natNet: bool)

  /** `use_nat_0_0` is only ever set on rules whose destination and service are "any". */
  predicate WellFormed(r: SnatRule) {
    r.natNet ==> r.m.dst == ANY && r.m.srv == ANY
  }

  /** The pool a `global` command names. */
  datatype PoolKey = ByAddress(inet: int) | ByObject(obj: AddressObject)

  function KeyOf(a: AddressObject): PoolKey {
    if a.inet.Some? then ByAddress(a.inet.value) else ByObject(a)
  }

  predicate SamePool(a: SnatRule, b: SnatRule) {
    && (a.tAddr == b.tAddr ||
        (a.tAddr.inet.Some? && b.tAddr.inet.Some? && a.tAddr.inet == b.tAddr.inet))
    && a.out.id == b.out.id
  }

  predicate SameMatch(a: SnatRule, b: SnatRule) {
    a.m == b.m
  }

  predicate Linked(a: SnatRule, b: SnatRule) {
    SamePool(a, b) || SameMatch(a, b)
  }

  /** The text after `global (iface) id`. */
  datatype PoolText =
    | InterfacePool
    | SinglePool(addr: Option<int>)
    | NetworkPool(addr: Option<int>, mask: int)
    | RangePool(first: Option<int>, last: int, mask: int)

  function TextOf(r: SnatRule): PoolText {
    if r.tAddr.shape.InterfaceShape? || r.out.dynamic then InterfacePool
    else match r.tAddr.shape
      case NetworkShape => NetworkPool(r.tAddr.inet, r.tAddr.netmask)
      case RangeShape => RangePool(r.tAddr.inet, r.tAddr.rangeEnd, r.out.netmask)
      case _ => SinglePool(r.tAddr.inet)
  }

  /** What each form of the text says about the rule it is printed for. */
  predicate IsSpelled(r: SnatRule, text: PoolText) {
    match text
    case InterfacePool => r.tAddr.shape == InterfaceShape || r.out.dynamic
    case SinglePool(addr) => r.tAddr.shape == HostShape && !r.out.dynamic && addr == r.tAddr.inet
    case NetworkPool(addr, mask) =>
      r.tAddr.shape == NetworkShape && !r.out.dynamic && addr == r.tAddr.inet && mask == r.tAddr.netmask
    case RangePool(first, last, mask) =>
      && r.tAddr.shape == RangeShape && !r.out.dynamic
      && first == r.tAddr.inet && last == r.tAddr.rangeEnd && mask == r.out.netmask
  }

  lemma TextIsSpelled(r: SnatRule, text: PoolText)
    ensures IsSpelled(r, text) <==> text == TextOf(r)
  {
  }

  /** Two rules share a pool exactly if they leave through one interface and their pools have one name:
      the address, or the object itself if it has none. */
  lemma PoolByName(a: SnatRule, b: SnatRule)
    ensures SamePool(a, b) <==> a.out.id == b.out.id && KeyOf(a.tAddr) == KeyOf(b.tAddr)
    ensures KeyOf(a.tAddr) == KeyOf(b.tAddr) <==>
            a.tAddr.inet == b.tAddr.inet && (a.tAddr.inet.None? ==> a.tAddr == b.tAddr)
  {
  }

  /** `p` is a chain of linked rules among the first `n`. */
  ghost predicate IsChain(rs: seq<SnatRule>, n: nat, p: seq<nat>)
    requires n <= |rs|
  {
    && p != []
    && (forall x :: 0 <= x < |p| ==> p[x] < n)
    && (forall x :: 0 <= x < |p| - 1 ==> Linked(rs[p[x]], rs[p[x + 1]]))
  }

  ghost predicate Connected(rs: seq<SnatRule>, n: nat, i: nat, j: nat)
    requires n <= |rs|
  {
    exists p :: IsChain(rs, n, p) && p[0] == i && p[|p| - 1] == j
  }

  lemma ConnectedLink(rs: seq<SnatRule>, n: nat, i: nat, j: nat)
    requires i < n <= |rs| && j < n && (i == j || Linked(rs[i], rs[j]))
    ensures Connected(rs, n, i, j)
  {
    var p := if i == j then [i] else [i, j];
    assert IsChain(rs, n, p) && p[0] == i && p[|p| - 1] == j;
  }

  lemma ConnectedSymmetric(rs: seq<SnatRule>, n: nat, i: nat, j: nat)
    requires n <= |rs| && Connected(rs, n, i, j)
    ensures Connected(rs, n, j, i)
  {
    var p :| IsChain(rs, n, p) && p[0] == i && p[|p| - 1] == j;
    var q := seq(|p|, x requires 0 <= x < |p| => p[|p| - 1 - x]);
    assert IsChain(rs, n, q) by {
      forall x | 0 <= x < |q| - 1
        ensures Linked(rs[q[x]], rs[q[x + 1]])
      {
        assert q[x + 1] == p[|p| - 2 - x];
        assert Linked(rs[p[|p| - 2 - x]], rs[p[|p| - 2 - x + 1]]);
      }
    }
    assert q[0] == j && q[|q| - 1] == i;
  }

  lemma ConnectedTransitive(rs: seq<SnatRule>, n: nat, i: nat, j: nat, k: nat)
    requires n <= |rs| && Connected(rs, n, i, j) && Connected(rs, n, j, k)
    ensures Connected(rs, n, i, k)
  {
    var p :| IsChain(rs, n, p) && p[0] == i && p[|p| - 1] == j;
    var q :| IsChain(rs, n, q) && q[0] == j && q[|q| - 1] == k;
    var r := p + q[1..];
    assert IsChain(rs, n, r) by {
      forall x | 0 <= x < |r| - 1
        ensures Linked(rs[r[x]], rs[r[x + 1]])
      {
        if x >= |p| - 1 {
          assert r[x] == q[x - (|p| - 1)];
          assert r[x + 1] == q[x - (|p| - 1) + 1];
        }
      }
    }
    assert r[0] == i && r[|r| - 1] == k;
  }

  lemma ConnectedMonotone(rs: seq<SnatRule>, n: nat, n': nat, i: nat, j: nat)
    requires n <= n' <= |rs| && Connected(rs, n, i, j)
    ensures Connected(rs, n', i, j)
  {
    var p :| IsChain(rs, n, p) && p[0] == i && p[|p| - 1] == j;
    assert IsChain(rs, n', p);
  }
}
