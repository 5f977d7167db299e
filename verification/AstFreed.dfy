/** What reference counting frees: exactly what is not anchored, which is exactly what cannot be reached
    unless there is a cycle of garbage. */
module AstFreed {
  import opened Basics
  import opened AstRefCount

  lemma PrunedSelf(s: State)
    ensures Pruned(s, s)
  {
    assert FreedIn(s, s, []);
  }

  /** So whatever the order in which members are destroyed, one state comes out. */
  lemma OneOutcome(g: State, s: State, t: State)
    requires Pruned(g, s) && Good(s) && Pruned(g, t) && Good(t)
    ensures s == t
  {
    SurvivorsExactly(g, s, multiset{});
    SurvivorsExactly(g, t, multiset{});
    forall n ensures (n in s.nodes <==> n in t.nodes) && (n in s.nodes ==> s.nodes[n] == t.nodes[n]) {
      assert SameNode(g, s, n) && SameNode(g, t, n);
    }
    assert s.nodes == t.nodes;
    forall k ensures (k in s.slots <==> k in t.slots) && (k in s.slots ==> s.slots[k] == t.slots[k]) {
      assert SameSlot(g, s, k) && SameSlot(g, t, k) && SlotOk(s, k) && SlotOk(t, k);
    }
    assert s.slots == t.slots;
    SameRefs(s, t);
    SameRefs(t, s);
    assert s.refs == t.refs;
  }

  lemma SameRefs(s: State, t: State)
    requires Good(s) && Good(t) && s.nodes == t.nodes && s.slots == t.slots
    ensures forall r :: r in s.refs ==> r in t.refs && s.refs[r] == t.refs[r]
  {
    forall r | r in s.refs ensures r in t.refs && s.refs[r] == t.refs[r] {
      assert RefOk(s, r) && NodeOk(t, s.refs[r].ptr, {});
      assert CountOk(s, r, multiset{}) && CountOk(t, r, multiset{});
    }
  }

  // Reachability.

  /** A node that a raw pointer, a count that is owed or a handle outside keeps. */
  ghost predicate IsRoot(s: State, owed: multiset<nat>, n: nat) {
    && n in s.nodes
    && (s.nodes[n].Some? ==> s.nodes[n].value in owed || exists h :: Holds(s, Outside(h), n))
  }

  ghost predicate IsChild(s: State, m: nat, n: nat) {
    m in s.nodes && (Holds(s, Down(m), n) || Holds(s, Right(m), n))
  }

  /** Each node is a member's of the one before. */
  ghost predicate IsWalk(s: State, path: seq<nat>) {
    path != [] && forall i {:trigger path[i]} :: 0 < i < |path| ==> IsChild(s, path[i - 1], path[i])
  }

  ghost predicate LeadsAlong(s: State, path: seq<nat>, m: nat, n: nat) {
    IsWalk(s, path) && path[0] == m && path[|path| - 1] == n
  }

  ghost predicate Leads(s: State, m: nat, n: nat) {
    exists path :: LeadsAlong(s, path, m, n)
  }

  ghost predicate Reaches(s: State, owed: multiset<nat>, n: nat) {
    exists m :: IsRoot(s, owed, m) && Leads(s, m, n)
  }

  ghost predicate Reachable(s: State, n: nat) {
    Reaches(s, multiset{}, n)
  }

  /** A walk that comes back to where it started. */
  ghost predicate IsCycle(s: State, c: seq<nat>) {
    |c| >= 2 && c[0] == c[|c| - 1] && IsWalk(s, c)
  }

  ghost predicate BelowCycle(s: State, n: nat) {
    exists c :: IsCycle(s, c) && Leads(s, c[0], n)
  }

  /** A cycle that cannot be reached. */
  ghost predicate IsGarbage(s: State, c: seq<nat>) {
    IsCycle(s, c) && !Reachable(s, c[0])
  }

  lemma LeadsNowhere(s: State, n: nat)
    ensures Leads(s, n, n)
  {
    assert LeadsAlong(s, [n], n, n);
  }

  lemma LeadsOn(s: State, m: nat, n: nat, child: nat)
    requires Leads(s, m, n) && IsChild(s, n, child)
    ensures Leads(s, m, child)
  {
    var path :| LeadsAlong(s, path, m, n);
    assert LeadsAlong(s, path + [child], m, child);
  }

  lemma ChildIsReached(s: State, owed: multiset<nat>, m: nat, n: nat)
    requires Reaches(s, owed, m) && IsChild(s, m, n)
    ensures Reaches(s, owed, n)
  {
    var root :| IsRoot(s, owed, root) && Leads(s, root, m);
    LeadsOn(s, root, m, n);
  }

  // What survives can be reached or hangs below a cycle.

  lemma HeldSurvives(s: State, owed: multiset<nat>, ns: set<nat>, n: nat)
    requires Anchored(s, ns, owed) && AnchoredAt(s, ns + {n}, owed, n)
    ensures Survives(s, owed, n)
  {
    var more := ns + {n};
    forall j | j in more ensures AnchoredAt(s, more, owed, j) {
      if j in ns {
        assert AnchoredAt(s, ns, owed, j);
      }
    }
    assert Anchored(s, more, owed) && n in more;
  }

  lemma RootSurvives(s: State, owed: multiset<nat>, n: nat)
    requires IsRoot(s, owed, n)
    ensures Survives(s, owed, n)
  {
    if h :| Holds(s, Outside(h), n) {
      assert Outside(h).Outside?;
    }
    HeldSurvives(s, owed, {}, n);
  }

  lemma ChildSurvives(s: State, owed: multiset<nat>, m: nat, n: nat)
    requires Survives(s, owed, m) && IsChild(s, m, n)
    ensures Survives(s, owed, n)
  {
    var ns :| Anchored(s, ns, owed) && m in ns;
    var k := if Holds(s, Down(m), n) then Down(m) else Right(m);
    assert Holds(s, k, n) && k.n in ns + {n};
    HeldSurvives(s, owed, ns, n);
  }

  lemma {:induction false} WalkSurvives(s: State, owed: multiset<nat>, path: seq<nat>, i: nat)
    requires IsWalk(s, path) && Survives(s, owed, path[0]) && i < |path|
    ensures Survives(s, owed, path[i])
  {
    if i > 0 {
      WalkSurvives(s, owed, path, i - 1);
      ChildSurvives(s, owed, path[i - 1], path[i]);
    }
  }

  /** The nodes of a cycle hold each other. */
  lemma CycleIsAnchored(s: State, c: seq<nat>, owed: multiset<nat>)
    requires IsCycle(s, c)
    ensures Anchored(s, (set n | n in c), owed)
  {
    var ns := set n | n in c;
    forall n | n in ns ensures AnchoredAt(s, ns, owed, n) {
      var i :| 0 <= i < |c| && c[i] == n;
      var j := if i == 0 then |c| - 1 else i;
      assert c[j] == n && IsChild(s, c[j - 1], n) && c[j - 1] in ns;
      var k := if Holds(s, Down(c[j - 1]), n) then Down(c[j - 1]) else Right(c[j - 1]);
      assert Holds(s, k, n) && k.n in ns;
    }
  }

  lemma HeldOutside(s: State, owed: multiset<nat>, k: Slot, n: nat)
    requires Holds(s, k, n) && k.Outside?
    ensures IsRoot(s, owed, n)
  {
    assert Holds(s, Outside(k.h), n);
  }

  /** Of nodes that anchor each other, one that cannot be reached is a member's of another such one. */
  lemma UnreachedParent(s: State, owed: multiset<nat>, ns: set<nat>, n: nat) returns (m: nat)
    requires Anchored(s, ns, owed) && n in ns && !Reaches(s, owed, n)
    ensures m in ns && !Reaches(s, owed, m) && IsChild(s, m, n)
  {
    assert AnchoredAt(s, ns, owed, n);
    LeadsNowhere(s, n);
    assert !IsRoot(s, owed, n);
    var k :| Holds(s, k, n) && (k.Outside? || k.n in ns);
    if k.Outside? {
      HeldOutside(s, owed, k, n);
      assert false;
    }
    m := k.n;
    assert AnchoredAt(s, ns, owed, m) && IsChild(s, m, n);
    if Reaches(s, owed, m) {
      ChildIsReached(s, owed, m, n);
    }
  }

  ghost predicate IsChain(s: State, owed: multiset<nat>, ns: set<nat>, p: seq<nat>) {
    IsWalk(s, p) && forall n :: n in p ==> n in ns && !Reaches(s, owed, n)
  }

  lemma {:induction false} Climb(s: State, owed: multiset<nat>, ns: set<nat>, n: nat, length: nat) returns (p: seq<nat>)
    requires Anchored(s, ns, owed) && n in ns && !Reaches(s, owed, n)
    ensures |p| == length + 1 && p[length] == n && IsChain(s, owed, ns, p)
    decreases length
  {
    if length == 0 {
      p := [n];
    } else {
      var m := UnreachedParent(s, owed, ns, n);
      var above := Climb(s, owed, ns, m, length - 1);
      p := above + [n];
    }
  }

  lemma {:induction false} Pigeonhole(p: seq<nat>, ns: set<nat>) returns (i: nat, j: nat)
    requires |p| > |ns| && forall n :: n in p ==> n in ns
    ensures i < j < |p| && p[i] == p[j]
    decreases |p|
  {
    var last := |p| - 1;
    var front := p[..last];
    if p[last] in front {
      i :| 0 <= i < last && front[i] == p[last];
      j := last;
    } else {
      forall n | n in front ensures n in ns - {p[last]} {
        assert n in p;
      }
      assert p[last] in p;
      i, j := Pigeonhole(front, ns - {p[last]});
    }
  }

  /** The part of a walk from one place on it to another. */
  lemma {:induction false} Stretch(s: State, p: seq<nat>, i: nat, j: nat) returns (q: seq<nat>)
    requires IsWalk(s, p) && i <= j < |p|
    ensures |q| == j - i + 1 && LeadsAlong(s, q, p[i], p[j])
    decreases j
  {
    if i == j {
      q := [p[i]];
    } else {
      var r := Stretch(s, p, i, j - 1);
      q := r + [p[j]];
      assert IsChild(s, p[j - 1], p[j]);
    }
  }

  /** So there is a cycle of such nodes above it. */
  lemma UnreachedCycle(s: State, owed: multiset<nat>, ns: set<nat>, n: nat) returns (c: seq<nat>)
    requires Anchored(s, ns, owed) && n in ns && !Reaches(s, owed, n)
    ensures IsCycle(s, c) && !Reaches(s, owed, c[0]) && Leads(s, c[0], n)
  {
    var p := Climb(s, owed, ns, n, |ns|);
    var i, j := Pigeonhole(p, ns);
    c := Stretch(s, p, i, j);
    var down := Stretch(s, p, i, |p| - 1);
    assert p[i] in p && LeadsAlong(s, down, c[0], n);
  }

  /** A node survives if and only if it can be reached or hangs below a cycle. */
  lemma SurvivesExactly(s: State, owed: multiset<nat>, n: nat)
    ensures Survives(s, owed, n) <==> Reaches(s, owed, n) || BelowCycle(s, n)
  {
    if m, path :| IsRoot(s, owed, m) && LeadsAlong(s, path, m, n) {
      RootSurvives(s, owed, m);
      WalkSurvives(s, owed, path, |path| - 1);
    }
    if c, path :| IsCycle(s, c) && LeadsAlong(s, path, c[0], n) {
      CycleIsAnchored(s, c, owed);
      assert c[0] in set x | x in c;
      WalkSurvives(s, owed, path, |path| - 1);
    }
    if ns :| Anchored(s, ns, owed) && n in ns {
      if !Reaches(s, owed, n) {
        var c := UnreachedCycle(s, owed, ns, n);
      }
    }
  }

  // What a cascade frees.

  lemma NothingReachableIsFreed(g: State, s: State, n: nat)
    requires Pruned(g, s) && Good(s) && Reachable(g, n)
    ensures n in s.nodes
  {
    SurvivesExactly(g, multiset{}, n);
    var ns :| Anchored(g, ns, multiset{}) && n in ns;
    AnchoredStays(g, s, multiset{}, ns);
  }

  /** No operation ever frees a node on a cycle. */
  lemma CyclesStay(g: State, s: State, c: seq<nat>)
    requires Pruned(g, s) && Inv(s, {}, multiset{}) && IsCycle(g, c)
    ensures forall n :: n in c ==> n in s.nodes
  {
    CycleIsAnchored(g, c, multiset{});
    AnchoredStays(g, s, multiset{}, set n | n in c);
  }

  /** What stays although it cannot be reached hangs below a cycle of garbage. */
  lemma GarbageHasCycle(g: State, s: State, n: nat) returns (c: seq<nat>)
    requires Pruned(g, s) && Good(s) && n in s.nodes && !Reachable(g, n)
    ensures IsGarbage(g, c) && Leads(g, c[0], n)
  {
    LiveAreAnchored(g, s, multiset{});
    c := UnreachedCycle(g, multiset{}, s.nodes.Keys, n);
  }

  /** A cascade frees exactly what cannot be reached if and only if no cycle is garbage. */
  lemma FreedExactly(g: State, s: State)
    requires Pruned(g, s) && Good(s)
    ensures (forall n :: n in g.nodes ==> (n in s.nodes <==> Reachable(g, n))) <==> !exists c :: IsGarbage(g, c)
  {
    forall n | n in g.nodes && Reachable(g, n) ensures n in s.nodes {
      NothingReachableIsFreed(g, s, n);
    }
    if c :| IsGarbage(g, c) {
      CyclesStay(g, s, c);
      assert c[0] in c && IsChild(g, c[0], c[1]);
    } else {
      forall n | n in s.nodes ensures Reachable(g, n) {
        if !Reachable(g, n) {
          var c := GarbageHasCycle(g, s, n);
        }
      }
      forall n | n in s.nodes ensures n in g.nodes { assert SameNode(g, s, n); }
    }
  }

  // When a member may be written.

  lemma ClearedChild(s: State, k: Slot, m: nat, n: nat)
    requires !k.Outside? && k in s.slots
    ensures IsChild(Cleared(s, k), m, n) ==> IsChild(s, m, n)
    ensures m != k.n ==> (IsChild(Cleared(s, k), m, n) <==> IsChild(s, m, n))
  {
  }

  /** The way to a node need not use its own members. */
  lemma {:induction false} LeadsWithout(s: State, k: Slot, path: seq<nat>, m: nat)
    requires !k.Outside? && k in s.slots && LeadsAlong(s, path, m, k.n)
    ensures Leads(Cleared(s, k), m, k.n)
    decreases |path|
  {
    var last := |path| - 1;
    if i :| 0 <= i < last && path[i] == k.n {
      var shorter := Stretch(s, path, 0, i);
      LeadsWithout(s, k, shorter, m);
    } else {
      forall i | 0 < i < |path| ensures IsChild(Cleared(s, k), path[i - 1], path[i]) {
        ClearedChild(s, k, path[i - 1], path[i]);
      }
      assert LeadsAlong(Cleared(s, k), path, m, k.n);
    }
  }

  lemma LeadsWith(s: State, k: Slot, m: nat, n: nat)
    requires !k.Outside? && k in s.slots && Leads(Cleared(s, k), m, n)
    ensures Leads(s, m, n)
  {
    var path :| LeadsAlong(Cleared(s, k), path, m, n);
    forall i | 0 < i < |path| ensures IsChild(s, path[i - 1], path[i]) {
      ClearedChild(s, k, path[i - 1], path[i]);
    }
    assert LeadsAlong(s, path, m, n);
  }

  /** Clearing a member does not change whether its owner can be reached. */
  lemma OwnerIsReached(s: State, k: Slot, owed: multiset<nat>)
    requires !k.Outside? && k in s.slots
    ensures Reaches(Cleared(s, k), owed, k.n) <==> Reaches(s, owed, k.n)
  {
    forall m ensures IsRoot(Cleared(s, k), owed, m) <==> IsRoot(s, owed, m) {
      forall h ensures Holds(Cleared(s, k), Outside(h), m) <==> Holds(s, Outside(h), m) {}
    }
    if m :| IsRoot(Cleared(s, k), owed, m) && Leads(Cleared(s, k), m, k.n) {
      LeadsWith(s, k, m, k.n);
    }
    if m, path :| IsRoot(s, owed, m) && LeadsAlong(s, path, m, k.n) {
      LeadsWithout(s, k, path, m);
    }
  }

  /** A handle may be written, before its node is freed, if and only if it is outside, or its node can be
      reached from outside or from what is written, or hangs below a cycle that does not use the handle. */
  lemma AssignableExactly(s: State, k: Slot, v: Option<nat>)
    requires k in s.slots
    ensures Assignable(s, k, v) <==>
            k.Outside? || Reaches(s, Owing(multiset{}, v), k.n) || BelowCycle(Cleared(s, k), k.n)
  {
    if !k.Outside? {
      SurvivesExactly(Cleared(s, k), Owing(multiset{}, v), k.n);
      OwnerIsReached(s, k, Owing(multiset{}, v));
    }
  }

  /** Every link goes down. */
  ghost predicate Acyclic(s: State, depth: nat -> nat) {
    forall m, n :: IsChild(s, m, n) ==> depth(m) < depth(n)
  }

  lemma {:induction false} DeeperAlong(s: State, depth: nat -> nat, c: seq<nat>, i: nat)
    requires Acyclic(s, depth) && IsCycle(s, c) && 0 < i < |c|
    ensures depth(c[0]) < depth(c[i])
  {
    assert IsChild(s, c[i - 1], c[i]);
    if i > 1 {
      DeeperAlong(s, depth, c, i - 1);
    }
  }

  lemma AcyclicHasNoCycle(s: State, depth: nat -> nat, c: seq<nat>)
    requires Acyclic(s, depth)
    ensures !IsCycle(s, c)
  {
    if IsCycle(s, c) {
      DeeperAlong(s, depth, c, |c| - 1);
    }
  }

  /** Without cycles a member can always be assigned: what it held is deeper than its owner. */
  lemma DeeperIsAssignable(s: State, k: Slot, v: Option<nat>, depth: nat -> nat)
    requires Good(s) && Acyclic(s, depth) && k in s.slots && !k.Outside?
    ensures Assignable(s, k, v)
  {
    var ns := set n | n in s.nodes && depth(n) <= depth(k.n);
    var owed := Owing(multiset{}, v);
    PrunedSelf(s);
    assert SlotOk(s, k);
    forall n | n in ns ensures AnchoredAt(Cleared(s, k), ns, owed, n) {
      if s.nodes[n].Some? {
        var j := SomeoneHolds(s, s, multiset{}, n);
        assert !j.Outside? ==> IsChild(s, j.n, n);
        assert j != k;
        assert Holds(Cleared(s, k), j, n);
      }
    }
    assert Anchored(Cleared(s, k), ns, owed) && k.n in ns;
  }

  // Runs.

  /** A call on the heap, with the address the allocator gives where one is needed. */
  datatype Call =
    | NewNode(n: nat)
    | Construct(h: nat, p: Option<nat>, address: nat)
    | Copy(h: nat, from: Slot)
    | Destroy(h: nat)
    | AssignRaw(k: Slot, p: Option<nat>, address: nat)
    | Assign(k: Slot, other: Slot)

  ghost predicate Legal(s: State, c: Call) {
    match c
    case NewNode(n) => n !in s.nodes
    case Construct(h, p, address) => Outside(h) !in s.slots && address !in s.refs && (p.Some? ==> p.value in s.nodes)
    case Copy(h, from) => Outside(h) !in s.slots && from in s.slots
    case Destroy(h) => Outside(h) in s.slots
    case AssignRaw(k, p, address) => k in s.slots && address !in s.refs && (p.Some? ==> p.value in s.nodes)
    case Assign(k, other) => k in s.slots && other in s.slots
  }

  /** The call does not free what it is about to write. */
  ghost predicate Safe(s: State, c: Call)
    requires Legal(s, c)
  {
    match c
    case AssignRaw(k, p, address) => Assignable(WithRef(s, p, address), k, RefOf(s, p, address))
    case Assign(k, other) => s.slots[other] == s.slots[k] || Assignable(s, k, s.slots[other])
    case _ => true
  }

  /** The state a call aims at, before anything is freed. */
  ghost function Target(s: State, c: Call): State
    requires Legal(s, c)
  {
    match c
    case NewNode(n) => WithNode(s, n)
    case Construct(h, p, address) => Put(WithRef(s, p, address), Outside(h), RefOf(s, p, address))
    case Copy(h, from) => Put(Shared(s, s.slots[from]), Outside(h), s.slots[from])
    case Destroy(h) => Drop(s, Outside(h))
    case AssignRaw(k, p, address) => Put(WithRef(s, p, address), k, RefOf(s, p, address))
    case Assign(k, other) =>
      if s.slots[other] == s.slots[k] then s else Put(Shared(s, s.slots[other]), k, s.slots[other])
  }

  /** A step leaves what the call aims at, without what nothing anchors. */
  ghost predicate IsStep(s: State, c: Call, t: State) {
    Legal(s, c) && Safe(s, c) && Good(t) && Pruned(Target(s, c), t)
  }

  /** An assignment frees the node of the handle it writes. */
  ghost predicate IsFault(s: State, c: Call, t: State) {
    && Legal(s, c) && !Safe(s, c)
    && match c
       case AssignRaw(k, p, address) => Struck(WithRef(s, p, address), t, k, RefOf(s, p, address))
       case Assign(k, other) => Struck(Shared(s, s.slots[other]), t, k, s.slots[other])
       case _ => false
  }

  /** Every call of the script, up to the first fault, deals with live nodes and handles. */
  ghost predicate Playable(s: State, calls: seq<Call>)
    decreases |calls|
  {
    calls == [] ||
    (Legal(s, calls[0]) && forall t :: IsStep(s, calls[0], t) ==> Playable(t, calls[1..]))
  }

  ghost predicate IsRun(states: seq<State>, calls: seq<Call>) {
    && |states| == |calls| + 1
    && (forall i :: 0 <= i < |calls| ==> IsStep(states[i], calls[i], states[i + 1]))
  }

  method Perform(m: Memory, c: Call) returns (fault: bool)
    requires Good(m.St()) && Legal(m.St(), c)
    modifies m
    ensures fault <==> !Safe(old(m.St()), c)
    ensures if fault then IsFault(old(m.St()), c, m.St()) else IsStep(old(m.St()), c, m.St())
  {
    PrunedSelf(Target(m.St(), c));
    fault := false;
    match c
    case NewNode(n) => m.NewNode(n);
    case Construct(h, p, address) => m.Construct(h, p, address);
    case Copy(h, from) => m.Copy(h, from);
    case Destroy(h) => m.Destroy(h);
    case AssignRaw(k, p, address) => fault := m.AssignRaw(k, p, address);
    case Assign(k, other) => fault := m.Assign(k, other);
  }

  ghost predicate FreesExactly(s: State, c: Call, t: State) {
    Legal(s, c) &&
    var g := Target(s, c);
    (forall n :: n in g.nodes ==> (n in t.nodes <==> Reachable(g, n))) <==> !exists c :: IsGarbage(g, c)
  }

  method Next(m: Memory, c: Call) returns (fault: bool)
    requires Good(m.St()) && Legal(m.St(), c)
    modifies m
    ensures if fault then IsFault(old(m.St()), c, m.St())
            else IsStep(old(m.St()), c, m.St()) && FreesExactly(old(m.St()), c, m.St())
  {
    ghost var g := Target(m.St(), c);
    fault := Perform(m, c);
    if !fault {
      FreedExactly(g, m.St());
    }
  }

  /** In every run the counts stay right, each step frees exactly what its change of handles cut off
      unless it leaves a cycle of garbage, and there is garbage only where there is such a cycle.  A run
      ends early exactly at the first call that frees what it writes. */
  method Play(m: Memory, calls: seq<Call>) returns (ghost states: seq<State>, fault: bool)
    requires Good(m.St()) && Playable(m.St(), calls)
    modifies m
    ensures 0 < |states| <= |calls| + 1 && states[0] == old(m.St()) && IsRun(states, calls[..|states| - 1])
    ensures forall i :: 0 <= i < |states| - 1 ==> FreesExactly(states[i], calls[i], states[i + 1])
    ensures fault ==> |states| <= |calls| && IsFault(states[|states| - 1], calls[|states| - 1], m.St())
    ensures !fault ==> |states| == |calls| + 1 && states[|calls|] == m.St() && Good(m.St())
    ensures !fault ==> ((forall n :: n in m.nodes ==> Reachable(m.St(), n)) <==> !exists c :: IsGarbage(m.St(), c))
  {
    states, fault := [m.St()], false;
    var k := 0;
    while k < |calls|
      invariant k <= |calls| && |states| == k + 1 && states[0] == old(m.St()) && states[k] == m.St()
      invariant Good(m.St()) && Playable(m.St(), calls[k..])
      invariant forall i :: 0 <= i < k ==> IsStep(states[i], calls[i], states[i + 1])
      invariant forall i :: 0 <= i < k ==> FreesExactly(states[i], calls[i], states[i + 1])
    {
      assert calls[k..][0] == calls[k] && calls[k..][1..] == calls[k + 1..];
      fault := Next(m, calls[k]);
      if fault {
        return;
      }
      states := states + [m.St()];
      k := k + 1;
    }
    PrunedSelf(m.St());
    FreedExactly(m.St(), m.St());
  }

  /** The node's own member holds it as well as the handle outside. */
  lemma SelfAssigned(g: State, s: State)
    requires Pruned(g, s) && Good(s) && g.nodes == map[0 := Some(0)]
    requires g.slots == map[Down(0) := Some(0), Right(0) := None, Outside(0) := Some(0)]
    ensures s.nodes == g.nodes && s.slots == g.slots
  {
    assert Holds(g, Outside(0), 0) && AnchoredAt(g, {0}, multiset{}, 0);
    AnchoredStays(g, s, multiset{}, {0});
    SameAsBefore(g, s);
  }

  lemma SameAsBefore(g: State, s: State)
    requires Shrunk(g, s) && forall n :: n in g.nodes ==> n in s.nodes
    requires forall k :: k in g.slots && !k.Outside? ==> k.n in g.nodes
    ensures s.nodes == g.nodes && s.slots == g.slots
  {
    forall n ensures (n in s.nodes <==> n in g.nodes) && (n in s.nodes ==> s.nodes[n] == g.nodes[n]) {
      assert SameNode(g, s, n);
    }
    forall k ensures (k in s.slots <==> k in g.slots) && (k in s.slots ==> s.slots[k] == g.slots[k]) {
      assert SameSlot(g, s, k);
    }
  }

  /** A node that is its own child and that nothing else holds. */
  ghost predicate IsAbandoned(s: State) {
    s.nodes == map[0 := Some(0)] && s.slots == map[Down(0) := Some(0), Right(0) := None]
  }

  /** Once the handle outside is gone, the node stays. */
  lemma SelfAbandoned(g: State, s: State)
    requires Pruned(g, s) && Good(s) && IsAbandoned(g)
    ensures IsAbandoned(s)
  {
    assert IsCycle(g, [0, 0]) by {
      assert Holds(g, Down(0), 0);
    }
    CyclesStay(g, s, [0, 0]);
    assert 0 in [0, 0];
    SameAsBefore(g, s);
  }

  lemma NothingReached(s: State)
    requires IsAbandoned(s)
    ensures forall n :: !Reachable(s, n)
  {
    assert forall n :: !IsRoot(s, multiset{}, n);
  }

  /** A run that leaks: a node is made its own child, and the handle outside ends.  Nothing reaches the
      node any more, and it stays. */
  method LeakACycle() returns (m: Memory)
    ensures fresh(m) && Good(m.St()) && IsAbandoned(m.St()) && !Reachable(m.St(), 0)
  {
    m := new Memory();
    m.NewNode(0);
    m.Construct(0, Some(0), 0);
    ghost var s := m.St();
    assert s.nodes == map[0 := Some(0)];
    assert s.slots == map[Down(0) := None, Right(0) := None, Outside(0) := Some(0)];
    OwedIsAssignable(s, Down(0), Some(0));
    var fault := m.Assign(Down(0), Outside(0));
    SelfAssigned(Put(Shared(s, Some(0)), Down(0), Some(0)), m.St());
    ghost var g := Drop(m.St(), Outside(0));
    assert g.slots == map[Down(0) := Some(0), Right(0) := None];
    m.Destroy(0);
    SelfAbandoned(g, m.St());
    NothingReached(m.St());
  }

  /** A node may be given to its own member. */
  lemma OwedIsAssignable(s: State, k: Slot, v: Option<nat>)
    requires k in s.slots && !k.Outside? && k.n in s.nodes && v.Some? && s.nodes[k.n] == v
    ensures Assignable(s, k, v)
  {
    LeadsNowhere(s, k.n);
    assert IsRoot(s, Owing(multiset{}, v), k.n);
    AssignableExactly(s, k, v);
  }

  lemma FirstStep(s: State, c: seq<nat>)
    requires IsCycle(s, c)
    ensures IsChild(s, c[0], c[1])
  {
  }

  lemma NoChildNoCycle(s: State, c: seq<nat>)
    requires forall m, n :: !IsChild(s, m, n)
    ensures !IsCycle(s, c)
  {
    if IsCycle(s, c) {
      FirstStep(s, c);
    }
  }

  lemma AbandonedIsUnsafe(s: State)
    requires IsAbandoned(s)
    ensures !Assignable(s, Down(0), None)
  {
    AssignableExactly(s, Down(0), None);
    NothingReached(s);
    forall c ensures !IsCycle(Cleared(s, Down(0)), c) {
      NoChildNoCycle(Cleared(s, Down(0)), c);
    }
  }

  /** A run that writes to freed memory: the child of that node, to which a raw pointer was kept, is set
      to null. */
  method ClearAbandoned() returns (m: Memory, fault: bool)
    ensures fresh(m) && fault && 0 !in m.nodes
  {
    m := LeakACycle();
    AbandonedIsUnsafe(m.St());
    assert forall r :: r in m.refs ==> RefOk(m.St(), r);
    fault := m.AssignRaw(Down(0), None, 1);
  }
}
