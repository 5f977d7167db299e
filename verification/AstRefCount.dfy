/** The intrusive reference counts that own tree nodes.  Freeing is the point here, so the heap is
    explicit: addresses are numbers, and what has been freed is no longer in the maps. */
module AstRefCount {
  import opened Basics

  /** Where a handle lives: in client code, or as the `down` or `right` member of a node. */
  datatype Slot = Outside(h: nat) | Down(n: nat) | Right(n: nat)

  /** A counting object: the node it owns and how many handles share it. */
  datatype AstRef = AstRef(ptr: nat, count: nat)

  /** Counting objects, nodes with their back pointer to one, and the contents of handles. */
  datatype State = State(refs: map<nat, AstRef>, nodes: map<nat, Option<nat>>, slots: map<Slot, Option<nat>>)

  function Holding(slots: map<Slot, Option<nat>>, r: nat): set<Slot> {
    set k | k in slots && slots[k] == Some(r)
  }

  /** How many handles are on a counting object. */
  function Holders(slots: map<Slot, Option<nat>>, r: nat): nat {
    |Holding(slots, r)|
  }

  lemma HoldersPut(slots: map<Slot, Option<nat>>, k: Slot, v: Option<nat>, r: nat)
    requires k !in slots
    ensures Holders(slots[k := v], r) == Holders(slots, r) + if v == Some(r) then 1 else 0
  {
    if v == Some(r) {
      assert Holding(slots[k := v], r) == Holding(slots, r) + {k};
    } else {
      assert Holding(slots[k := v], r) == Holding(slots, r);
    }
  }

  lemma HoldersDrop(slots: map<Slot, Option<nat>>, k: Slot, r: nat)
    requires k in slots
    ensures Holders(slots, r) == Holders(slots - {k}, r) + if slots[k] == Some(r) then 1 else 0
  {
    HoldersPut(slots - {k}, k, slots[k], r);
    assert (slots - {k})[k := slots[k]] == slots;
  }

  lemma NoHolders(slots: map<Slot, Option<nat>>, r: nat)
    requires Holders(slots, r) == 0
    ensures forall k :: k in slots ==> slots[k] != Some(r)
  {
    forall k | k in slots
      ensures slots[k] != Some(r)
    {
      assert k !in Holding(slots, r);
    }
  }

  // What every step keeps.  `open` are handles that have been destroyed, `owed` are counts taken for
  // handles that do not hold the object yet or no longer do.

  /** A handle holds a live object; a member belongs to a live node. */
  ghost predicate SlotOk(s: State, k: Slot) {
    k in s.slots ==> (s.slots[k].Some? ==> s.slots[k].value in s.refs) && (!k.Outside? ==> k.n in s.nodes)
  }

  /** A counting object owns a live node that points back to it. */
  ghost predicate RefOk(s: State, r: nat) {
    r in s.refs ==> s.refs[r].ptr in s.nodes && s.nodes[s.refs[r].ptr] == Some(r)
  }

  ghost predicate MemberOk(s: State, k: Slot, open: set<Slot>) {
    k in s.slots || k in open
  }

  /** A live node has its members, and what it points back to is the object that owns it. */
  ghost predicate NodeOk(s: State, n: nat, open: set<Slot>) {
    n in s.nodes ==>
      && MemberOk(s, Down(n), open) && MemberOk(s, Right(n), open)
      && (s.nodes[n].Some? ==> s.nodes[n].value in s.refs && s.refs[s.nodes[n].value].ptr == n)
  }

  /** The count of an object is the number of handles on it, plus what is owed. */
  ghost predicate CountOk(s: State, r: nat, owed: multiset<nat>) {
    && (r in owed ==> r in s.refs)
    && (r in s.refs ==> s.refs[r].count == Holders(s.slots, r) + owed[r])
  }

  ghost predicate Inv(s: State, open: set<Slot>, owed: multiset<nat>) {
    && (forall k {:trigger SlotOk(s, k)} :: SlotOk(s, k))
    && (forall r {:trigger RefOk(s, r)} :: RefOk(s, r))
    && (forall n {:trigger NodeOk(s, n, open)} :: NodeOk(s, n, open))
    && (forall r {:trigger CountOk(s, r, owed)} :: CountOk(s, r, owed))
    && (forall k :: k in open ==> k !in s.slots)
  }

  ghost predicate NoZero(s: State) {
    forall r :: r in s.refs ==> s.refs[r].count > 0
  }

  ghost predicate Good(s: State) {
    Inv(s, {}, multiset{}) && NoZero(s)
  }

  ghost predicate SameNode(g: State, s: State, n: nat) {
    && (n in s.nodes ==> n in g.nodes && s.nodes[n] == g.nodes[n])
    && (n in g.nodes && g.nodes[n].None? ==> n in s.nodes)
  }

  ghost predicate SameRef(g: State, s: State, r: nat) {
    r in s.refs ==> r in g.refs && s.refs[r].ptr == g.refs[r].ptr
  }

  ghost predicate SameSlot(g: State, s: State, k: Slot) {
    && (k in s.slots ==> k in g.slots && s.slots[k] == g.slots[k])
    && (k in g.slots && (k.Outside? || k.n in s.nodes) ==> k in s.slots)
  }

  /** `s` is `g` with some owned nodes gone, their counting objects and members with them, and nothing
      else. */
  ghost predicate Shrunk(g: State, s: State) {
    && (forall n {:trigger SameNode(g, s, n)} :: SameNode(g, s, n))
    && (forall r {:trigger SameRef(g, s, r)} :: SameRef(g, s, r))
    && (forall k {:trigger SameSlot(g, s, k)} :: SameSlot(g, s, k))
  }

  /** The handle is on the counting object of this node. */
  ghost predicate Holds(s: State, k: Slot, n: nat) {
    n in s.nodes && s.nodes[n].Some? && k in s.slots && s.slots[k] == s.nodes[n]
  }

  ghost predicate Preceded(g: State, f: seq<nat>, i: int, k: Slot)
    requires 0 <= i < |f|
  {
    Holds(g, k, f[i]) ==> !k.Outside? && (k.n in g.nodes ==> k.n in f[..i])
  }

  /** The nodes that are gone, in the order in which their destruction began: by then, whatever held a
      node was a member of one whose destruction had begun before. */
  ghost predicate FreedIn(g: State, s: State, f: seq<nat>) {
    && (forall n :: n in f <==> n in g.nodes && n !in s.nodes)
    && (forall i, k {:trigger Preceded(g, f, i, k)} :: 0 <= i < |f| ==> Preceded(g, f, i, k))
  }

  /** `s` is `g` after a cascade: it frees what nothing holds any more, and nothing else. */
  ghost predicate Pruned(g: State, s: State) {
    Shrunk(g, s) && exists f :: FreedIn(g, s, f)
  }

  ghost predicate NotZeroed(g: State, s: State, r: nat) {
    r in s.refs && s.refs[r].count == 0 ==> r in g.refs && g.refs[r].count == 0
  }

  /** No object was left behind with count 0. */
  ghost predicate NoneZeroed(g: State, s: State) {
    forall r {:trigger NotZeroed(g, s, r)} :: NotZeroed(g, s, r)
  }

  ghost predicate DyingAt(s: State, n: nat) {
    n in s.nodes && s.nodes[n].Some? && s.nodes[n].value in s.refs && s.refs[s.nodes[n].value].count == 0
  }

  /** Nodes that are being destroyed. */
  ghost predicate Dying(s: State, ns: set<nat>) {
    forall n {:trigger DyingAt(s, n)} :: n in ns ==> DyingAt(s, n)
  }

  /** Handles that have been destroyed are from outside, or members of such nodes. */
  ghost predicate Guarded(open: set<Slot>, dying: set<nat>) {
    forall k :: k in open ==> k.Outside? || k.n in dying
  }

  /** A stage of a cascade. */
  ghost predicate Stage(s: State, dying: set<nat>, open: set<Slot>, owed: multiset<nat>) {
    Inv(s, open, owed) && Dying(s, dying) && Guarded(open, dying)
  }

  function Drop(s: State, k: Slot): State {
    s.(slots := s.slots - {k})
  }

  function Put(s: State, k: Slot, v: Option<nat>): State {
    s.(slots := s.slots[k := v])
  }

  function Recount(s: State, r: nat, count: nat): State
    requires r in s.refs
  {
    s.(refs := s.refs[r := s.refs[r].(count := count)])
  }

  /** The node and its counting object are gone. */
  function Free(s: State, p: nat, r: nat): State {
    s.(refs := s.refs - {r}, nodes := s.nodes - {p})
  }

  function Owing(owed: multiset<nat>, v: Option<nat>): multiset<nat> {
    if v.Some? then owed + multiset{v.value} else owed
  }

  lemma DropKeeps(s: State, k: Slot, open: set<Slot>, owed: multiset<nat>)
    requires Inv(s, open, owed) && k in s.slots
    ensures Inv(Drop(s, k), open + {k}, Owing(owed, s.slots[k]))
  {
    var s', open', owed' := Drop(s, k), open + {k}, Owing(owed, s.slots[k]);
    assert SlotOk(s, k);
    forall j ensures SlotOk(s', j) { assert SlotOk(s, j); }
    forall r ensures RefOk(s', r) { assert RefOk(s, r); }
    forall n ensures NodeOk(s', n, open') { assert NodeOk(s, n, open); }
    forall r ensures CountOk(s', r, owed') {
      assert CountOk(s, r, owed);
      HoldersDrop(s.slots, k, r);
    }
  }

  lemma PutKeeps(s: State, k: Slot, v: Option<nat>, open: set<Slot>, owed: multiset<nat>)
    requires Inv(s, open, Owing(owed, v)) && k !in s.slots && (k.Outside? || k.n in s.nodes)
    ensures Inv(Put(s, k, v), open - {k}, owed)
  {
    var s', open', owing := Put(s, k, v), open - {k}, Owing(owed, v);
    if v.Some? {
      assert CountOk(s, v.value, owing) && v.value in owing;
    }
    forall j ensures SlotOk(s', j) { assert SlotOk(s, j); }
    forall r ensures RefOk(s', r) { assert RefOk(s, r); }
    forall n ensures NodeOk(s', n, open') { assert NodeOk(s, n, open); }
    forall r ensures CountOk(s', r, owed) {
      assert CountOk(s, r, owing);
      HoldersPut(s.slots, k, v, r);
      assert r in owed ==> r in owing;
    }
  }

  /** Any change of a count that goes with what is owed. */
  lemma RecountKeeps(s: State, r: nat, count: nat, open: set<Slot>, owed: multiset<nat>, owed': multiset<nat>)
    requires Inv(s, open, owed) && r in s.refs
    requires owed + multiset{r} == owed' || owed == owed' + multiset{r}
    requires s.refs[r].count - owed[r] == count - owed'[r]
    ensures Inv(Recount(s, r, count), open, owed')
  {
    var s' := Recount(s, r, count);
    forall j ensures SlotOk(s', j) { assert SlotOk(s, j); }
    forall q ensures RefOk(s', q) { assert RefOk(s, q); }
    forall n ensures NodeOk(s', n, open) { assert NodeOk(s, n, open); }
    forall q ensures CountOk(s', q, owed') {
      assert CountOk(s, q, owed);
      assert q != r ==> owed[q] == owed'[q];
    }
  }

  lemma OwedIsCounted(s: State, r: nat, open: set<Slot>, owed: multiset<nat>)
    requires Inv(s, open, owed + multiset{r})
    ensures r in s.refs && s.refs[r].count > 0
    ensures Inv(Recount(s, r, s.refs[r].count - 1), open, owed)
  {
    assert CountOk(s, r, owed + multiset{r});
    RecountKeeps(s, r, s.refs[r].count - 1, open, owed + multiset{r}, owed);
  }

  lemma FreeKeeps(s: State, p: nat, r: nat, open: set<Slot>, owed: multiset<nat>)
    requires Inv(s, open + {Right(p)} + {Down(p)}, owed)
    requires r in s.refs && s.refs[r].ptr == p && s.refs[r].count == 0
    ensures Inv(Free(s, p, r), open, owed)
  {
    var s', open' := Free(s, p, r), open + {Right(p)} + {Down(p)};
    assert CountOk(s, r, owed) && RefOk(s, r);
    NoHolders(s.slots, r);
    assert Right(p) in open' && Down(p) in open';
    forall j ensures SlotOk(s', j) { assert SlotOk(s, j); }
    forall q ensures RefOk(s', q) { assert RefOk(s, q); }
    forall n ensures NodeOk(s', n, open) { assert NodeOk(s, n, open'); }
    forall q ensures CountOk(s', q, owed) { assert CountOk(s, q, owed); }
    forall k | k in open ensures k !in s'.slots { assert k in open'; }
  }

  lemma FreedJoins(a: State, b: State, c: State, f1: seq<nat>, f2: seq<nat>)
    requires Shrunk(a, b) && Shrunk(b, c) && FreedIn(a, b, f1) && FreedIn(b, c, f2)
    ensures FreedIn(a, c, f1 + f2)
  {
    var f := f1 + f2;
    forall n ensures n in f <==> n in a.nodes && n !in c.nodes {
      assert SameNode(a, b, n) && SameNode(b, c, n);
    }
    forall i, k | 0 <= i < |f| ensures Preceded(a, f, i, k) {
      if i < |f1| {
        assert Preceded(a, f1, i, k) && f[..i] == f1[..i];
      } else {
        assert f[..i] == f1 + f2[..i - |f1|] && f[i] in f2;
        assert Preceded(b, f2, i - |f1|, k) && SameNode(a, b, f[i]) && SameSlot(a, b, k);
      }
    }
  }

  lemma PrunedTransitive(a: State, b: State, c: State)
    requires Pruned(a, b) && Pruned(b, c)
    ensures Pruned(a, c)
  {
    forall n ensures SameNode(a, c, n) { assert SameNode(a, b, n) && SameNode(b, c, n); }
    forall r ensures SameRef(a, c, r) { assert SameRef(a, b, r) && SameRef(b, c, r); }
    forall k ensures SameSlot(a, c, k) {
      assert SameSlot(a, b, k) && SameSlot(b, c, k);
      if !k.Outside? {
        assert SameNode(b, c, k.n);
      }
    }
    var f1 :| FreedIn(a, b, f1);
    var f2 :| FreedIn(b, c, f2);
    FreedJoins(a, b, c, f1, f2);
  }

  lemma PrunedDrop(g: State, s: State, k: Slot)
    requires Pruned(g, s)
    ensures Pruned(Drop(g, k), Drop(s, k))
  {
    var g', s' := Drop(g, k), Drop(s, k);
    forall n ensures SameNode(g', s', n) { assert SameNode(g, s, n); }
    forall r ensures SameRef(g', s', r) { assert SameRef(g, s, r); }
    forall j ensures SameSlot(g', s', j) { assert SameSlot(g, s, j); }
    var f :| FreedIn(g, s, f);
    forall i, j | 0 <= i < |f| ensures Preceded(g', f, i, j) { assert Preceded(g, f, i, j); }
    assert FreedIn(g', s', f);
  }

  lemma PrunedRecount(s: State, r: nat, count: nat)
    requires r in s.refs
    ensures Pruned(s, Recount(s, r, count))
  {
    assert FreedIn(s, Recount(s, r, count), []);
  }

  /** A node that nothing holds goes first, before what hangs on its members. */
  lemma PrunedFree(g: State, s: State, p: nat, r: nat)
    requires Pruned(Drop(Drop(g, Right(p)), Down(p)), s)
    requires p in s.nodes && p in g.nodes && g.nodes[p] == Some(r) && Holders(g.slots, r) == 0
    ensures Pruned(g, Free(s, p, r))
  {
    var g', s' := Drop(Drop(g, Right(p)), Down(p)), Free(s, p, r);
    forall n ensures SameNode(g, s', n) { assert SameNode(g', s, n); }
    forall q ensures SameRef(g, s', q) { assert SameRef(g', s, q); }
    forall k ensures SameSlot(g, s', k) { assert SameSlot(g', s, k); }
    var f :| FreedIn(g', s, f);
    var first := [p] + f;
    NoHolders(g.slots, r);
    forall i, k | 0 <= i < |first| ensures Preceded(g, first, i, k) {
      if i > 0 {
        assert Preceded(g', f, i - 1, k) && first[..i] == [p] + f[..i - 1];
      }
    }
    assert FreedIn(g, s', first);
  }

  lemma ZeroedTransitive(a: State, b: State, c: State)
    requires NoneZeroed(a, b) && NoneZeroed(b, c)
    ensures NoneZeroed(a, c)
  {
    forall r ensures NotZeroed(a, c, r) { assert NotZeroed(b, c, r) && NotZeroed(a, b, r); }
  }

  lemma ZeroedAfterRecount(g: State, r: nat, s: State)
    requires r in g.refs && g.refs[r].count > 0 && r !in s.refs
    requires NoneZeroed(Recount(g, r, g.refs[r].count - 1), s)
    ensures NoneZeroed(g, s)
  {
    forall q ensures NotZeroed(g, s, q) { assert NotZeroed(Recount(g, r, g.refs[r].count - 1), s, q); }
  }

  lemma ZeroedAfterDrop(g: State, k: Slot, s: State)
    requires NoneZeroed(Drop(g, k), s)
    ensures NoneZeroed(g, s)
  {
    forall q ensures NotZeroed(g, s, q) { assert NotZeroed(Drop(g, k), s, q); }
  }

  /** One count less on an object: nothing else changes. */
  lemma CountGivenBack(s: State, r: nat, dying: set<nat>, open: set<Slot>, owed: multiset<nat>)
    requires Stage(s, dying, open, owed + multiset{r})
    ensures r in s.refs && s.refs[r].count > 0 && s.refs[r].ptr !in dying
    ensures Stage(Recount(s, r, s.refs[r].count - 1), dying, open, owed)
  {
    OwedIsCounted(s, r, open, owed);
    var s' := Recount(s, r, s.refs[r].count - 1);
    assert RefOk(s, r);
    assert s.refs[r].ptr in dying ==> DyingAt(s, s.refs[r].ptr);
    forall n | n in dying ensures DyingAt(s', n) {
      assert DyingAt(s, n);
    }
  }

  // The three stages of deleting counting object `r` and its node `p`.

  /** The members of a node that is about to die can be destroyed. */
  ghost predicate Ready(s: State, k: Slot, dying: set<nat>, open: set<Slot>, owed: multiset<nat>) {
    Stage(s, dying, open, owed) && k in s.slots && (k.Outside? || k.n in dying)
  }

  lemma RightReady(s: State, p: nat, r: nat, dying: set<nat>, open: set<Slot>, owed: multiset<nat>)
    requires Stage(s, dying, open, owed) && r in s.refs && s.refs[r].count == 0
    requires p == s.refs[r].ptr && p !in dying
    ensures p in s.nodes && s.nodes[p] == Some(r) && Holders(s.slots, r) == 0
    ensures Ready(s, Right(p), dying + {p}, open, owed)
  {
    assert CountOk(s, r, owed) && RefOk(s, r);
    assert NodeOk(s, p, open) && MemberOk(s, Right(p), open);
    forall n | n in dying + {p} ensures DyingAt(s, n) {
      assert n in dying ==> DyingAt(s, n);
    }
  }

  lemma DownReady(s: State, p: nat, dying: set<nat>, open: set<Slot>, owed: multiset<nat>)
    requires Stage(s, dying + {p}, open + {Right(p)}, owed) && p !in dying && Guarded(open, dying)
    ensures Ready(s, Down(p), dying + {p}, open + {Right(p)}, owed)
  {
    assert DyingAt(s, p) && NodeOk(s, p, open + {Right(p)}) && MemberOk(s, Down(p), open + {Right(p)});
  }

  /** What is dying stays so when another node is freed. */
  lemma FreeLeaves(s: State, p: nat, r: nat, dying: set<nat>, open: set<Slot>, owed: multiset<nat>)
    requires Inv(s, open, owed) && Dying(s, dying)
    requires p in s.nodes && s.nodes[p] == Some(r) && p !in dying
    ensures Dying(Free(s, p, r), dying)
  {
    forall n | n in dying ensures DyingAt(Free(s, p, r), n) {
      assert DyingAt(s, n) && NodeOk(s, n, open) && NodeOk(s, p, open);
    }
  }

  lemma NodeFreed(s0: State, s1: State, s2: State, p: nat, r: nat, dying: set<nat>, open: set<Slot>,
                  owed: multiset<nat>)
    requires CountOk(s0, r, owed) && p in s0.nodes && s0.nodes[p] == Some(r) && Holders(s0.slots, r) == 0
    requires r in s0.refs && s0.refs[r].count == 0 && p !in dying && Guarded(open, dying)
    requires Pruned(Drop(s0, Right(p)), s1) && NoneZeroed(s0, s1)
    requires Stage(s2, dying + {p}, open + {Right(p)} + {Down(p)}, owed)
    requires Pruned(Drop(s1, Down(p)), s2) && NoneZeroed(s1, s2)
    ensures r in s2.refs && Stage(Free(s2, p, r), dying, open, owed)
    ensures Pruned(s0, Free(s2, p, r)) && NoneZeroed(s0, Free(s2, p, r))
  {
    var g := Drop(Drop(s0, Right(p)), Down(p));
    var open' := open + {Right(p)} + {Down(p)};
    PrunedDrop(Drop(s0, Right(p)), s1, Down(p));
    PrunedTransitive(g, Drop(s1, Down(p)), s2);
    ZeroedTransitive(s0, s1, s2);
    assert DyingAt(s2, p) && SameNode(g, s2, p) && NodeOk(s2, p, open');
    FreeKeeps(s2, p, r, open, owed);
    PrunedFree(s0, s2, p, r);
    FreeLeaves(s2, p, r, dying, open', owed);
    forall q ensures NotZeroed(s0, Free(s2, p, r), q) { assert NotZeroed(s0, s2, q); }
  }

  // The states that the operations aim at.

  /** The counting object that a handle on `p` gets. */
  function RefOf(s: State, p: Option<nat>, address: nat): Option<nat>
    requires p.Some? ==> p.value in s.nodes
  {
    if p.None? then None else if s.nodes[p.value].Some? then s.nodes[p.value] else Some(address)
  }

  function Shared(s: State, v: Option<nat>): State {
    if v.Some? && v.value in s.refs then Recount(s, v.value, s.refs[v.value].count + 1) else s
  }

  function WithRef(s: State, p: Option<nat>, address: nat): State
    requires p.Some? ==> p.value in s.nodes
  {
    if p.None? then s
    else if s.nodes[p.value].Some? then Shared(s, s.nodes[p.value])
    else s.(refs := s.refs[address := AstRef(p.value, 1)], nodes := s.nodes[p.value := Some(address)])
  }

  function WithNode(s: State, n: nat): State {
    s.(nodes := s.nodes[n := None], slots := s.slots[Down(n) := None][Right(n) := None])
  }

  lemma SharedKeeps(s: State, v: Option<nat>, open: set<Slot>, owed: multiset<nat>)
    requires Inv(s, open, owed) && (v.Some? ==> v.value in s.refs)
    ensures Inv(Shared(s, v), open, Owing(owed, v))
  {
    if v.Some? {
      RecountKeeps(s, v.value, s.refs[v.value].count + 1, open, owed, owed + multiset{v.value});
    }
  }

  lemma FirstRefKeeps(s: State, n: nat, address: nat, open: set<Slot>, owed: multiset<nat>)
    requires Inv(s, open, owed) && n in s.nodes && s.nodes[n].None? && address !in s.refs
    ensures Inv(WithRef(s, Some(n), address), open, owed + multiset{address})
  {
    var s', owed' := WithRef(s, Some(n), address), owed + multiset{address};
    forall k ensures k !in Holding(s.slots, address) { assert SlotOk(s, k); }
    assert Holding(s.slots, address) == {};
    assert CountOk(s, address, owed);
    forall j ensures SlotOk(s', j) { assert SlotOk(s, j); }
    forall r ensures RefOk(s', r) { assert RefOk(s, r); }
    forall m ensures NodeOk(s', m, open) { assert NodeOk(s, m, open); }
    forall r ensures CountOk(s', r, owed') {
      assert CountOk(s, r, owed);
      assert r != address ==> owed'[r] == owed[r];
    }
  }

  lemma GetRefKeeps(s: State, p: Option<nat>, address: nat, open: set<Slot>, owed: multiset<nat>)
    requires Inv(s, open, owed) && address !in s.refs && (p.Some? ==> p.value in s.nodes)
    ensures p.Some? && s.nodes[p.value].Some? ==> s.nodes[p.value].value in s.refs
    ensures Inv(WithRef(s, p, address), open, Owing(owed, RefOf(s, p, address)))
  {
    if p.Some? {
      assert NodeOk(s, p.value, open);
      if s.nodes[p.value].Some? {
        SharedKeeps(s, s.nodes[p.value], open, owed);
      } else {
        FirstRefKeeps(s, p.value, address, open, owed);
      }
    }
  }

  lemma NewNodeKeeps(s: State, n: nat)
    requires Good(s) && n !in s.nodes
    ensures Good(WithNode(s, n))
  {
    var s' := WithNode(s, n);
    assert SlotOk(s, Down(n)) && SlotOk(s, Right(n));
    forall j ensures SlotOk(s', j) { assert SlotOk(s, j); }
    forall r ensures RefOk(s', r) { assert RefOk(s, r); }
    forall m ensures NodeOk(s', m, {}) { assert NodeOk(s, m, {}); }
    forall r ensures CountOk(s', r, multiset{}) {
      assert CountOk(s, r, multiset{});
      HoldersPut(s.slots, Down(n), None, r);
      HoldersPut(s.slots[Down(n) := None], Right(n), None, r);
    }
  }

  /** A handle outside is not a member, so nothing misses it. */
  lemma OutsideNeedNotReturn(s: State, h: nat)
    requires Inv(s, {} + {Outside(h)}, multiset{})
    ensures Inv(s, {}, multiset{})
  {
    forall n ensures NodeOk(s, n, {}) { assert NodeOk(s, n, {} + {Outside(h)}); }
  }

  // Writing a handle.

  /** The handle holds nothing. */
  function Cleared(s: State, k: Slot): State {
    Put(s, k, None)
  }

  lemma ClearKeeps(s: State, k: Slot, owed: multiset<nat>)
    requires Inv(s, {}, owed) && k in s.slots
    ensures Inv(Cleared(s, k), {}, Owing(owed, s.slots[k]))
  {
    DropKeeps(s, k, {}, owed);
    assert SlotOk(s, k);
    PutKeeps(Drop(s, k), k, None, {} + {k}, Owing(owed, s.slots[k]));
    assert Put(Drop(s, k), k, None) == Cleared(s, k) && {} + {k} - {k} == {};
  }

  /** A handle that holds nothing takes over a count that is owed. */
  lemma WriteKeeps(s: State, k: Slot, v: Option<nat>)
    requires Inv(s, {}, Owing(multiset{}, v)) && k in s.slots && s.slots[k] == None
    ensures Inv(Put(s, k, v), {}, multiset{})
  {
    DropKeeps(s, k, {}, Owing(multiset{}, v));
    assert SlotOk(s, k);
    PutKeeps(Drop(s, k), k, v, {} + {k}, multiset{});
    assert Put(Drop(s, k), k, v) == Put(s, k, v) && {} + {k} - {k} == {};
  }

  lemma PrunedPut(g: State, s: State, k: Slot, v: Option<nat>, owed: multiset<nat>)
    requires Pruned(Cleared(g, k), s) && Inv(Cleared(g, k), {}, owed) && k in s.slots
    requires v.Some? ==> v.value in s.refs && RefOk(s, v.value)
    ensures Pruned(Put(g, k, v), Put(s, k, v))
  {
    var g0, g', s' := Cleared(g, k), Put(g, k, v), Put(s, k, v);
    forall n ensures SameNode(g', s', n) { assert SameNode(g0, s, n); }
    forall r ensures SameRef(g', s', r) { assert SameRef(g0, s, r); }
    forall j ensures SameSlot(g', s', j) { assert SameSlot(g0, s, j); }
    var f :| FreedIn(g0, s, f);
    forall i, j | 0 <= i < |f| ensures Preceded(g', f, i, j) {
      assert Preceded(g0, f, i, j) && f[i] in f && NodeOk(g0, f[i], {});
      if v.Some? {
        var p := s.refs[v.value].ptr;
        assert SameNode(g0, s, p) && NodeOk(g0, p, {});
      }
    }
    assert FreedIn(g', s', f);
  }

  // Nodes that a cascade cannot free.

  ghost predicate AnchoredAt(s: State, ns: set<nat>, owed: multiset<nat>, n: nat) {
    && n in s.nodes
    && (s.nodes[n].Some? ==> s.nodes[n].value in owed || exists k :: Holds(s, k, n) && (k.Outside? || k.n in ns))
  }

  /** Each of these nodes has no counting object, or is owed a count, or is held from outside or by a
      member of one of them. */
  ghost predicate Anchored(s: State, ns: set<nat>, owed: multiset<nat>) {
    forall n {:trigger AnchoredAt(s, ns, owed, n)} :: n in ns ==> AnchoredAt(s, ns, owed, n)
  }

  /** The node is in some set of nodes that anchor each other. */
  ghost predicate Survives(s: State, owed: multiset<nat>, n: nat) {
    exists ns :: Anchored(s, ns, owed) && n in ns
  }

  /** A handle can be given `v`: that does not free the node whose member it is. */
  ghost predicate Assignable(s: State, k: Slot, v: Option<nat>) {
    k in s.slots && (k.Outside? || Survives(Cleared(s, k), Owing(multiset{}, v), k.n))
  }

  /** A node that is owed a count is not freed. */
  lemma OwedIsLive(g: State, s: State, owed: multiset<nat>, n: nat)
    requires Shrunk(g, s) && Inv(s, {}, owed) && n in g.nodes && NodeOk(g, n, {})
    requires g.nodes[n].Some? && g.nodes[n].value in owed
    ensures n in s.nodes
  {
    var r := g.nodes[n].value;
    assert CountOk(s, r, owed) && SameRef(g, s, r) && RefOk(s, r);
  }

  lemma {:induction false} AnchoredNotFreed(g: State, s: State, owed: multiset<nat>, f: seq<nat>, ns: set<nat>, i: nat)
    requires Shrunk(g, s) && FreedIn(g, s, f) && Anchored(g, ns, owed) && i < |f|
    requires Inv(s, {}, owed) && (owed == multiset{} || forall n :: NodeOk(g, n, {}))
    ensures f[i] !in ns
  {
    if f[i] in ns {
      assert AnchoredAt(g, ns, owed, f[i]) && f[i] in f && SameNode(g, s, f[i]);
      if g.nodes[f[i]].value in owed {
        OwedIsLive(g, s, owed, f[i]);
        assert false;
      }
      var k :| Holds(g, k, f[i]) && (k.Outside? || k.n in ns);
      assert Preceded(g, f, i, k) && (!k.Outside? ==> AnchoredAt(g, ns, owed, k.n));
      var j :| 0 <= j < i && f[j] == k.n;
      AnchoredNotFreed(g, s, owed, f, ns, j);
    }
  }

  lemma AnchoredStays(g: State, s: State, owed: multiset<nat>, ns: set<nat>)
    requires Pruned(g, s) && Anchored(g, ns, owed) && Inv(s, {}, owed)
    requires owed == multiset{} || forall n :: NodeOk(g, n, {})
    ensures forall n :: n in ns ==> n in s.nodes
  {
    var f :| FreedIn(g, s, f);
    forall n | n in ns ensures n in s.nodes {
      assert AnchoredAt(g, ns, owed, n);
      if n in f {
        var i :| 0 <= i < |f| && f[i] == n;
        AnchoredNotFreed(g, s, owed, f, ns, i);
      }
    }
  }

  /** A live node with a counting object is held by someone, or owed a count. */
  lemma SomeoneHolds(g: State, s: State, owed: multiset<nat>, n: nat) returns (k: Slot)
    requires Pruned(g, s) && Inv(s, {}, owed) && NoZero(s)
    requires n in s.nodes && s.nodes[n].Some? && s.nodes[n].value !in owed
    ensures Holds(g, k, n) && (k.Outside? || k.n in s.nodes)
  {
    var r := s.nodes[n].value;
    assert NodeOk(s, n, {}) && CountOk(s, r, owed) && SameNode(g, s, n);
    assert Holding(s.slots, r) != {};
    k :| k in Holding(s.slots, r);
    assert SlotOk(s, k) && SameSlot(g, s, k);
  }

  lemma LiveAreAnchored(g: State, s: State, owed: multiset<nat>)
    requires Pruned(g, s) && Inv(s, {}, owed) && NoZero(s)
    ensures Anchored(g, s.nodes.Keys, owed)
  {
    forall n | n in s.nodes ensures AnchoredAt(g, s.nodes.Keys, owed, n) {
      assert SameNode(g, s, n);
      if s.nodes[n].Some? && s.nodes[n].value !in owed {
        var k := SomeoneHolds(g, s, owed, n);
      }
    }
  }

  /** A cascade leaves exactly the nodes that anchor each other, or are anchored by what is owed. */
  lemma SurvivorsExactly(g: State, s: State, owed: multiset<nat>)
    requires Pruned(g, s) && Inv(s, {}, owed) && NoZero(s)
    requires owed == multiset{} || forall n :: NodeOk(g, n, {})
    ensures forall n :: n in g.nodes ==> (n in s.nodes <==> Survives(g, owed, n))
  {
    LiveAreAnchored(g, s, owed);
    forall n | n in g.nodes && Survives(g, owed, n) ensures n in s.nodes {
      var ns :| Anchored(g, ns, owed) && n in ns;
      AnchoredStays(g, s, owed, ns);
    }
  }

  /** The handle is still there to be written exactly if it was assignable. */
  lemma WrittenExactly(g: State, s: State, k: Slot, v: Option<nat>, owed: multiset<nat>)
    requires k in g.slots && SlotOk(g, k) && Inv(Cleared(g, k), {}, owed) && Pruned(Cleared(g, k), s)
    requires Inv(s, {}, Owing(multiset{}, v)) && NoZero(s)
    ensures k in s.slots <==> Assignable(g, k, v)
    ensures k in s.slots ==> s.slots[k] == None
    ensures k !in s.slots ==> !k.Outside? && k.n !in s.nodes
  {
    SurvivorsExactly(Cleared(g, k), s, Owing(multiset{}, v));
    assert SlotOk(s, k) && SameSlot(Cleared(g, k), s, k);
  }

  lemma SharedAssignable(s: State, k: Slot, v: Option<nat>)
    ensures Assignable(Shared(s, v), k, v) <==> Assignable(s, k, v)
  {
    var owed := Owing(multiset{}, v);
    forall ns ensures Anchored(Cleared(s, k), ns, owed) <==> Anchored(Cleared(Shared(s, v), k), ns, owed) {
      AnchoredAlike(Cleared(s, k), Cleared(Shared(s, v), k), ns, owed);
      AnchoredAlike(Cleared(Shared(s, v), k), Cleared(s, k), ns, owed);
    }
  }

  lemma AnchoredAlike(s: State, s': State, ns: set<nat>, owed: multiset<nat>)
    requires s'.nodes == s.nodes && s'.slots == s.slots
    ensures Anchored(s, ns, owed) ==> Anchored(s', ns, owed)
  {
    if Anchored(s, ns, owed) {
      forall n | n in ns ensures AnchoredAt(s', ns, owed, n) {
        assert AnchoredAt(s, ns, owed, n);
        if s.nodes[n].Some? && s.nodes[n].value !in owed {
          var k :| Holds(s, k, n) && (k.Outside? || k.n in ns);
          assert Holds(s', k, n);
        }
      }
    }
  }

  /** The write came too late: the old value is gone and the handle's node with it, and the count taken
      for `v` will never be given back. */
  ghost predicate Struck(g: State, s: State, k: Slot, v: Option<nat>) {
    && Pruned(Cleared(g, k), s) && Inv(s, {}, Owing(multiset{}, v)) && NoZero(s)
    && !k.Outside? && k.n !in s.nodes && k !in s.slots
  }

  /** The handle is on this node, or on none. */
  ghost predicate IsOn(s: State, k: Slot, p: Option<nat>) {
    k in s.slots && if p.None? then s.slots[k] == None else Holds(s, k, p.value)
  }

  /** A node that has a counting object keeps it, and gets no other. */
  ghost predicate KeepsRef(s: State, t: State, p: Option<nat>) {
    p.Some? && p.value in s.nodes && s.nodes[p.value].Some? && p.value in t.nodes ==>
      t.nodes[p.value] == s.nodes[p.value]
  }

  lemma HandleIsOn(s: State, k: Slot, p: Option<nat>, address: nat)
    requires p.Some? ==> p.value in s.nodes
    ensures var t := Put(WithRef(s, p, address), k, RefOf(s, p, address));
            IsOn(t, k, p) && KeepsRef(s, t, p)
  {
  }

  /** A cascade does not free what a handle that is left is on. */
  lemma StillOn(g: State, s: State, k: Slot, p: Option<nat>)
    requires Pruned(g, s) && Good(s) && IsOn(g, k, p) && k in s.slots && (p.Some? ==> NodeOk(g, p.value, {}))
    ensures IsOn(s, k, p) && KeepsRef(g, s, p)
  {
    assert SameSlot(g, s, k) && SlotOk(s, k);
    if p.Some? {
      var r := g.slots[k].value;
      assert RefOk(s, r) && SameRef(g, s, r);
    }
  }

  lemma SlotsShrink(g: State, s: State)
    requires Shrunk(g, s)
    ensures s.slots.Keys <= g.slots.Keys
  {
    forall k | k in s.slots ensures k in g.slots { assert SameSlot(g, s, k); }
  }

  class Memory {
    var refs: map<nat, AstRef>
    var nodes: map<nat, Option<nat>>
    var slots: map<Slot, Option<nat>>

    ghost function St(): State
      reads this
    {
      State(refs, nodes, slots)
    }

    constructor ()
      ensures St() == State(map[], map[], map[]) && Good(St())
    {
      refs, nodes, slots := map[], map[], map[];
    }

    /** Gives back one count; the last one deletes. */
    method Release(r: nat, ghost dying: set<nat>, ghost open: set<Slot>, ghost owed: multiset<nat>)
      requires Stage(St(), dying, open, owed + multiset{r})
      modifies this
      ensures Stage(St(), dying, open, owed) && Pruned(old(St()), St()) && NoneZeroed(old(St()), St())
      decreases slots.Keys, 2
    {
      ghost var s0 := St();
      CountGivenBack(s0, r, dying, open, owed);
      refs := refs[r := refs[r].(count := refs[r].count - 1)];
      ghost var s1 := Recount(s0, r, s0.refs[r].count - 1);
      PrunedRecount(s0, r, s0.refs[r].count - 1);
      if refs[r].count == 0 {
        DeleteRef(r, dying, open, owed);
        PrunedTransitive(s0, s1, St());
        ZeroedAfterRecount(s0, r, St());
      }
    }

    /** Deletes the object and its node: the members go first, `right` before `down`. */
    method DeleteRef(r: nat, ghost dying: set<nat>, ghost open: set<Slot>, ghost owed: multiset<nat>)
      requires Stage(St(), dying, open, owed)
      requires r in refs && refs[r].count == 0 && refs[r].ptr !in dying
      modifies this
      ensures Stage(St(), dying, open, owed) && Pruned(old(St()), St()) && NoneZeroed(old(St()), St())
      ensures r !in refs
      decreases slots.Keys, 1
    {
      var p := refs[r].ptr;
      ghost var s0 := St();
      RightReady(s0, p, r, dying, open, owed);
      DestroyMember(Right(p), dying + {p}, open, owed);
      ghost var s1 := St();
      DownReady(s1, p, dying, open, owed);
      SlotsShrink(Drop(s0, Right(p)), s1);
      DestroyMember(Down(p), dying + {p}, open + {Right(p)}, owed);
      assert CountOk(s0, r, owed);
      NodeFreed(s0, s1, St(), p, r, dying, open, owed);
      nodes := nodes - {p};
      refs := refs - {r};
    }

    /** The destructor of a handle that is a member of a dying node, or of one outside. */
    method DestroyMember(k: Slot, ghost dying: set<nat>, ghost open: set<Slot>, ghost owed: multiset<nat>)
      requires Ready(St(), k, dying, open, owed)
      modifies this
      ensures Stage(St(), dying, open + {k}, owed)
      ensures Pruned(Drop(old(St()), k), St()) && NoneZeroed(old(St()), St())
      decreases slots.Keys, 0
    {
      var v := slots[k];
      ghost var s0 := St();
      DropKeeps(s0, k, open, owed);
      assert SlotOk(s0, k);
      forall n | n in dying ensures DyingAt(Drop(s0, k), n) { assert DyingAt(s0, n); }
      slots := slots - {k};
      if v.Some? {
        Release(v.value, dying, open + {k}, owed);
      } else {
        assert FreedIn(Drop(s0, k), St(), []);
      }
      ZeroedAfterDrop(s0, k, St());
    }

    /** What `getRef` does: the node's counting object gains a count, or the node gets one. */
    method GetRef(p: Option<nat>, address: nat, ghost open: set<Slot>, ghost owed: multiset<nat>)
      returns (v: Option<nat>)
      requires Inv(St(), open, owed) && address !in refs && (p.Some? ==> p.value in nodes)
      modifies this
      ensures St() == WithRef(old(St()), p, address) && v == RefOf(old(St()), p, address)
      ensures Inv(St(), open, Owing(owed, v))
      ensures p.Some? <==> v.Some?
      ensures p.Some? ==> p.value in nodes && nodes[p.value] == v && KeepsRef(old(St()), St(), p)
    {
      GetRefKeeps(St(), p, address, open, owed);
      if p.None? {
        v := None;
      } else {
        v := nodes[p.value];
        if v.Some? {
          refs := refs[v.value := refs[v.value].(count := refs[v.value].count + 1)];
        } else {
          refs := refs[address := AstRef(p.value, 1)];
          nodes := nodes[p.value := Some(address)];
          v := Some(address);
        }
      }
    }

    /** A node is created by its owner-to-be through a raw pointer; its members start out null. */
    method NewNode(n: nat)
      requires Good(St()) && n !in nodes
      modifies this
      ensures Good(St()) && St() == WithNode(old(St()), n)
    {
      NewNodeKeeps(St(), n);
      nodes := nodes[n := None];
      slots := slots[Down(n) := None][Right(n) := None];
    }

    method Construct(h: nat, p: Option<nat>, address: nat)
      requires Good(St()) && Outside(h) !in slots && address !in refs && (p.Some? ==> p.value in nodes)
      modifies this
      ensures Good(St())
      ensures St() == Put(WithRef(old(St()), p, address), Outside(h), RefOf(old(St()), p, address))
      ensures IsOn(St(), Outside(h), p) && KeepsRef(old(St()), St(), p)
    {
      HandleIsOn(St(), Outside(h), p, address);
      var v := GetRef(p, address, {}, multiset{});
      PutKeeps(St(), Outside(h), v, {}, multiset{});
      assert {} - {Outside(h)} == {};
      slots := slots[Outside(h) := v];
    }

    method Copy(h: nat, from: Slot)
      requires Good(St()) && Outside(h) !in slots && from in slots
      modifies this
      ensures Good(St())
      ensures St() == Put(Shared(old(St()), old(slots)[from]), Outside(h), old(slots)[from])
    {
      var v := slots[from];
      assert SlotOk(St(), from);
      SharedKeeps(St(), v, {}, multiset{});
      if v.Some? {
        refs := refs[v.value := refs[v.value].(count := refs[v.value].count + 1)];
      }
      PutKeeps(St(), Outside(h), v, {}, multiset{});
      assert {} - {Outside(h)} == {};
      slots := slots[Outside(h) := v];
    }

    /** The end of a handle outside.  What that frees is said in `AstFreed`. */
    method Destroy(h: nat)
      requires Good(St()) && Outside(h) in slots
      modifies this
      ensures Good(St()) && Pruned(Drop(old(St()), Outside(h)), St())
    {
      ghost var s0 := St();
      DestroyMember(Outside(h), {}, {}, multiset{});
      OutsideNeedNotReturn(St(), h);
      assert forall r :: r in refs ==> NotZeroed(s0, St(), r);
    }

    /** Gives the old object's count back and stores `v`, which is owed.  While the old object goes, the
        handle counts for nothing: its own destructor would find a count of 0 and delete nothing.  If its
        node goes as well, the write hits freed memory; that is a fault. */
    method Swap(k: Slot, v: Option<nat>) returns (fault: bool)
      requires Inv(St(), {}, Owing(multiset{}, v)) && NoZero(St()) && k in slots
      modifies this
      ensures fault <==> !Assignable(old(St()), k, v)
      ensures !fault ==> Good(St()) && Pruned(Put(old(St()), k, v), St()) && k in slots
      ensures fault ==> Struck(old(St()), St(), k, v)
    {
      var was := slots[k];
      ghost var s0, owed := St(), Owing(multiset{}, v);
      assert SlotOk(s0, k);
      ClearKeeps(s0, k, owed);
      slots := slots[k := None];
      if was.Some? {
        Release(was.value, {}, {}, owed);
      } else {
        assert FreedIn(Cleared(s0, k), St(), []);
      }
      ghost var s1 := St();
      assert forall r :: r in refs ==> NotZeroed(Cleared(s0, k), s1, r);
      WrittenExactly(s0, s1, k, v, Owing(owed, was));
      fault := k !in slots;
      if !fault {
        WriteKeeps(s1, k, v);
        if v.Some? {
          assert CountOk(s1, v.value, owed) && v.value in owed && RefOk(s1, v.value);
        }
        PrunedPut(s0, s1, k, v, Owing(owed, was));
        slots := slots[k := v];
      }
    }

    /** Assignment from a raw pointer.  The new object is counted before the old one is given back. */
    method AssignRaw(k: Slot, p: Option<nat>, address: nat) returns (fault: bool)
      requires Good(St()) && k in slots && address !in refs && (p.Some? ==> p.value in nodes)
      modifies this
      ensures var g, v := WithRef(old(St()), p, address), RefOf(old(St()), p, address);
              && (fault <==> !Assignable(g, k, v))
              && (!fault ==> Good(St()) && Pruned(Put(g, k, v), St()))
              && (fault ==> Struck(g, St(), k, v))
      ensures !fault ==> IsOn(St(), k, p) && KeepsRef(old(St()), St(), p)
    {
      ghost var s0 := St();
      HandleIsOn(s0, k, p, address);
      var v := GetRef(p, address, {}, multiset{});
      ghost var g := St();
      fault := Swap(k, v);
      if !fault {
        assert p.Some? ==> NodeOk(g, p.value, {});
        StillOn(Put(g, k, v), St(), k, p);
      }
    }

    /** Assignment from a handle; assigning what is already held does nothing. */
    method Assign(k: Slot, other: Slot) returns (fault: bool)
      requires Good(St()) && k in slots && other in slots
      modifies this
      ensures var g, v := Shared(old(St()), old(slots)[other]), old(slots)[other];
              if v == old(slots)[k] then !fault && St() == old(St())
              else
                && (fault <==> !Assignable(old(St()), k, v))
                && (!fault ==> Good(St()) && Pruned(Put(g, k, v), St()))
                && (fault ==> Struck(g, St(), k, v))
    {
      var v := slots[other];
      fault := false;
      if v != slots[k] {
        ghost var s0 := St();
        assert SlotOk(s0, other);
        SharedKeeps(s0, v, {}, multiset{});
        SharedAssignable(s0, k, v);
        if v.Some? {
          refs := refs[v.value := refs[v.value].(count := refs[v.value].count + 1)];
        }
        fault := Swap(k, v);
      }
    }

    /** A handle never dangles: what it gives is a live node. */
    method Get(k: Slot) returns (p: Option<nat>)
      requires Good(St()) && k in slots
      ensures p.Some? <==> slots[k].Some?
      ensures p.Some? ==> p.value in nodes && nodes[p.value] == slots[k]
    {
      assert SlotOk(St(), k);
      p := None;
      if slots[k].Some? {
        assert RefOk(St(), slots[k].value);
        p := Some(refs[slots[k].value].ptr);
      }
    }
  }
}
