/** The printed source-NAT configuration against the rules it was compiled from. */
module NatMeaning {
  import opened NatRules
  import opened NatMerge
  import opened StaticMerge
  import opened NatConfig

  /** What the rules ask for, one by one. */
  ghost predicate Wanted(rs: seq<SnatRule>, m: Match, out: int, key: PoolKey) {
    exists k :: 0 <= k < |rs| && rs[k].m == m && rs[k].out.id == out && KeyOf(rs[k].tAddr) == key
  }

  ghost predicate WantedAs(rs: seq<SnatRule>, m: Match, out: int, text: PoolText) {
    exists k :: 0 <= k < |rs| && rs[k].m == m && rs[k].out.id == out && IsSpelled(rs[k], text)
  }

  ghost predicate WantedTo(rs: seq<SnatRule>, m: Match, out: int, key: PoolKey, text: PoolText) {
    exists k :: 0 <= k < |rs| && rs[k].m == m && rs[k].out.id == out &&
                KeyOf(rs[k].tAddr) == key && IsSpelled(rs[k], text)
  }

  /** A later command takes over the list of command `j`, so `j` prints no `nat` line. */
  ghost predicate HandsOver(rs: seq<SnatRule>, j: nat)
    requires j < |rs|
  {
    exists m :: j < m < |rs| && Joins(rs, j, m)
  }

  ghost predicate PrintsNat(rs: seq<SnatRule>, l: nat)
    requires l < |rs|
  {
    !Repeats(rs, l) && !rs[l].natNet && !HandsOver(rs, l)
  }

  /** Some `nat` line binds the list command `k` writes to. */
  ghost predicate Bound(rs: seq<SnatRule>, k: nat)
    requires k < |rs|
  {
    rs[k].natNet || exists l :: 0 <= l < |rs| && PrintsNat(rs, l) && Root(rs, l) == Root(rs, k)
  }

  ghost predicate AllDistinct<T(!new)>(names: seq<T>) {
    forall i, j :: 0 <= i < j < |names| ==> names[i] != names[j]
  }

  // ---- Lists ----

  lemma {:induction false} RootFacts(rs: seq<SnatRule>, k: nat)
    requires k < |rs|
    ensures var r := Root(rs, k);
            && Connected(rs, |rs|, r, k)
            && rs[r].m.iface == rs[k].m.iface && rs[r].tAddr == rs[k].tAddr
            && (r != k ==> !Repeats(rs, r) && !rs[r].natNet && !rs[k].natNet)
  {
    var j := Parent(rs, k);
    if j < 0 {
      ConnectedLink(rs, |rs|, k, k);
    } else {
      RootFacts(rs, j);
      assert Joins(rs, j, k);
      ConnectedMonotone(rs, k + 1, |rs|, j, k);
      ConnectedTransitive(rs, |rs|, Root(rs, k), j, k);
    }
  }

  /** Commands in one list serve one interface and share one translation id. */
  lemma OneList(rs: seq<SnatRule>, k: nat, l: nat)
    requires k < |rs| && l < |rs| && Root(rs, k) == Root(rs, l)
    ensures Connected(rs, |rs|, k, l) && rs[k].m.iface == rs[l].m.iface
  {
    RootFacts(rs, k);
    RootFacts(rs, l);
    ConnectedSymmetric(rs, |rs|, Root(rs, k), k);
    ConnectedTransitive(rs, |rs|, k, Root(rs, k), l);
  }

  // ---- The device, in terms of rules ----

  /** The state of the whole compilation: merged commands, printed in order, read by a device. */
  ghost predicate Compiled(rs: seq<SnatRule>, names: seq<AclName>, s: seq<Cmd>, t: seq<StaticState>,
                           flags: Flags, subst: bool, d: Device) {
    && (forall r :: r in rs ==> WellFormed(r))
    && AllDistinct(names)
    && Merged(rs, names, s)
    && Reflects(d, s, |s|, t, |t|, flags, subst)
  }

  /** Some bound command with translation id `id` selects `m`. */
  ghost predicate Selected(rs: seq<SnatRule>, s: seq<Cmd>, m: Match, id: int)
    requires |s| == |rs|
  {
    exists k :: 0 <= k < |rs| && !Repeats(rs, k) && rs[k].m == m && Bound(rs, k) && s[k].natId == id
  }

  /** Some command with translation id `id` translates to pool `key` on `out`. */
  ghost predicate Pooled(rs: seq<SnatRule>, s: seq<Cmd>, out: int, key: PoolKey, id: int)
    requires |s| == |rs|
  {
    exists j :: 0 <= j < |rs| && rs[j].out.id == out && KeyOf(rs[j].tAddr) == key && s[j].natId == id
  }

  lemma SelectsMeaning(rs: seq<SnatRule>, names: seq<AclName>, s: seq<Cmd>, t: seq<StaticState>,
                       flags: Flags, subst: bool, d: Device, m: Match, id: int)
    requires Compiled(rs, names, s, t, flags, subst, d)
    ensures Selects(d, m, id) <==>
              Selected(rs, s, m, id)
  {
    if Selects(d, m, id) {
      if name :| NatList(m.iface, id, name) in d.commands && NatEntry(m.src, m.dst, m.srv) in Entries(d, name) {
        SelectedByList(rs, names, s, t, flags, subst, d, m, id, name);
      } else {
        var i :| 0 <= i < |s| && CommandFromSnat(s[i], NatNet(m.iface, id, m.src));
        MergedAt(rs, names, s, i);
        assert rs[i] in rs;
        assert rs[i].m == m;
      }
    }
    forall k | 0 <= k < |rs| && !Repeats(rs, k) && rs[k].m == m && Bound(rs, k) && s[k].natId == id
      ensures Selects(d, m, id)
    {
      BoundSelects(rs, names, s, t, flags, subst, d, k);
    }
  }

  lemma SelectedByList(rs: seq<SnatRule>, names: seq<AclName>, s: seq<Cmd>, t: seq<StaticState>,
                       flags: Flags, subst: bool, d: Device, m: Match, id: int, name: AclName)
    requires Compiled(rs, names, s, t, flags, subst, d)
    requires NatList(m.iface, id, name) in d.commands && NatEntry(m.src, m.dst, m.srv) in Entries(d, name)
    ensures Selected(rs, s, m, id)
  {
    var l :| 0 <= l < |s| && CommandFromSnat(s[l], NatList(m.iface, id, name));
    var k :| 0 <= k < |s| && UsesList(s[k]) && s[k].aclName == name &&
             NatEntry(m.src, m.dst, m.srv) == NatEntryOf(s[k].rule);
    MergedAt(rs, names, s, k);
    MergedAt(rs, names, s, l);
    assert names[Root(rs, k)] == names[Root(rs, l)];
    OneList(rs, k, l);
    SameId(rs, names, s, k, l);
    assert PrintsNat(rs, l);
    assert Bound(rs, k) && rs[k].m == m;
  }

  lemma BoundSelects(rs: seq<SnatRule>, names: seq<AclName>, s: seq<Cmd>, t: seq<StaticState>,
                     flags: Flags, subst: bool, d: Device, k: nat)
    requires Compiled(rs, names, s, t, flags, subst, d)
    requires k < |rs| && !Repeats(rs, k) && Bound(rs, k)
    ensures Selects(d, rs[k].m, s[k].natId)
  {
    var m := rs[k].m;
    MergedAt(rs, names, s, k);
    if rs[k].natNet {
      assert rs[k] in rs;
      assert CommandFromSnat(s[k], NatNet(m.iface, s[k].natId, m.src));
    } else {
      var l :| 0 <= l < |rs| && PrintsNat(rs, l) && Root(rs, l) == Root(rs, k);
      OneList(rs, k, l);
      MergedAt(rs, names, s, l);
      SameId(rs, names, s, k, l);
      assert CommandFromSnat(s[l], NatList(m.iface, s[k].natId, s[k].aclName));
      assert UsesList(s[k]) && NatEntry(m.src, m.dst, m.srv) == NatEntryOf(s[k].rule);
    }
  }

  /** The first rule with the pool of rule `j`: the one whose `global` is printed. */
  lemma {:induction false} FirstWithPool(rs: seq<SnatRule>, j: nat) returns (i: nat)
    requires j < |rs|
    ensures i <= j && SamePool(rs[i], rs[j]) && !SharesPool(rs, i)
  {
    i := j;
    if SharesPool(rs, j) {
      i :| 0 <= i < j && SamePool(rs[i], rs[j]);
      i := FirstWithPool(rs, i);
    }
  }

  lemma GlobalMeaning(rs: seq<SnatRule>, names: seq<AclName>, s: seq<Cmd>, t: seq<StaticState>,
                      flags: Flags, subst: bool, d: Device, out: int, id: int, key: PoolKey)
    requires Compiled(rs, names, s, t, flags, subst, d)
    ensures (exists text :: Global(out, id, key, text) in d.commands) <==>
              Pooled(rs, s, out, key, id)
  {
    if text :| Global(out, id, key, text) in d.commands {
      var i :| 0 <= i < |s| && CommandFromSnat(s[i], Global(out, id, key, text));
      MergedAt(rs, names, s, i);
    }
    forall j: nat | j < |rs| && rs[j].out.id == out && KeyOf(rs[j].tAddr) == key && s[j].natId == id
      ensures exists text :: Global(out, id, key, text) in d.commands
    {
      var i := FirstWithPool(rs, j);
      ConnectedLink(rs, |rs|, i, j);
      MergedAt(rs, names, s, i);
      SameId(rs, names, s, i, j);
      assert CommandFromSnat(s[i], GlobalOf(s[i]));
    }
  }

  /** Command `k` selects `m` and has been joined with command `j`'s pool. */
  ghost predicate ReachesBy(rs: seq<SnatRule>, m: Match, out: int, key: PoolKey, k: int, j: int) {
    && 0 <= k < |rs| && 0 <= j < |rs|
    && !Repeats(rs, k) && rs[k].m == m && Bound(rs, k)
    && rs[j].out.id == out && KeyOf(rs[j].tAddr) == key
    && Connected(rs, |rs|, j, k)
  }

  /** What the firewall does, in terms of the rules alone. */
  ghost predicate Reaches(rs: seq<SnatRule>, m: Match, out: int, key: PoolKey) {
    exists k, j :: ReachesBy(rs, m, out, key, k, j)
  }

  lemma IdsMeaning(rs: seq<SnatRule>, s: seq<Cmd>, m: Match, out: int, key: PoolKey)
    requires |s| == |rs| && IdsUpTo(rs, Ids(s), |rs|)
    ensures Reaches(rs, m, out, key) <==>
              exists id :: Selected(rs, s, m, id) && Pooled(rs, s, out, key, id)
  {
    if k, j :| ReachesBy(rs, m, out, key, k, j) {
      EqualIds(rs, Ids(s), |rs|, j, k);
      assert Selected(rs, s, m, s[k].natId) && Pooled(rs, s, out, key, s[k].natId);
    }
    if id :| Selected(rs, s, m, id) && Pooled(rs, s, out, key, id) {
      var k :| 0 <= k < |rs| && !Repeats(rs, k) && rs[k].m == m && Bound(rs, k) && s[k].natId == id;
      var j :| 0 <= j < |rs| && rs[j].out.id == out && KeyOf(rs[j].tAddr) == key && s[j].natId == id;
      EqualIds(rs, Ids(s), |rs|, j, k);
      assert ReachesBy(rs, m, out, key, k, j);
    }
  }

  lemma Meaning(rs: seq<SnatRule>, names: seq<AclName>, s: seq<Cmd>, t: seq<StaticState>,
                flags: Flags, subst: bool, d: Device, m: Match, out: int, key: PoolKey)
    requires Compiled(rs, names, s, t, flags, subst, d)
    ensures Translates(d, m, out, key) <==> Reaches(rs, m, out, key)
  {
    IdsMeaning(rs, s, m, out, key);
    forall id
      ensures Selects(d, m, id) <==> Selected(rs, s, m, id)
      ensures (exists text :: Global(out, id, key, text) in d.commands) <==> Pooled(rs, s, out, key, id)
    {
      SelectsMeaning(rs, names, s, t, flags, subst, d, m, id);
      GlobalMeaning(rs, names, s, t, flags, subst, d, out, id, key);
    }
  }

  // ---- When it is exactly what was asked for ----

  /** Wherever `i` shares a pool with `j` and `j` a match with `l`, some rule has the match of `i`
      and the pool of `l`: joining pools adds no translation that was not asked for. */
  ghost predicate Rectangular(rs: seq<SnatRule>) {
    forall i, j, l :: && 0 <= i < |rs| && 0 <= j < |rs| && 0 <= l < |rs|
                      && SamePool(rs[i], rs[j]) && SameMatch(rs[j], rs[l])
      ==> Corner(rs, i, l)
  }

  /** Some rule has the match of `i` and the pool of `l`. */
  ghost predicate Corner(rs: seq<SnatRule>, i: nat, l: nat)
    requires i < |rs| && l < |rs|
  {
    exists r :: 0 <= r < |rs| && SameMatch(rs[r], rs[i]) && SamePool(rs[r], rs[l])
  }

  /** Every list that is handed over is handed to a command that prints it: one that is not itself
      silenced because it repeats an earlier match. */
  ghost predicate ListsSurvive(rs: seq<SnatRule>) {
    forall j :: 0 <= j < |rs| && HandsOver(rs, j) ==> exists k :: HasHeir(rs, j, k)
  }

  ghost predicate HasHeir(rs: seq<SnatRule>, j: int, k: int) {
    0 <= j < k < |rs| && !Repeats(rs, k) && Parent(rs, k) == j
  }

  lemma {:induction false} RectangleAlongChain(rs: seq<SnatRule>, p: seq<nat>)
    requires Rectangular(rs) && IsChain(rs, |rs|, p)
    ensures Corner(rs, p[0], p[|p| - 1])
  {
    if |p| > 1 {
      var q := p[..|p| - 1];
      assert IsChain(rs, |rs|, q);
      RectangleAlongChain(rs, q);
      var i, j, l := p[0], p[|p| - 2], p[|p| - 1];
      assert Linked(rs[p[|p| - 2]], rs[p[|p| - 2 + 1]]);
      var r :| 0 <= r < |rs| && SameMatch(rs[r], rs[i]) && SamePool(rs[r], rs[j]);
      if !SamePool(rs[j], rs[l]) {
        assert Corner(rs, r, l);
      }
    } else {
      assert SameMatch(rs[p[0]], rs[p[0]]) && SamePool(rs[p[0]], rs[p[0]]);
    }
  }

  /** Closed under one step is closed along every chain. */
  lemma RectangularMeansConnected(rs: seq<SnatRule>)
    ensures Rectangular(rs) <==>
              forall i, l :: 0 <= i < |rs| && 0 <= l < |rs| && Connected(rs, |rs|, i, l) ==> Corner(rs, i, l)
  {
    if Rectangular(rs) {
      forall i: nat, l: nat | i < |rs| && l < |rs| && Connected(rs, |rs|, i, l)
        ensures Corner(rs, i, l)
      {
        var p :| IsChain(rs, |rs|, p) && p[0] == i && p[|p| - 1] == l;
        RectangleAlongChain(rs, p);
      }
    } else {
      var i, j, l :| && 0 <= i < |rs| && 0 <= j < |rs| && 0 <= l < |rs|
                     && SamePool(rs[i], rs[j]) && SameMatch(rs[j], rs[l]) && !Corner(rs, i, l);
      ConnectedLink(rs, |rs|, i, j);
      ConnectedLink(rs, |rs|, j, l);
      ConnectedTransitive(rs, |rs|, i, j, l);
    }
  }

  /** A list is never handed on twice: the later taker takes it from the earlier one. */
  lemma JoinsMeet(rs: seq<SnatRule>, p: nat, c: nat, b: nat)
    requires c < b < |rs| && !Repeats(rs, c) && Joins(rs, p, b) && Joins(rs, p, c)
    ensures Joins(rs, c, b)
  {
    ConnectedMonotone(rs, c + 1, b + 1, p, c);
    ConnectedSymmetric(rs, b + 1, p, c);
    ConnectedTransitive(rs, b + 1, c, p, b);
  }

  /** Of two printing commands in one list, the list was handed on from the earlier one. */
  lemma {:induction false} Heir(rs: seq<SnatRule>, a: nat, b: nat) returns (c: nat)
    requires a < b < |rs| && !Repeats(rs, a) && !Repeats(rs, b) && Root(rs, a) == Root(rs, b)
    ensures a < c <= b && HasHeir(rs, a, c)
    decreases b
  {
    var p := Parent(rs, b);
    assert p >= 0;
    if p == a {
      c := b;
    } else if p > a {
      c := Heir(rs, a, p);
    } else {
      c := Heir(rs, p, a);
      JoinsMeet(rs, p, c, b);
      assert false;
    }
  }

  lemma {:induction false} SurvivingIsBound(rs: seq<SnatRule>, k: nat)
    requires k < |rs| && ListsSurvive(rs) && !Repeats(rs, k)
    ensures Bound(rs, k)
    decreases |rs| - k
  {
    if rs[k].natNet {
    } else if HandsOver(rs, k) {
      var h :| HasHeir(rs, k, h);
      assert Joins(rs, k, h);
      SurvivingIsBound(rs, h);
      var l :| 0 <= l < |rs| && PrintsNat(rs, l) && Root(rs, l) == Root(rs, h);
      assert Root(rs, l) == Root(rs, k);
    } else {
      assert PrintsNat(rs, k);
    }
  }

  lemma BoundIsSurviving(rs: seq<SnatRule>, j: nat)
    requires j < |rs| && HandsOver(rs, j) && Bound(rs, j)
    ensures exists k :: HasHeir(rs, j, k)
  {
    var m :| j < m < |rs| && Joins(rs, j, m);
    var l :| 0 <= l < |rs| && PrintsNat(rs, l) && Root(rs, l) == Root(rs, j);
    if l < j {
      var c := Heir(rs, l, j);
      assert false;
    } else {
      var c := Heir(rs, j, l);
    }
  }

  /** The firewall translates exactly the packets, to exactly the pools, that the rules name. */
  ghost predicate Exact(rs: seq<SnatRule>, d: Device) {
    forall m, out, key :: Translates(d, m, out, key) <==> Wanted(rs, m, out, key)
  }

  lemma {:induction false} FirstRule(rs: seq<SnatRule>, k: nat) returns (i: nat)
    requires k < |rs|
    ensures i <= k && rs[i].m == rs[k].m && !Repeats(rs, i)
  {
    i := k;
    if Repeats(rs, k) {
      i :| 0 <= i < k && SameMatch(rs[i], rs[k]);
      i := FirstRule(rs, i);
    }
  }

  lemma ReachesIsWanted(rs: seq<SnatRule>, m: Match, out: int, key: PoolKey)
    requires Rectangular(rs) && ListsSurvive(rs)
    ensures Reaches(rs, m, out, key) <==> Wanted(rs, m, out, key)
  {
    if k, j :| ReachesBy(rs, m, out, key, k, j) {
      RectangularMeansConnected(rs);
      ConnectedSymmetric(rs, |rs|, j, k);
      assert Corner(rs, k, j);
      var r :| 0 <= r < |rs| && SameMatch(rs[r], rs[k]) && SamePool(rs[r], rs[j]);
      assert rs[r].m == m && rs[r].out.id == out && KeyOf(rs[r].tAddr) == key;
    }
    if Wanted(rs, m, out, key) {
      var k :| 0 <= k < |rs| && rs[k].m == m && rs[k].out.id == out && KeyOf(rs[k].tAddr) == key;
      var i := FirstRule(rs, k);
      SurvivingIsBound(rs, i);
      ConnectedLink(rs, |rs|, k, i);
      assert ReachesBy(rs, m, out, key, i, k);
    }
  }

  lemma ReachedRectangle(rs: seq<SnatRule>, i: nat, l: nat)
    requires i < |rs| && l < |rs| && Connected(rs, |rs|, i, l)
    requires forall m, out, key :: Reaches(rs, m, out, key) <==> Wanted(rs, m, out, key)
    ensures Corner(rs, i, l)
  {
    var k := FirstRule(rs, i);
    assert Wanted(rs, rs[i].m, rs[i].out.id, KeyOf(rs[i].tAddr));
    var k', j :| ReachesBy(rs, rs[i].m, rs[i].out.id, KeyOf(rs[i].tAddr), k', j);
    ConnectedLink(rs, |rs|, i, k');
    ConnectedSymmetric(rs, |rs|, i, l);
    ConnectedTransitive(rs, |rs|, l, i, k');
    assert ReachesBy(rs, rs[i].m, rs[l].out.id, KeyOf(rs[l].tAddr), k', l);
    assert Wanted(rs, rs[i].m, rs[l].out.id, KeyOf(rs[l].tAddr));
    var r :| 0 <= r < |rs| && rs[r].m == rs[i].m && rs[r].out.id == rs[l].out.id &&
             KeyOf(rs[r].tAddr) == KeyOf(rs[l].tAddr);
    assert SameMatch(rs[r], rs[i]) && SamePool(rs[r], rs[l]);
  }

  lemma ReachedHeir(rs: seq<SnatRule>, j: nat)
    requires j < |rs| && HandsOver(rs, j)
    requires forall m, out, key :: Reaches(rs, m, out, key) <==> Wanted(rs, m, out, key)
    ensures exists k :: HasHeir(rs, j, k)
  {
    assert Wanted(rs, rs[j].m, rs[j].out.id, KeyOf(rs[j].tAddr));
    var k, i :| ReachesBy(rs, rs[j].m, rs[j].out.id, KeyOf(rs[j].tAddr), k, i);
    var m :| j < m < |rs| && Joins(rs, j, m);
    assert k == j by {
      if k < j {
        assert SameMatch(rs[k], rs[j]);
      }
      if j < k {
        assert SameMatch(rs[j], rs[k]);
      }
    }
    BoundIsSurviving(rs, j);
  }

  /** For every list of rules: the printed configuration means what the rules say if and only if
      joining pools adds nothing and no list is handed to a silenced command. */
  lemma ExactMeaning(rs: seq<SnatRule>, names: seq<AclName>, s: seq<Cmd>, t: seq<StaticState>,
                     flags: Flags, subst: bool, d: Device)
    requires Compiled(rs, names, s, t, flags, subst, d)
    ensures Exact(rs, d) <==> Rectangular(rs) && ListsSurvive(rs)
  {
    forall m, out, key
      ensures Translates(d, m, out, key) <==> Reaches(rs, m, out, key)
    {
      Meaning(rs, names, s, t, flags, subst, d, m, out, key);
    }
    if Rectangular(rs) && ListsSurvive(rs) {
      forall m, out, key
        ensures Translates(d, m, out, key) <==> Wanted(rs, m, out, key)
      {
        ReachesIsWanted(rs, m, out, key);
      }
    }
    if Exact(rs, d) {
      forall i: nat, l: nat | i < |rs| && l < |rs| && Connected(rs, |rs|, i, l)
        ensures Corner(rs, i, l)
      {
        ReachedRectangle(rs, i, l);
      }
      RectangularMeansConnected(rs);
      forall j: nat | j < |rs| && HandsOver(rs, j)
        ensures exists k :: HasHeir(rs, j, k)
      {
        ReachedHeir(rs, j);
      }
    }
  }

  // ---- Rules that never repeat a match ----

  ghost predicate DistinctMatches(rs: seq<SnatRule>) {
    forall i, j :: 0 <= i < j < |rs| ==> !SameMatch(rs[i], rs[j])
  }

  lemma {:induction false} DistinctChain(rs: seq<SnatRule>, n: nat, p: seq<nat>)
    requires DistinctMatches(rs) && n <= |rs| && IsChain(rs, n, p)
    ensures SamePool(rs[p[0]], rs[p[|p| - 1]])
  {
    if |p| > 1 {
      var q := p[..|p| - 1];
      assert IsChain(rs, n, q);
      DistinctChain(rs, n, q);
      assert Linked(rs[p[|p| - 2]], rs[p[|p| - 2 + 1]]);
    }
  }

  /** The first command a list is handed to, when there is one, is its heir. */
  lemma {:induction false} FirstTaker(rs: seq<SnatRule>, j: nat, m: nat) returns (k: nat)
    requires DistinctMatches(rs) && m < |rs| && Joins(rs, j, m)
    ensures HasHeir(rs, j, k)
  {
    var i := Parent(rs, m);
    if i == j {
      k := m;
    } else {
      var p :| IsChain(rs, m + 1, p) && p[0] == j && p[|p| - 1] == m;
      var q :| IsChain(rs, m + 1, q) && q[0] == i && q[|q| - 1] == m;
      DistinctChain(rs, m + 1, p);
      DistinctChain(rs, m + 1, q);
      ConnectedLink(rs, i + 1, j, i);
      k := FirstTaker(rs, j, i);
    }
  }

  lemma DistinctSurvives(rs: seq<SnatRule>)
    requires DistinctMatches(rs)
    ensures Rectangular(rs) && ListsSurvive(rs)
  {
    forall i, j, l | && 0 <= i < |rs| && 0 <= j < |rs| && 0 <= l < |rs|
                     && SamePool(rs[i], rs[j]) && SameMatch(rs[j], rs[l])
      ensures Corner(rs, i, l)
    {
      assert j == l;
      assert SameMatch(rs[i], rs[i]) && SamePool(rs[i], rs[l]);
    }
    forall j | 0 <= j < |rs| && HandsOver(rs, j)
      ensures exists k :: HasHeir(rs, j, k)
    {
      var m :| j < m < |rs| && Joins(rs, j, m);
      var k := FirstTaker(rs, j, m);
    }
  }

  /** With distinct matches nothing is lost and nothing is added. */
  lemma DistinctIsExact(rs: seq<SnatRule>, names: seq<AclName>, s: seq<Cmd>, t: seq<StaticState>,
                        flags: Flags, subst: bool, d: Device)
    requires Compiled(rs, names, s, t, flags, subst, d) && DistinctMatches(rs)
    ensures Exact(rs, d)
  {
    DistinctSurvives(rs);
    ExactMeaning(rs, names, s, t, flags, subst, d);
  }

  /** Rules that share a pool would print the same `global`. */
  ghost predicate PoolsAgree(rs: seq<SnatRule>) {
    forall i, j :: 0 <= i < |rs| && 0 <= j < |rs| && SamePool(rs[i], rs[j]) ==> TextOf(rs[i]) == TextOf(rs[j])
  }

  ghost predicate ExactText(rs: seq<SnatRule>, d: Device) {
    forall m, out, text :: TranslatesAs(d, m, out, text) <==> WantedAs(rs, m, out, text)
  }

  /** Each packet to each pool it should go to, with the pool spelled as the rule spells it. */
  ghost predicate ExactPools(rs: seq<SnatRule>, d: Device) {
    forall m, out, key, text :: TranslatesTo(d, m, out, key, text) <==> WantedTo(rs, m, out, key, text)
  }

  /** A printed `global` is that of the first rule with its pool, and so of every rule if they agree. */
  lemma GlobalIsFirst(rs: seq<SnatRule>, names: seq<AclName>, s: seq<Cmd>, t: seq<StaticState>,
                      flags: Flags, subst: bool, d: Device, l: Line, k: nat)
    requires Compiled(rs, names, s, t, flags, subst, d) && l.Global? && l in d.commands
    requires k < |rs| && rs[k].out.id == l.out && KeyOf(rs[k].tAddr) == l.key
    ensures exists f :: 0 <= f < |rs| && SamePool(rs[f], rs[k]) && !SharesPool(rs, f) && TextOf(rs[f]) == l.text
  {
    var f :| 0 <= f < |s| && CommandFromSnat(s[f], l);
    MergedAt(rs, names, s, f);
    assert SamePool(rs[f], rs[k]);
  }

  /** The rule asks for this pool, and agrees with its text. */
  ghost predicate AsksFor(rs: seq<SnatRule>, k: int, m: Match, out: int, key: PoolKey, text: PoolText) {
    && 0 <= k < |rs| && rs[k].m == m && rs[k].out.id == out && KeyOf(rs[k].tAddr) == key && TextOf(rs[k]) == text
  }

  lemma WantedByText(rs: seq<SnatRule>, m: Match, out: int, key: PoolKey, text: PoolText)
    ensures WantedTo(rs, m, out, key, text) <==> exists k :: AsksFor(rs, k, m, out, key, text)
  {
    forall k | 0 <= k < |rs| ensures IsSpelled(rs[k], text) <==> TextOf(rs[k]) == text {
      TextIsSpelled(rs[k], text);
    }
    if k :| 0 <= k < |rs| && rs[k].m == m && rs[k].out.id == out &&
            KeyOf(rs[k].tAddr) == key && IsSpelled(rs[k], text) {
      assert AsksFor(rs, k, m, out, key, text);
    }
  }

  lemma TranslatedAsWanted(rs: seq<SnatRule>, names: seq<AclName>, s: seq<Cmd>, t: seq<StaticState>, flags: Flags,
                           subst: bool, d: Device, m: Match, out: int, key: PoolKey, text: PoolText)
    requires Compiled(rs, names, s, t, flags, subst, d) && Exact(rs, d) && PoolsAgree(rs)
    ensures TranslatesTo(d, m, out, key, text) <==> WantedTo(rs, m, out, key, text)
  {
    WantedByText(rs, m, out, key, text);
    if id :| Global(out, id, key, text) in d.commands && Selects(d, m, id) {
      assert Translates(d, m, out, key) && Wanted(rs, m, out, key);
      var k :| 0 <= k < |rs| && rs[k].m == m && rs[k].out.id == out && KeyOf(rs[k].tAddr) == key;
      GlobalIsFirst(rs, names, s, t, flags, subst, d, Global(out, id, key, text), k);
      assert AsksFor(rs, k, m, out, key, text);
    }
    if k :| AsksFor(rs, k, m, out, key, text) {
      assert Wanted(rs, m, out, key) && Translates(d, m, out, key);
      var id, printed :| Global(out, id, key, printed) in d.commands && Selects(d, m, id);
      GlobalIsFirst(rs, names, s, t, flags, subst, d, Global(out, id, key, printed), k);
    }
  }

  lemma PoolsThenExact(rs: seq<SnatRule>, d: Device)
    requires ExactPools(rs, d)
    ensures Exact(rs, d)
  {
    forall m, out, key ensures Translates(d, m, out, key) <==> Wanted(rs, m, out, key) {
      if id, text :| Global(out, id, key, text) in d.commands && Selects(d, m, id) {
        assert TranslatesTo(d, m, out, key, text) && WantedTo(rs, m, out, key, text);
      }
      if k :| 0 <= k < |rs| && rs[k].m == m && rs[k].out.id == out && KeyOf(rs[k].tAddr) == key {
        assert WantedTo(rs, m, out, key, TextOf(rs[k])) && TranslatesTo(d, m, out, key, TextOf(rs[k]));
      }
    }
  }

  lemma PoolsThenAgree(rs: seq<SnatRule>, names: seq<AclName>, s: seq<Cmd>, t: seq<StaticState>,
                       flags: Flags, subst: bool, d: Device, k: nat) returns (f: nat)
    requires Compiled(rs, names, s, t, flags, subst, d) && ExactPools(rs, d) && k < |rs|
    ensures f < |rs| && SamePool(rs[f], rs[k]) && !SharesPool(rs, f) && TextOf(rs[f]) == TextOf(rs[k])
  {
    var r := rs[k];
    assert WantedTo(rs, r.m, r.out.id, KeyOf(r.tAddr), TextOf(r));
    assert TranslatesTo(d, r.m, r.out.id, KeyOf(r.tAddr), TextOf(r));
    var id :| Global(r.out.id, id, KeyOf(r.tAddr), TextOf(r)) in d.commands && Selects(d, r.m, id);
    var l := Global(r.out.id, id, KeyOf(r.tAddr), TextOf(r));
    GlobalIsFirst(rs, names, s, t, flags, subst, d, l, k);
    f :| 0 <= f < |rs| && SamePool(rs[f], rs[k]) && !SharesPool(rs, f) && TextOf(rs[f]) == l.text;
  }

  /** For every list of rules: pools are compared by address only, so the configuration also spells each
      pool right if and only if, besides the conditions of `ExactMeaning`, rules that share a pool agree
      on its text. */
  lemma ExactPoolMeaning(rs: seq<SnatRule>, names: seq<AclName>, s: seq<Cmd>, t: seq<StaticState>,
                         flags: Flags, subst: bool, d: Device)
    requires Compiled(rs, names, s, t, flags, subst, d)
    ensures ExactPools(rs, d) <==> Rectangular(rs) && ListsSurvive(rs) && PoolsAgree(rs)
  {
    ExactMeaning(rs, names, s, t, flags, subst, d);
    if Exact(rs, d) && PoolsAgree(rs) {
      forall m, out, key, text ensures TranslatesTo(d, m, out, key, text) <==> WantedTo(rs, m, out, key, text) {
        TranslatedAsWanted(rs, names, s, t, flags, subst, d, m, out, key, text);
      }
    }
    if ExactPools(rs, d) {
      PoolsThenExact(rs, d);
      forall i, j | 0 <= i < |rs| && 0 <= j < |rs| && SamePool(rs[i], rs[j]) ensures TextOf(rs[i]) == TextOf(rs[j]) {
        var f := PoolsThenAgree(rs, names, s, t, flags, subst, d, i);
        var g := PoolsThenAgree(rs, names, s, t, flags, subst, d, j);
        assert f == g by {
          assert SamePool(rs[f], rs[g]) && SamePool(rs[g], rs[f]);
        }
      }
    }
  }

  /** Rule `k` selects `m`, and rule `i`, the first with its pool, prints `text`. */
  ghost predicate PrintedFor(rs: seq<SnatRule>, m: Match, out: int, text: PoolText, k: int, i: int) {
    && 0 <= i < |rs| && 0 <= k < |rs| && rs[k].m == m && SamePool(rs[i], rs[k])
    && !SharesPool(rs, i) && rs[i].out.id == out && TextOf(rs[i]) == text
  }

  lemma OnePoolPerId(rs: seq<SnatRule>, s: seq<Cmd>, i: nat, k: nat)
    requires |s| == |rs| && IdsUpTo(rs, Ids(s), |rs|) && DistinctMatches(rs)
    requires i < |rs| && k < |rs| && s[i].natId == s[k].natId
    ensures SamePool(rs[i], rs[k])
  {
    EqualIds(rs, Ids(s), |rs|, i, k);
    var p :| IsChain(rs, |rs|, p) && p[0] == i && p[|p| - 1] == k;
    DistinctChain(rs, |rs|, p);
  }

  lemma TranslatedIsPrinted(rs: seq<SnatRule>, names: seq<AclName>, s: seq<Cmd>, t: seq<StaticState>,
                            flags: Flags, subst: bool, d: Device, m: Match, l: Line)
    requires Compiled(rs, names, s, t, flags, subst, d) && DistinctMatches(rs)
    requires l.Global? && l in d.commands && Selects(d, m, l.id)
    ensures exists k, i :: PrintedFor(rs, m, l.out, l.text, k, i)
  {
    SelectsMeaning(rs, names, s, t, flags, subst, d, m, l.id);
    var k :| 0 <= k < |rs| && !Repeats(rs, k) && rs[k].m == m && Bound(rs, k) && s[k].natId == l.id;
    var i :| 0 <= i < |s| && CommandFromSnat(s[i], l);
    MergedAt(rs, names, s, i);
    OnePoolPerId(rs, s, i, k);
    assert PrintedFor(rs, m, l.out, l.text, k, i);
  }

  /** The `global` in force for a rule is the one of the first rule with its pool. */
  lemma TextMeaning(rs: seq<SnatRule>, names: seq<AclName>, s: seq<Cmd>, t: seq<StaticState>,
                    flags: Flags, subst: bool, d: Device, m: Match, out: int, text: PoolText)
    requires Compiled(rs, names, s, t, flags, subst, d) && DistinctMatches(rs)
    ensures TranslatesAs(d, m, out, text) <==> exists k, i :: PrintedFor(rs, m, out, text, k, i)
  {
    if TranslatesAs(d, m, out, text) {
      var id, key :| Global(out, id, key, text) in d.commands && Selects(d, m, id);
      TranslatedIsPrinted(rs, names, s, t, flags, subst, d, m, Global(out, id, key, text));
    }
    if k, i :| PrintedFor(rs, m, out, text, k, i) {
      PrintedTranslates(rs, names, s, t, flags, subst, d, m, out, text, k, i);
    }
  }

  lemma PrintedTranslates(rs: seq<SnatRule>, names: seq<AclName>, s: seq<Cmd>, t: seq<StaticState>,
                          flags: Flags, subst: bool, d: Device, m: Match, out: int, text: PoolText, k: nat, i: nat)
    requires Compiled(rs, names, s, t, flags, subst, d) && DistinctMatches(rs)
    requires PrintedFor(rs, m, out, text, k, i)
    ensures TranslatesAs(d, m, out, text)
  {
    ConnectedLink(rs, |rs|, i, k);
    MergedAt(rs, names, s, i);
    SameId(rs, names, s, i, k);
    assert CommandFromSnat(s[i], GlobalOf(s[i]));
    assert GlobalOf(s[i]) == Global(out, s[k].natId, KeyOf(rs[i].tAddr), text);
    DistinctSurvives(rs);
    assert !Repeats(rs, k);
    SurvivingIsBound(rs, k);
    BoundSelects(rs, names, s, t, flags, subst, d, k);
  }

  /** Pools are compared by address only, so the text of a pool is right exactly when rules that
      share a pool agree on it. */
  lemma ExactTextMeaning(rs: seq<SnatRule>, names: seq<AclName>, s: seq<Cmd>, t: seq<StaticState>,
                         flags: Flags, subst: bool, d: Device)
    requires Compiled(rs, names, s, t, flags, subst, d) && DistinctMatches(rs)
    ensures ExactText(rs, d) <==> PoolsAgree(rs)
  {
    forall m, out, text
      ensures TranslatesAs(d, m, out, text) <==> exists k, i :: PrintedFor(rs, m, out, text, k, i)
    {
      TextMeaning(rs, names, s, t, flags, subst, d, m, out, text);
    }
    if PoolsAgree(rs) {
      forall m, out, text | WantedAs(rs, m, out, text)
        ensures TranslatesAs(d, m, out, text)
      {
        var k :| 0 <= k < |rs| && rs[k].m == m && rs[k].out.id == out && TextOf(rs[k]) == text;
        var i := FirstWithPool(rs, k);
        assert PrintedFor(rs, m, out, text, k, i);
      }
    }
    if ExactText(rs, d) {
      forall k: nat | k < |rs|
        ensures forall i :: 0 <= i < |rs| && SamePool(rs[i], rs[k]) && !SharesPool(rs, i) ==>
                              TextOf(rs[i]) == TextOf(rs[k])
      {
        FirstTextOfPool(rs, d, k);
      }
      forall i: nat, j: nat | i < |rs| && j < |rs| && SamePool(rs[i], rs[j])
        ensures TextOf(rs[i]) == TextOf(rs[j])
      {
        var f := FirstWithPool(rs, i);
      }
    }
  }

  lemma FirstTextOfPool(rs: seq<SnatRule>, d: Device, k: nat)
    requires k < |rs| && DistinctMatches(rs) && ExactText(rs, d)
    requires forall m, out, text :: TranslatesAs(d, m, out, text) <==> exists k, i :: PrintedFor(rs, m, out, text, k, i)
    ensures forall i :: 0 <= i < |rs| && SamePool(rs[i], rs[k]) && !SharesPool(rs, i) ==> TextOf(rs[i]) == TextOf(rs[k])
  {
    forall i | 0 <= i < |rs| && SamePool(rs[i], rs[k]) && !SharesPool(rs, i)
      ensures TextOf(rs[i]) == TextOf(rs[k])
    {
      assert PrintedFor(rs, rs[k].m, rs[i].out.id, TextOf(rs[i]), k, i);
      assert TranslatesAs(d, rs[k].m, rs[i].out.id, TextOf(rs[i]));
      var r :| 0 <= r < |rs| && rs[r].m == rs[k].m && rs[r].out.id == rs[i].out.id && TextOf(rs[r]) == TextOf(rs[i]);
      assert r == k by {
        assert SameMatch(rs[r], rs[k]);
      }
    }
  }

  // ---- Rules that do repeat a match ----

  /** The same rule twice: the first prints its list but no `nat`, the second is only a comment, so
      nothing at all is translated. */
  lemma TwiceTheSameRule(r: SnatRule, names: seq<AclName>, s: seq<Cmd>, t: seq<StaticState>,
                         flags: Flags, subst: bool, d: Device)
    requires Compiled([r, r], names, s, t, flags, subst, d) && !r.natNet
    ensures !Exact([r, r], d)
    ensures Wanted([r, r], r.m, r.out.id, KeyOf(r.tAddr))
    ensures forall m, out, key :: !Translates(d, m, out, key)
  {
    var rs := [r, r];
    assert rs[0].m == r.m;
    assert SameMatch(rs[0], rs[1]);
    assert Repeats(rs, 1) && !Repeats(rs, 0);
    ConnectedLink(rs, 2, 0, 1);
    assert Joins(rs, 0, 1);
    assert HandsOver(rs, 0);
    assert !PrintsNat(rs, 0) && !PrintsNat(rs, 1);
    forall m, out, key
      ensures !Translates(d, m, out, key)
    {
      Meaning(rs, names, s, t, flags, subst, d, m, out, key);
    }
    assert Wanted(rs, r.m, r.out.id, KeyOf(r.tAddr)) && !Translates(d, r.m, r.out.id, KeyOf(r.tAddr));
  }

  /** Two rules with one match join their pools, and a third rule that uses one of the pools is then
      also translated to the other. */
  lemma JoinedPoolsLeak(a: SnatRule, b: SnatRule, c: SnatRule, names: seq<AclName>, s: seq<Cmd>,
                        t: seq<StaticState>, flags: Flags, subst: bool, d: Device)
    requires Compiled([a, b, c], names, s, t, flags, subst, d)
    requires SameMatch(a, b) && !SamePool(a, b) && SamePool(b, c) && !SameMatch(a, c)
    ensures Translates(d, c.m, a.out.id, KeyOf(a.tAddr))
    ensures !Wanted([a, b, c], c.m, a.out.id, KeyOf(a.tAddr))
  {
    var rs := [a, b, c];
    ConnectedLink(rs, 3, 0, 1);
    ConnectedLink(rs, 3, 1, 2);
    ConnectedTransitive(rs, 3, 0, 1, 2);
    assert !HandsOver(rs, 2) && !Repeats(rs, 2);
    assert rs[2].natNet || PrintsNat(rs, 2);
    assert ReachesBy(rs, c.m, a.out.id, KeyOf(a.tAddr), 2, 0);
    Meaning(rs, names, s, t, flags, subst, d, c.m, a.out.id, KeyOf(a.tAddr));
  }

  // ---- Survivors ----

  /** Whatever repeats: each pool keeps one `global` and each match one `nat`, and every command ends
      with the translation id of both. */
  lemma Survivors(rs: seq<SnatRule>, names: seq<AclName>, s: seq<Cmd>, k: nat)
    requires Merged(rs, names, s) && k < |rs|
    ensures exists i :: 0 <= i < |rs| && SamePool(rs[i], rs[k]) && !s[i].ignoreGlobal && s[i].natId == s[k].natId
    ensures exists i :: 0 <= i < |rs| && SameMatch(rs[i], rs[k]) && !s[i].ignoreNat && s[i].natId == s[k].natId
    ensures forall i, j | 0 <= i < |rs| && 0 <= j < |rs| && SamePool(rs[i], rs[j]) ::
              !s[i].ignoreGlobal && !s[j].ignoreGlobal ==> i == j
    ensures forall i, j | 0 <= i < |rs| && 0 <= j < |rs| && SameMatch(rs[i], rs[j]) ::
              !s[i].ignoreNat && !s[j].ignoreNat ==> i == j
  {
    var i := FirstWithPool(rs, k);
    LinkedIds(rs, Ids(s), |rs|, i, k);
    var j := FirstRule(rs, k);
    LinkedIds(rs, Ids(s), |rs|, j, k);
    assert SameMatch(rs[j], rs[k]);
    forall i: nat | i < |rs|
      ensures (s[i].ignoreGlobal <==> SharesPool(rs, i)) && (s[i].ignoreNat <==> Repeats(rs, i))
    {
      MergedAt(rs, names, s, i);
    }
  }
}
