/** Destination NAT: `static` commands and the half of the merger that lets equal ones share one
    access list and one `static` line. */
module StaticMerge {
  import opened NatMerge

  datatype DnatRule = DnatRule(iaddr: int, oaddr: int, osrc: int, osrv: int, tsrv: int, iface: int, out: int)

  datatype StaticState = StaticState(rule: DnatRule, aclName: AclName, ignored: bool)

  /** Equality of `static` commands: everything but the original source. */
  predicate SameStatic(a: DnatRule, b: DnatRule) {
    && a.oaddr == b.oaddr && a.iaddr == b.iaddr
    && a.osrv == b.osrv && a.tsrv == b.tsrv
    && a.iface == b.iface && a.out == b.out
  }

  /** The first rule equal to rule `k`. */
  ghost function FirstSame(ds: seq<DnatRule>, k: nat): (i: nat)
    requires k < |ds|
    ensures i <= k && SameStatic(ds[i], ds[k])
    ensures forall j :: 0 <= j < i ==> !SameStatic(ds[j], ds[k])
  {
    FirstSameFrom(ds, k, 0)
  }

  ghost function FirstSameFrom(ds: seq<DnatRule>, k: nat, m: nat): (i: nat)
    requires m <= k < |ds|
    ensures m <= i <= k && SameStatic(ds[i], ds[k])
    ensures forall j :: m <= j < i ==> !SameStatic(ds[j], ds[k])
    decreases k - m
  {
    if SameStatic(ds[m], ds[k]) then m else FirstSameFrom(ds, k, m + 1)
  }

  /** Command `i` after the first `k` commands have been compared with the ones above them: each uses
      the list of the first of its class, and only the last of a class is not ignored. */
  ghost predicate MergedStatic(ds: seq<DnatRule>, names: seq<AclName>, t: seq<StaticState>, i: nat, k: nat)
    requires i < |ds| == |names| == |t| && k <= |ds|
  {
    && t[i].rule == ds[i]
    && if i < k then
         && t[i].aclName == names[FirstSame(ds, i)]
         && (t[i].ignored <==> exists m :: i < m < k && SameStatic(ds[i], ds[m]))
       else t[i].aclName == names[i] && !t[i].ignored
  }

  ghost predicate StaticsUpTo(ds: seq<DnatRule>, names: seq<AclName>, t: seq<StaticState>, k: nat) {
    && k <= |ds| == |names| == |t|
    && forall i {:trigger MergedStatic(ds, names, t, i, k)} :: 0 <= i < |ds| ==> MergedStatic(ds, names, t, i, k)
  }

  ghost predicate StaticsMerged(ds: seq<DnatRule>, names: seq<AclName>, t: seq<StaticState>) {
    StaticsUpTo(ds, names, t, |ds|)
  }

  /** What a finished merge says about one `static` command. */
  lemma StaticAt(ds: seq<DnatRule>, names: seq<AclName>, t: seq<StaticState>, i: nat)
    requires StaticsMerged(ds, names, t) && i < |ds|
    ensures t[i].rule == ds[i] && t[i].aclName == names[FirstSame(ds, i)]
    ensures t[i].ignored <==> exists m :: i < m < |ds| && SameStatic(ds[i], ds[m])
  {
    assert MergedStatic(ds, names, t, i, |ds|);
  }

  lemma SameFirst(ds: seq<DnatRule>, i: nat, k: nat)
    requires i < |ds| && k < |ds|
    ensures SameStatic(ds[i], ds[k]) <==> FirstSame(ds, i) == FirstSame(ds, k)
  {
    if SameStatic(ds[i], ds[k]) {
      var a, b := FirstSame(ds, i), FirstSame(ds, k);
      assert SameStatic(ds[a], ds[k]) && SameStatic(ds[b], ds[i]);
    }
  }

  class StaticCmd {
    const rule: DnatRule
    var aclName: AclName
    var ignoreScmdAndPrintAcl: bool

    constructor (rule: DnatRule, aclName: AclName)
      ensures Snap() == StaticState(rule, aclName, false)
    {
      this.rule, this.aclName, ignoreScmdAndPrintAcl := rule, aclName, false;
    }

    ghost function Snap(): StaticState
      reads this
    {
      StaticState(rule, aclName, ignoreScmdAndPrintAcl)
    }
  }

  ghost predicate StaticsHold(cmds: seq<StaticCmd>, t: seq<StaticState>)
    reads cmds
  {
    |cmds| == |t| && forall i :: 0 <= i < |t| ==> cmds[i].Snap() == t[i]
  }

  ghost predicate StaticsDistinct(cmds: seq<StaticCmd>) {
    forall i, j :: 0 <= i < j < |cmds| ==> cmds[i] != cmds[j]
  }

  /** The state once command `k` has been compared with the first `j`. */
  ghost predicate Compared(ds: seq<DnatRule>, names: seq<AclName>, t: seq<StaticState>, u: seq<StaticState>,
                           k: nat, j: nat)
    requires j <= k < |ds| == |names| == |t|
  {
    && |u| == |t|
    && (forall i :: 0 <= i < |t| && i != k ==>
          u[i] == t[i].(ignored := t[i].ignored || (i < j && SameStatic(ds[i], ds[k]))))
    && u[k] == if FirstSame(ds, k) < j then t[k].(aclName := names[FirstSame(ds, k)]) else t[k]
  }

  ghost function StaticShared(u: seq<StaticState>, k: nat, j: nat): (u': seq<StaticState>)
    requires j < k < |u|
    ensures |u'| == |u|
    ensures u'[k] == u[k].(aclName := u[j].aclName) && u'[j] == u[j].(ignored := true)
    ensures forall i :: 0 <= i < |u| && i != k && i != j ==> u'[i] == u[i]
  {
    u[k := u[k].(aclName := u[j].aclName)][j := u[j].(ignored := true)]
  }

  lemma ComparedStep(ds: seq<DnatRule>, names: seq<AclName>, t: seq<StaticState>, u: seq<StaticState>,
                     k: nat, j: nat)
    requires j < k < |ds| == |t| == |names| && Compared(ds, names, t, u, k, j)
    requires t[j].aclName == names[FirstSame(ds, j)] && t[j].rule == ds[j] && t[k].rule == ds[k]
    ensures Compared(ds, names, t, if SameStatic(ds[k], ds[j]) then StaticShared(u, k, j) else u, k, j + 1)
    ensures u[k].rule == ds[k] && u[j].rule == ds[j]
  {
    SameFirst(ds, j, k);
  }

  lemma StaticsStep(ds: seq<DnatRule>, names: seq<AclName>, t: seq<StaticState>, u: seq<StaticState>, k: nat)
    requires k < |ds| && StaticsUpTo(ds, names, t, k) && Compared(ds, names, t, u, k, k)
    ensures StaticsUpTo(ds, names, u, k + 1)
  {
    var n := k + 1;
    forall i: nat | i < |ds|
      ensures MergedStatic(ds, names, u, i, n)
    {
      assert MergedStatic(ds, names, t, i, k);
      if i < k && u[i].ignored && !SameStatic(ds[i], ds[k]) {
        var m :| i < m < k && SameStatic(ds[i], ds[m]);
      }
    }
  }

  /** The DNAT half of the processor for one rule: the `static` is left to the last rule of the
      class, so the flag goes on the command above. */
  method MergeDnat(cmds: seq<StaticCmd>, k: nat,
                   ghost ds: seq<DnatRule>, ghost names: seq<AclName>, ghost t: seq<StaticState>)
    returns (ghost u: seq<StaticState>)
    requires StaticsDistinct(cmds) && k < |cmds| && StaticsHold(cmds, t) && StaticsUpTo(ds, names, t, k)
    modifies cmds
    ensures StaticsHold(cmds, u) && StaticsUpTo(ds, names, u, k + 1)
  {
    u := t;
    var scmd := cmds[k];
    var j := 0;
    while cmds[j] != scmd
      invariant 0 <= j <= k
      invariant StaticsHold(cmds, u) && Compared(ds, names, t, u, k, j)
      decreases k - j
    {
      var sc := cmds[j];
      assert MergedStatic(ds, names, t, j, k) && MergedStatic(ds, names, t, k, k);
      ComparedStep(ds, names, t, u, k, j);
      assert sc.Snap() == u[j] && scmd.Snap() == u[k];
      if SameStatic(scmd.rule, sc.rule) {
        ShareStatic(cmds, k, j, u);
        u := StaticShared(u, k, j);
      }
      j := j + 1;
    }
    StaticsStep(ds, names, t, u, k);
  }

  method ShareStatic(cmds: seq<StaticCmd>, k: nat, j: nat, ghost u: seq<StaticState>)
    requires StaticsDistinct(cmds) && j < k < |cmds| && StaticsHold(cmds, u)
    modifies cmds[k], cmds[j]
    ensures StaticsHold(cmds, StaticShared(u, k, j))
  {
    assert cmds[k].Snap() == u[k] && cmds[j].Snap() == u[j];
    cmds[k].aclName := cmds[j].aclName;
    cmds[j].ignoreScmdAndPrintAcl := true;
  }
}
