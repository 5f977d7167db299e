/** The NAT compiler for PIX: commands are created one per atomic rule, merged in place, printed. */
module NatCompiler {
  import opened NatRules
  import opened NatMerge
  import opened StaticMerge
  import opened NatConfig
  import opened NatMeaning
  import opened NatOutput

  class NatCmd {
    const rule: SnatRule
    var natId: int
    var aclName: AclName
    var ignoreNat: bool
    var ignoreNatAndPrintAcl: bool
    var ignoreGlobal: bool

    constructor (rule: SnatRule, natId: int, aclName: AclName)
      ensures Snap() == Cmd(rule, natId, aclName, false, false, false)
    {
      this.rule, this.natId, this.aclName := rule, natId, aclName;
      ignoreNat, ignoreNatAndPrintAcl, ignoreGlobal := false, false, false;
    }

    ghost function Snap(): Cmd
      reads this
    {
      Cmd(rule, natId, aclName, ignoreNat, ignoreNatAndPrintAcl, ignoreGlobal)
    }
  }

  /** The commands, object by object, stand as `s` says. */
  ghost predicate Holds(cmds: seq<NatCmd>, s: seq<Cmd>)
    reads cmds
  {
    |cmds| == |s| && forall i :: 0 <= i < |s| ==> cmds[i].Snap() == s[i]
  }

  ghost predicate Distinct(cmds: seq<NatCmd>) {
    forall i, j :: 0 <= i < j < |cmds| ==> cmds[i] != cmds[j]
  }

  /** First loop of the SNAT half: take over the id of every earlier command with the same pool. */
  method SharePools(cmds: seq<NatCmd>, k: nat, ghost s: seq<Cmd>)
    requires Distinct(cmds) && k < |cmds| && Holds(cmds, s)
    requires forall i, j | 0 <= i < k && 0 <= j < k ::
               SamePool(s[i].rule, s[k].rule) && SamePool(s[j].rule, s[k].rule) ==> s[i].natId == s[j].natId
    modifies cmds[k]
    ensures Holds(cmds, s[k := cmds[k].Snap()])
    ensures cmds[k].Snap() == s[k].(natId := cmds[k].natId, ignoreGlobal := cmds[k].ignoreGlobal)
    ensures if exists i :: 0 <= i < k && SamePool(s[i].rule, s[k].rule)
            then cmds[k].ignoreGlobal &&
                 forall i :: 0 <= i < k && SamePool(s[i].rule, s[k].rule) ==> cmds[k].natId == s[i].natId
            else cmds[k].Snap() == s[k]
  {
    var natcmd := cmds[k];
    var j := 0;
    while cmds[j] != natcmd
      invariant 0 <= j <= k
      invariant forall i :: 0 <= i < |s| && i != k ==> cmds[i].Snap() == s[i]
      invariant natcmd.Snap() == s[k].(natId := natcmd.natId, ignoreGlobal := natcmd.ignoreGlobal)
      invariant if exists i :: 0 <= i < j && SamePool(s[i].rule, s[k].rule)
                then natcmd.ignoreGlobal &&
                     forall i :: 0 <= i < j && SamePool(s[i].rule, s[k].rule) ==> natcmd.natId == s[i].natId
                else natcmd.Snap() == s[k]
      decreases k - j
    {
      var nc := cmds[j];
      assert nc.Snap() == s[j];
      if (natcmd.rule.tAddr == nc.rule.tAddr ||
          (natcmd.rule.tAddr.inet.Some? && nc.rule.tAddr.inet.Some? &&
           natcmd.rule.tAddr.inet == nc.rule.tAddr.inet)) &&
         natcmd.rule.out.id == nc.rule.out.id
      {
        natcmd.ignoreGlobal := true;
        natcmd.natId := nc.natId;
      }
      j := j + 1;
    }
  }

  /** Everything in `k`'s id class gets the id `to`. */
  ghost function Relabelled(s: seq<Cmd>, k: nat, to: int): (t: seq<Cmd>)
    requires k < |s|
    ensures |t| == |s|
    ensures forall m :: 0 <= m < |s| ==>
              t[m] == if s[m].natId == s[k].natId then s[m].(natId := to) else s[m]
  {
    seq(|s|, m requires 0 <= m < |s| =>
      if s[m].natId == s[k].natId then s[m].(natId := to) else s[m])
  }

  /** The innermost loop.  It compares with `natcmd.natId` while it is changing it, which is only
      right because no command past `natcmd` has that id. */
  method Relabel(cmds: seq<NatCmd>, k: nat, nc: NatCmd, ghost s: seq<Cmd>)
    requires Distinct(cmds) && k < |cmds| && Holds(cmds, s)
    requires nc in cmds[..k]
    requires forall m :: k < m < |s| ==> s[m].natId != s[k].natId
    modifies cmds
    ensures Holds(cmds, Relabelled(s, k, old(nc.natId)))
  {
    ghost var to := nc.natId;
    ghost var j :| 0 <= j < k && cmds[j] == nc;
    var natcmd := cmds[k];
    var m := 0;
    while m < |cmds|
      invariant 0 <= m <= |cmds|
      invariant forall i :: m <= i < |cmds| ==> cmds[i].Snap() == s[i]
      invariant forall i :: 0 <= i < m ==> cmds[i].Snap() == Relabelled(s, k, to)[i]
      invariant nc.natId == to
    {
      var nc2 := cmds[m];
      assert nc2.Snap() == s[m];
      if natcmd.natId == nc2.natId {
        nc2.natId := nc.natId;
      }
      m := m + 1;
    }
  }

  /** `i` is the command that still prints the `nat` line for command `k`'s match. */
  ghost predicate Represents(s: seq<Cmd>, i: int, k: nat)
    requires k < |s|
  {
    0 <= i < k && !s[i].ignoreNat && SameMatch(s[i].rule, s[k].rule)
  }

  /** The list after command `k` gave up its `nat` line to command `i`. */
  ghost function Dropped(s: seq<Cmd>, k: nat, i: int): (t: seq<Cmd>)
    requires 0 <= i < k < |s|
    ensures |t| == |s|
  {
    Relabelled(s, k, s[i].natId)[k := s[k].(natId := s[i].natId, ignoreNat := true)]
  }

  /** Body of the second loop. */
  method JoinPools(cmds: seq<NatCmd>, k: nat, j: nat, ghost s: seq<Cmd>)
    requires Distinct(cmds) && j < k < |cmds| && Holds(cmds, s)
    requires forall m :: k < m < |s| ==> s[m].natId != s[k].natId
    modifies cmds
    ensures Holds(cmds, Dropped(s, k, j))
  {
    var natcmd, nc := cmds[k], cmds[j];
    assert natcmd.Snap() == s[k] && nc.Snap() == s[j];
    natcmd.ignoreNat := true;
    ghost var s1 := s[k := s[k].(ignoreNat := true)];
    Relabel(cmds, k, nc, s1);
    assert nc.Snap() == Relabelled(s1, k, s[j].natId)[j];
    assert natcmd.Snap() == Relabelled(s1, k, s[j].natId)[k];
    natcmd.natId := nc.natId;
    assert forall i :: 0 <= i < |s| && i != k ==> Relabelled(s1, k, s[j].natId)[i] == Dropped(s, k, j)[i];
  }

  /** Second loop: drop the `nat` of a repeated match and join the two pools. */
  method DropRepeat(cmds: seq<NatCmd>, k: nat, ghost s: seq<Cmd>)
    requires Distinct(cmds) && k < |cmds| && Holds(cmds, s)
    requires forall m :: k < m < |s| ==> s[m].natId != s[k].natId
    requires forall i, j :: Represents(s, i, k) && Represents(s, j, k) ==> i == j
    modifies cmds
    ensures (forall i :: !Represents(s, i, k)) ==> Holds(cmds, s)
    ensures forall i :: Represents(s, i, k) ==> Holds(cmds, Dropped(s, k, i))
  {
    var natcmd := cmds[k];
    ghost var hit := -1;
    var j := 0;
    while cmds[j] != natcmd
      invariant 0 <= j <= k
      invariant -1 <= hit < j
      invariant hit == -1 ==> Holds(cmds, s) && forall i :: 0 <= i < j ==> !Represents(s, i, k)
      invariant hit != -1 ==> Represents(s, hit, k) && Holds(cmds, Dropped(s, k, hit))
      decreases k - j
    {
      var nc := cmds[j];
      assert nc.Snap() == if hit == -1 then s[j] else Dropped(s, k, hit)[j];
      assert natcmd.Snap() == if hit == -1 then s[k] else Dropped(s, k, hit)[k];
      if !nc.ignoreNat {
        if natcmd.rule.m.src == nc.rule.m.src && natcmd.rule.m.dst == nc.rule.m.dst &&
           natcmd.rule.m.srv == nc.rule.m.srv && natcmd.rule.m.iface == nc.rule.m.iface
        {
          assert Represents(s, j, k) && hit == -1;
          JoinPools(cmds, k, j, s);
          hit := j;
        }
      }
      j := j + 1;
    }
  }

  /** Commands `i` and `k` can use one access list. */
  ghost predicate CanShareList(s: seq<Cmd>, i: int, k: nat)
    requires k < |s|
  {
    && 0 <= i < k
    && !s[i].ignoreNat && !s[i].rule.natNet
    && s[k].natId == s[i].natId
    && s[k].rule.tAddr == s[i].rule.tAddr
    && s[k].rule.m.iface == s[i].rule.m.iface
  }

  /** The last command below `j` whose list command `k` takes over, or -1. */
  ghost function LastShared(s: seq<Cmd>, k: nat, j: nat): (i: int)
    requires j <= k < |s|
    ensures -1 <= i < j
    ensures i >= 0 ==> CanShareList(s, i, k)
    ensures forall m :: i < m < j ==> !CanShareList(s, m, k)
  {
    if j == 0 then -1 else if CanShareList(s, j - 1, k) then j - 1 else LastShared(s, k, j - 1)
  }

  /** `t` is `s` after the commands below `j` have been compared with command `k`. */
  ghost predicate ListsMerged(s: seq<Cmd>, t: seq<Cmd>, k: nat, j: nat)
    requires j <= k < |s|
  {
    && |t| == |s|
    && (forall i :: 0 <= i < |s| && i != k ==>
          t[i] == s[i].(ignoreNatAndPrintAcl := s[i].ignoreNatAndPrintAcl || (i < j && CanShareList(s, i, k))))
    && var last := LastShared(s, k, j);
       t[k] == s[k].(aclName := if last < 0 then s[k].aclName else s[last].aclName)
  }

  ghost function TakenOver(t: seq<Cmd>, k: nat, j: nat): (t': seq<Cmd>)
    requires j < k < |t|
    ensures |t'| == |t|
  {
    t[k := t[k].(aclName := t[j].aclName)][j := t[j].(ignoreNatAndPrintAcl := true)]
  }

  lemma ListsStep(s: seq<Cmd>, t: seq<Cmd>, k: nat, j: nat)
    requires j < k < |s| && ListsMerged(s, t, k, j)
    ensures CanShareList(s, j, k) <==>
              !t[j].ignoreNat && !t[j].rule.natNet && t[k].natId == t[j].natId &&
              t[k].rule.tAddr == t[j].rule.tAddr && t[k].rule.m.iface == t[j].rule.m.iface
    ensures ListsMerged(s, if CanShareList(s, j, k) then TakenOver(t, k, j) else t, k, j + 1)
  {
  }

  /** Two field updates. */
  method TakeOverList(cmds: seq<NatCmd>, k: nat, j: nat, ghost t: seq<Cmd>)
    requires Distinct(cmds) && j < k < |cmds| && Holds(cmds, t)
    modifies cmds[k], cmds[j]
    ensures Holds(cmds, TakenOver(t, k, j))
  {
    assert cmds[k].Snap() == t[k] && cmds[j].Snap() == t[j];
    cmds[k].aclName := cmds[j].aclName;
    cmds[j].ignoreNatAndPrintAcl := true;
  }

  /** Body of the third loop. */
  method MergeList(cmds: seq<NatCmd>, k: nat, j: nat, ghost s: seq<Cmd>, ghost t: seq<Cmd>) returns (ghost t': seq<Cmd>)
    requires Distinct(cmds) && j < k < |cmds| && Holds(cmds, t) && |s| == |t| && ListsMerged(s, t, k, j)
    modifies cmds[k], cmds[j]
    ensures Holds(cmds, t') && |s| == |t'| && ListsMerged(s, t', k, j + 1)
  {
    var nc, natcmd := cmds[j], cmds[k];
    assert nc.Snap() == t[j] && natcmd.Snap() == t[k];
    ListsStep(s, t, k, j);
    t' := t;
    if !nc.ignoreNat && !nc.rule.natNet && natcmd.natId == nc.natId &&
       natcmd.rule.tAddr == nc.rule.tAddr && natcmd.rule.m.iface == nc.rule.m.iface
    {
      TakeOverList(cmds, k, j, t);
      t' := TakenOver(t, k, j);
    }
  }

  /** Third loop: merge access lists by giving them one name. */
  method MergeLists(cmds: seq<NatCmd>, k: nat, ghost s: seq<Cmd>) returns (ghost t: seq<Cmd>)
    requires Distinct(cmds) && k < |cmds| && Holds(cmds, s)
    modifies cmds
    ensures Holds(cmds, t) && ListsMerged(s, t, k, k)
  {
    t := s;
    var natcmd := cmds[k];
    var j := 0;
    while cmds[j] != natcmd
      invariant 0 <= j <= k
      invariant Holds(cmds, t) && ListsMerged(s, t, k, j)
      decreases k - j
    {
      t := MergeList(cmds, k, j, s, t);
      j := j + 1;
    }
  }

  // ---- The three loops together are one merging move ----

  /** If the match was seen before, exactly one earlier command still prints it. */
  lemma {:induction false} FirstWithMatch(rs: seq<SnatRule>, k: nat) returns (i: nat)
    requires k < |rs| && Repeats(rs, k)
    ensures i < k && SameMatch(rs[i], rs[k]) && !Repeats(rs, i)
  {
    i :| 0 <= i < k && SameMatch(rs[i], rs[k]);
    if Repeats(rs, i) {
      i := FirstWithMatch(rs, i);
    }
  }

  ghost predicate PoolShared(rs: seq<SnatRule>, s: seq<Cmd>, s1: seq<Cmd>, k: nat, own: int)
    requires k < |rs| == |s| == |s1|
  {
    && s1 == s[k := s[k].(natId := own, ignoreGlobal := SharesPool(rs, k))]
    && (if SharesPool(rs, k)
        then forall j :: 0 <= j < k && SamePool(rs[j], rs[k]) ==> own == s[j].natId
        else own == s[k].natId)
  }

  lemma PoolSharedFresh(rs: seq<SnatRule>, names: seq<AclName>, s: seq<Cmd>, s1: seq<Cmd>, k: nat, own: int)
    requires k < |rs| && MergedUpTo(rs, names, s, k) && |s1| == |s| && PoolShared(rs, s, s1, k, own)
    ensures forall m :: k < m < |s| ==> s1[m].natId != s1[k].natId
    ensures forall i, j :: Represents(s1, i, k) && Represents(s1, j, k) ==> i == j
    ensures Repeats(rs, k) <==> exists i :: Represents(s1, i, k)
  {
    assert MergedCmd(rs, names, s, k, k);
    forall i, j | Represents(s1, i, k) && Represents(s1, j, k)
      ensures i == j
    {
      assert MergedCmd(rs, names, s, i, k) && MergedCmd(rs, names, s, j, k);
      assert SameMatch(rs[i], rs[j]);
    }
    forall m | k < m < |s|
      ensures s1[m].natId != s1[k].natId
    {
      assert s1[m].natId == Ids(s)[m] == m + 1;
      if SharesPool(rs, k) {
        var j :| 0 <= j < k && SamePool(rs[j], rs[k]);
        assert own == Ids(s)[j];
      } else {
        assert own == Ids(s)[k];
      }
    }
    if Repeats(rs, k) {
      var i := FirstWithMatch(rs, k);
      assert MergedCmd(rs, names, s, i, k);
      assert Represents(s1, i, k);
    }
    forall i | Represents(s1, i, k)
      ensures Repeats(rs, k)
    {
      assert MergedCmd(rs, names, s, i, k);
      assert SameMatch(rs[i], rs[k]);
    }
  }

  lemma LastSharedIsParent(rs: seq<SnatRule>, s: seq<Cmd>, k: nat, j: nat)
    requires j <= k < |rs| == |s|
    requires forall i :: 0 <= i < k ==> (CanShareList(s, i, k) <==> Joins(rs, i, k))
    ensures LastShared(s, k, j) == LastJoined(rs, k, j)
  {
  }

  /** The state between the second and the third loop. */
  ghost predicate RepeatDropped(rs: seq<SnatRule>, s: seq<Cmd>, s2: seq<Cmd>, k: nat, own: int, to: int)
    requires k < |rs| == |s| == |s2|
  {
    && IdsMove(rs, Ids(s), Ids(s2), k, own, to)
    && (forall i :: 0 <= i < |s| && i != k ==> s2[i] == s[i].(natId := s2[i].natId))
    && s2[k] == s[k].(natId := s2[k].natId, ignoreGlobal := SharesPool(rs, k), ignoreNat := Repeats(rs, k))
  }

  lemma DroppedState(rs: seq<SnatRule>, names: seq<AclName>, s: seq<Cmd>, s1: seq<Cmd>, s2: seq<Cmd>,
                     k: nat, own: int, i: int)
    requires k < |rs| && MergedUpTo(rs, names, s, k) && |s2| == |s1| == |s| && PoolShared(rs, s, s1, k, own)
    requires Repeats(rs, k) ==> Represents(s1, i, k) &&
                                s2 == Dropped(s1, k, i)
    requires !Repeats(rs, k) ==> s2 == s1
    ensures RepeatDropped(rs, s, s2, k, own, if Repeats(rs, k) then s1[i].natId else 0)
  {
    assert MergedCmd(rs, names, s, k, k);
    if Repeats(rs, k) {
      assert MergedCmd(rs, names, s, i, k);
      forall j | 0 <= j < k && SameMatch(rs[j], rs[k])
        ensures s1[i].natId == Ids(s)[j]
      {
        LinkedIds(rs, Ids(s), k, i, j);
      }
    }
  }

  lemma DroppedFields(rs: seq<SnatRule>, names: seq<AclName>, s: seq<Cmd>, s2: seq<Cmd>, i: nat, k: nat, own: int,
                      to: int)
    requires i < k < |rs| && MergedUpTo(rs, names, s, k) && |s2| == |s| && RepeatDropped(rs, s, s2, k, own, to)
    ensures s2[i].rule == rs[i] && s2[k].rule == rs[k] && (s2[i].ignoreNat <==> Repeats(rs, i))
  {
    assert MergedCmd(rs, names, s, i, k) && MergedCmd(rs, names, s, k, k);
  }

  lemma SharesIfJoins(rs: seq<SnatRule>, names: seq<AclName>, s: seq<Cmd>, s2: seq<Cmd>,
                      i: nat, k: nat, own: int, to: int)
    requires i < k < |rs| && MergedUpTo(rs, names, s, k) && |s2| == |s|
    requires RepeatDropped(rs, s, s2, k, own, to) && IdsUpTo(rs, Ids(s2), k + 1) && !rs[k].natNet
    ensures CanShareList(s2, i, k) <==> Joins(rs, i, k)
  {
    DroppedFields(rs, names, s, s2, i, k, own, to);
    DroppedIds(rs, s2, i, k);
  }

  lemma DroppedIds(rs: seq<SnatRule>, s2: seq<Cmd>, i: nat, k: nat)
    requires i < k < |rs| == |s2| && IdsUpTo(rs, Ids(s2), k + 1)
    ensures s2[k].natId == s2[i].natId <==> Connected(rs, k + 1, i, k)
  {
    assert s2[i].natId == Ids(s2)[i] && s2[k].natId == Ids(s2)[k];
    EqualIds(rs, Ids(s2), k + 1, i, k);
  }

  lemma ListsState(rs: seq<SnatRule>, names: seq<AclName>, s: seq<Cmd>, s2: seq<Cmd>, s3: seq<Cmd>,
                   k: nat, own: int, to: int)
    requires k < |rs| && MergedUpTo(rs, names, s, k) && |s3| == |s2| == |s|
    requires RepeatDropped(rs, s, s2, k, own, to)
    requires if rs[k].natNet then s3 == s2 else ListsMerged(s2, s3, k, k)
    ensures MergeMove(rs, s, s3, k, own, to)
  {
    IdsStep(rs, Ids(s), Ids(s2), k, own, to);
    assert Ids(s3) == Ids(s2);
    assert MergedCmd(rs, names, s, k, k);
    if !rs[k].natNet {
      forall i | 0 <= i < k
        ensures CanShareList(s2, i, k) <==> Joins(rs, i, k)
      {
        SharesIfJoins(rs, names, s, s2, i, k, own, to);
      }
      LastSharedIsParent(rs, s2, k, k);
    }
  }

  /** The SNAT half of the processor for one rule. */
  method MergeSnat(cmds: seq<NatCmd>, k: nat,
                   ghost rs: seq<SnatRule>, ghost names: seq<AclName>, ghost s: seq<Cmd>)
    returns (ghost t: seq<Cmd>)
    requires Distinct(cmds) && k < |cmds| && Holds(cmds, s) && MergedUpTo(rs, names, s, k)
    modifies cmds
    ensures Holds(cmds, t) && MergedUpTo(rs, names, t, k + 1)
  {
    forall i | 0 <= i <= k
      ensures s[i].rule == rs[i]
    {
      assert MergedCmd(rs, names, s, i, k);
    }
    forall i, j | 0 <= i < k && 0 <= j < k && SamePool(s[i].rule, s[k].rule) && SamePool(s[j].rule, s[k].rule)
      ensures s[i].natId == s[j].natId
    {
      LinkedIds(rs, Ids(s), k, i, j);
    }
    SharePools(cmds, k, s);
    ghost var own := cmds[k].natId;
    ghost var s1 := s[k := cmds[k].Snap()];
    forall i | 0 <= i < k
      ensures SamePool(rs[i], rs[k]) <==> SamePool(s[i].rule, s[k].rule)
    {
      assert s[i].rule == rs[i] && s[k].rule == rs[k];
    }
    assert MergedCmd(rs, names, s, k, k);
    assert PoolShared(rs, s, s1, k, own);
    PoolSharedFresh(rs, names, s, s1, k, own);

    DropRepeat(cmds, k, s1);
    ghost var i := if Repeats(rs, k) then var i :| Represents(s1, i, k); i else 0;
    ghost var s2 := if Repeats(rs, k) then Dropped(s1, k, i) else s1;
    assert Holds(cmds, s2);
    DroppedState(rs, names, s, s1, s2, k, own, i);
    ghost var to := if Repeats(rs, k) then s1[i].natId else 0;

    t := s2;
    assert cmds[k].Snap() == s2[k];
    if !cmds[k].rule.natNet {
      t := MergeLists(cmds, k, s2);
    }
    ListsState(rs, names, s, s2, t, k, own, to);
    MergedStep(rs, names, s, t, k, own, to);
  }

  // ---- The compiler ----

  /** An atomic rule with its unique id; rules of other types create no commands here. */
  datatype NatRule = Snat(uid: string, snat: SnatRule) | Dnat(uid: string, dnat: DnatRule) | Other

  function SnatOf(rule: NatRule): seq<SnatRule> {
    if rule.Snat? then [rule.snat] else []
  }

  function DnatOf(rule: NatRule): seq<DnatRule> {
    if rule.Dnat? then [rule.dnat] else []
  }

  function Snats(rules: seq<NatRule>): seq<SnatRule> {
    if rules == [] then [] else Snats(rules[..|rules| - 1]) + SnatOf(rules[|rules| - 1])
  }

  function Dnats(rules: seq<NatRule>): seq<DnatRule> {
    if rules == [] then [] else Dnats(rules[..|rules| - 1]) + DnatOf(rules[|rules| - 1])
  }

  /** They are the rules of their kinds. */
  lemma {:induction false} KindsOf(rules: seq<NatRule>)
    ensures forall r :: r in Snats(rules) <==> exists uid :: Snat(uid, r) in rules
    ensures forall r :: r in Dnats(rules) <==> exists uid :: Dnat(uid, r) in rules
  {
    if rules != [] {
      var (front, last) := (rules[..|rules| - 1], rules[|rules| - 1]);
      KindsOf(front);
      assert rules == front + [last];
      forall x ensures x in rules <==> x in front || x == last {}
    }
  }

  lemma SnatsNext(rules: seq<NatRule>, p: nat)
    requires p < |rules|
    ensures Snats(rules[..p + 1]) == Snats(rules[..p]) + SnatOf(rules[p])
    ensures Dnats(rules[..p + 1]) == Dnats(rules[..p]) + DnatOf(rules[p])
  {
    assert rules[..p + 1][..p] == rules[..p];
  }

  lemma QueueNext(q: seq<Queued>, item: Queued)
    requires Numbered(q)
    requires (item.QSnat? ==> item.natCmd == CountSnat(q)) && (item.QDnat? ==> item.scCmd == CountDnat(q))
    ensures Numbered(q + [item])
    ensures CountSnat(q + [item]) == CountSnat(q) + if item.QSnat? then 1 else 0
    ensures CountDnat(q + [item]) == CountDnat(q) + if item.QDnat? then 1 else 0
  {
    assert (q + [item])[..|q|] == q;
  }

  /** Commands as created: own id, own list name, nothing ignored. */
  ghost predicate Created(rs: seq<SnatRule>, names: seq<AclName>, s: seq<Cmd>) {
    |rs| == |names| == |s| && forall i :: 0 <= i < |s| ==> s[i] == Cmd(rs[i], i + 1, names[i], false, false, false)
  }

  ghost predicate StaticsCreated(ds: seq<DnatRule>, dnames: seq<AclName>, t: seq<StaticState>) {
    |ds| == |dnames| == |t| && forall i :: 0 <= i < |t| ==> t[i] == StaticState(ds[i], dnames[i], false)
  }

  /** Names already given out are distinct and registered, and no list has been opened. */
  ghost predicate Registered(aclNames: map<AclName, int>, names: seq<AclName>, dnames: seq<AclName>) {
    && AllDistinct(names + dnames) && (forall x :: x in names + dnames ==> x in aclNames)
    && (forall x :: x in aclNames ==> aclNames[x] == 0)
  }

  lemma RegisterOne(aclNames: map<AclName, int>, names: seq<AclName>, dnames: seq<AclName>, x: AclName)
    requires Registered(aclNames, names, dnames) && x !in aclNames
    ensures Registered(aclNames[x := 0], names + [x], dnames)
    ensures Registered(aclNames[x := 0], names, dnames + [x])
  {
    var all := names + dnames;
    var c, e := names + [x] + dnames, names + (dnames + [x]);
    forall i, j | 0 <= i < j < |c|
      ensures c[i] != c[j] && e[i] != e[j]
    {
      assert forall k :: 0 <= k < |all| ==> all[k] in aclNames;
      assert forall k :: 0 <= k < |c| && k != |names| ==> c[k] == all[if k < |names| then k else k - 1];
      assert forall k :: 0 <= k < |all| ==> e[k] == all[k];
    }
  }

  class PixNatCompiler {
    /** The command with key `k + 1` is at position `k`: keys are handed out in order from 1. */
    var natCommands: seq<NatCmd>
    var staticCommands: seq<StaticCmd>
    var aclNames: map<AclName, int>
    var output: seq<Line>
    const aclSubstitution: bool

    constructor (aclSubstitution: bool)
      ensures natCommands == [] && staticCommands == [] && aclNames == map[] && output == []
      ensures this.aclSubstitution == aclSubstitution
    {
      natCommands, staticCommands, aclNames, output := [], [], map[], [];
      this.aclSubstitution := aclSubstitution;
    }

    /** A name for this rule's access list that is not registered yet. */
    method GetNatAclName(uid: string) returns (name: AclName)
      ensures name !in aclNames && name.rule == uid
      ensures forall n :: 0 <= n < name.n ==> AclName(uid, n) in aclNames
    {
      var n := 0;
      ghost var tried := {};
      while AclName(uid, n) in aclNames
        invariant forall m :: 0 <= m < n ==> AclName(uid, m) in aclNames
        invariant tried <= aclNames.Keys && forall x :: x in tried ==> x.n < n
        decreases aclNames.Keys - tried
      {
        tried := tried + {AclName(uid, n)};
        n := n + 1;
      }
      name := AclName(uid, n);
    }

    /** The command lists and the name table hold one fresh command per rule so far. */
    ghost predicate Holding(rs: seq<SnatRule>, ds: seq<DnatRule>, names: seq<AclName>, dnames: seq<AclName>,
                            s: seq<Cmd>, t: seq<StaticState>)
      reads this, natCommands, staticCommands
    {
      && Distinct(natCommands) && Holds(natCommands, s) && Created(rs, names, s)
      && StaticsDistinct(staticCommands) && StaticsHold(staticCommands, t) && StaticsCreated(ds, dnames, t)
      && Registered(aclNames, names, dnames)
    }

    ghost function Held(): set<object>
      reads this
    {
      (set c | c in natCommands) + (set c | c in staticCommands)
    }

    method CreateNatCmd(uid: string, r: SnatRule, ghost rs: seq<SnatRule>, ghost ds: seq<DnatRule>,
                        ghost names: seq<AclName>, ghost dnames: seq<AclName>, ghost s: seq<Cmd>,
                        ghost t: seq<StaticState>)
      returns (key: nat, ghost name: AclName, ghost c: Cmd)
      requires Holding(rs, ds, names, dnames, s, t)
      modifies this`natCommands, this`aclNames
      ensures key == |s| && old(natCommands) <= natCommands
      ensures forall k :: |old(natCommands)| <= k < |natCommands| ==> fresh(natCommands[k])
      ensures Holding(rs + [r], ds, names + [name], dnames, s + [c], t)
    {
      var aclName := GetNatAclName(uid);
      RegisterOne(aclNames, names, dnames, aclName);
      aclNames := aclNames[aclName := 0];
      var natcmd := new NatCmd(r, |natCommands| + 1, aclName);
      key := |natCommands|;
      natCommands := natCommands + [natcmd];
      name, c := aclName, natcmd.Snap();
    }

    method CreateStaticCmd(uid: string, r: DnatRule, ghost rs: seq<SnatRule>, ghost ds: seq<DnatRule>,
                           ghost names: seq<AclName>, ghost dnames: seq<AclName>, ghost s: seq<Cmd>,
                           ghost t: seq<StaticState>)
      returns (key: nat, ghost name: AclName, ghost c: StaticState)
      requires Holding(rs, ds, names, dnames, s, t)
      modifies this`staticCommands, this`aclNames
      ensures key == |t| && old(staticCommands) <= staticCommands
      ensures forall k :: |old(staticCommands)| <= k < |staticCommands| ==> fresh(staticCommands[k])
      ensures Holding(rs, ds + [r], names, dnames + [name], s, t + [c])
    {
      var aclName := GetNatAclName(uid);
      RegisterOne(aclNames, names, dnames, aclName);
      aclNames := aclNames[aclName := 0];
      var scmd := new StaticCmd(r, aclName);
      key := |staticCommands|;
      staticCommands := staticCommands + [scmd];
      name, c := aclName, scmd.Snap();
    }

    /** One command for a source or destination NAT rule, none for another. */
    method CreateCommand(rule: NatRule, ghost rs: seq<SnatRule>, ghost ds: seq<DnatRule>,
                         ghost names: seq<AclName>, ghost dnames: seq<AclName>, ghost s: seq<Cmd>,
                         ghost t: seq<StaticState>)
      returns (item: Queued, ghost names': seq<AclName>, ghost dnames': seq<AclName>,
               ghost s': seq<Cmd>, ghost t': seq<StaticState>, ghost made: set<object>)
      requires Holding(rs, ds, names, dnames, s, t)
      modifies this`natCommands, this`staticCommands, this`aclNames
      ensures Holding(rs + SnatOf(rule), ds + DnatOf(rule), names', dnames', s', t')
      ensures Held() <= old(Held()) + made && fresh(made)
      ensures match item
              case QSnat(key) => key == |s| && |s'| == |s| + 1 && t' == t
              case QDnat(key) => key == |t| && |t'| == |t| + 1 && s' == s
              case QOther => s' == s && t' == t
    {
      item, names', dnames', s', t', made := QOther, names, dnames, s, t, {};
      assert rs + [] == rs && ds + [] == ds;
      match rule {
        case Snat(uid, r) =>
          var key, name, c := CreateNatCmd(uid, r, rs, ds, names, dnames, s, t);
          item := QSnat(key);
          names', s', made := names + [name], s + [c], {natCommands[|s|]};
        case Dnat(uid, r) =>
          var key, name, c := CreateStaticCmd(uid, r, rs, ds, names, dnames, s, t);
          item := QDnat(key);
          dnames', t', made := dnames + [name], t + [c], {staticCommands[|t|]};
        case Other =>
      }
    }

    /** The command of the rule at `p`, if any, and the rule itself go to the end of the queue. */
    method CreateNext(rules: seq<NatRule>, p: nat, q: seq<Queued>, ghost names: seq<AclName>,
                      ghost dnames: seq<AclName>,
                      ghost s: seq<Cmd>, ghost t: seq<StaticState>)
      returns (queue: seq<Queued>, ghost names': seq<AclName>, ghost dnames': seq<AclName>,
               ghost s': seq<Cmd>, ghost t': seq<StaticState>, ghost made: set<object>)
      requires p < |rules| && Holding(Snats(rules[..p]), Dnats(rules[..p]), names, dnames, s, t)
      requires Numbered(q) && CountSnat(q) == |s| && CountDnat(q) == |t|
      modifies this`natCommands, this`staticCommands, this`aclNames
      ensures Holding(Snats(rules[..p + 1]), Dnats(rules[..p + 1]), names', dnames', s', t')
      ensures Held() <= old(Held()) + made && fresh(made)
      ensures Numbered(queue) && CountSnat(queue) == |s'| && CountDnat(queue) == |t'|
    {
      SnatsNext(rules, p);
      var item;
      item, names', dnames', s', t', made :=
        CreateCommand(rules[p], Snats(rules[..p]), Dnats(rules[..p]), names, dnames, s, t);
      QueueNext(q, item);
      queue := q + [item];
    }

    /** One command per source or destination NAT rule, in rule order. */
    method CreateCommands(rules: seq<NatRule>)
      returns (queue: seq<Queued>, ghost names: seq<AclName>, ghost dnames: seq<AclName>,
               ghost s: seq<Cmd>, ghost t: seq<StaticState>)
      requires natCommands == [] && staticCommands == [] && aclNames == map[]
      modifies this`natCommands, this`staticCommands, this`aclNames
      ensures Holding(Snats(rules), Dnats(rules), names, dnames, s, t)
      ensures fresh(Held())
      ensures Numbered(queue) && CountSnat(queue) == |s| && CountDnat(queue) == |t|
    {
      queue, names, dnames, s, t := [], [], [], [], [];
      var p := 0;
      ghost var made: set<object> := {};
      while p < |rules|
        invariant 0 <= p <= |rules|
        invariant Holding(Snats(rules[..p]), Dnats(rules[..p]), names, dnames, s, t)
        invariant fresh(made) && Held() <= made
        invariant Numbered(queue) && CountSnat(queue) == |s| && CountDnat(queue) == |t|
      {
        ghost var more;
        queue, names, dnames, s, t, more := CreateNext(rules, p, queue, names, dnames, s, t);
        made := made + more;
        p := p + 1;
      }
      assert rules[..p] == rules;
    }

    /** The command lists stand merged up to the first `n` and `m` commands. */
    ghost predicate MergedSoFar(rs: seq<SnatRule>, ds: seq<DnatRule>, names: seq<AclName>, dnames: seq<AclName>,
                                s: seq<Cmd>, t: seq<StaticState>, n: nat, m: nat)
      reads this, natCommands, staticCommands
    {
      && Distinct(natCommands) && Holds(natCommands, s) && MergedUpTo(rs, names, s, n)
      && StaticsDistinct(staticCommands) && StaticsHold(staticCommands, t) && StaticsUpTo(ds, dnames, t, m)
    }

    /** One rule of the merging processor. */
    method MergeRule(item: Queued, ghost rs: seq<SnatRule>, ghost ds: seq<DnatRule>,
                     ghost names: seq<AclName>, ghost dnames: seq<AclName>,
                     ghost s0: seq<Cmd>, ghost t0: seq<StaticState>, ghost n: nat, ghost m: nat,
                     ghost n': nat, ghost m': nat)
      returns (ghost s: seq<Cmd>, ghost t: seq<StaticState>)
      requires MergedSoFar(rs, ds, names, dnames, s0, t0, n, m)
      requires item.QSnat? ==> item.natCmd == n < |s0|
      requires item.QDnat? ==> item.scCmd == m < |t0|
      modifies natCommands, staticCommands
      requires n' == if item.QSnat? then n + 1 else n
      requires m' == if item.QDnat? then m + 1 else m
      ensures MergedSoFar(rs, ds, names, dnames, s, t, n', m')
    {
      s, t := s0, t0;
      if item.QSnat? {
        s := MergeSnat(natCommands, item.natCmd, rs, names, s0);
        assert StaticsHold(staticCommands, t0);
      } else if item.QDnat? {
        t := MergeDnat(staticCommands, item.scCmd, ds, dnames, t0);
        assert Holds(natCommands, s0);
      }
    }

    /** The rule at `p` of the queue. */
    method MergeNext(queue: seq<Queued>, p: nat, ghost rs: seq<SnatRule>, ghost ds: seq<DnatRule>,
                     ghost names: seq<AclName>, ghost dnames: seq<AclName>,
                     ghost s0: seq<Cmd>, ghost t0: seq<StaticState>)
      returns (ghost s: seq<Cmd>, ghost t: seq<StaticState>)
      requires Numbered(queue) && p < |queue| && CountSnat(queue) == |s0| && CountDnat(queue) == |t0|
      requires MergedSoFar(rs, ds, names, dnames, s0, t0, CountSnat(queue[..p]), CountDnat(queue[..p]))
      modifies natCommands, staticCommands
      ensures |s| == |s0| && |t| == |t0|
      ensures MergedSoFar(rs, ds, names, dnames, s, t, CountSnat(queue[..p + 1]), CountDnat(queue[..p + 1]))
    {
      NumberedAt(queue, p);
      s, t := MergeRule(queue[p], rs, ds, names, dnames, s0, t0, CountSnat(queue[..p]), CountDnat(queue[..p]),
                        CountSnat(queue[..p + 1]), CountDnat(queue[..p + 1]));
    }

    /** The merging processor: it waits for the whole queue, then edits the commands rule by rule. */
    method MergeNatCmd(queue: seq<Queued>, ghost rs: seq<SnatRule>, ghost ds: seq<DnatRule>,
                       ghost names: seq<AclName>, ghost dnames: seq<AclName>, ghost s0: seq<Cmd>,
                       ghost t0: seq<StaticState>)
      returns (ghost s: seq<Cmd>, ghost t: seq<StaticState>)
      requires Holding(rs, ds, names, dnames, s0, t0)
      requires Numbered(queue) && CountSnat(queue) == |s0| && CountDnat(queue) == |t0|
      modifies Held()
      ensures MergedSoFar(rs, ds, names, dnames, s, t, |s0|, |t0|)
    {
      s, t := s0, t0;
      var p := 0;
      assert queue[..|queue|] == queue;
      while p < |queue|
        invariant 0 <= p <= |queue|
        invariant MergedSoFar(rs, ds, names, dnames, s, t, CountSnat(queue[..p]), CountDnat(queue[..p]))
        invariant |s| == |s0| && |t| == |t0|
      {
        s, t := MergeNext(queue, p, rs, ds, names, dnames, s, t);
        p := p + 1;
      }
    }

    /** Lines for one source-NAT rule. */
    method PrintSnat(natcmd: NatCmd)
      modifies this`output, this`aclNames
      ensures output == old(output) + SnatLines(natcmd.Snap(), old(aclNames), aclSubstitution).0
      ensures aclNames == SnatLines(natcmd.Snap(), old(aclNames), aclSubstitution).1
      ensures var m := natcmd.rule.m;
              !natcmd.ignoreNat && !natcmd.rule.natNet ==>
                AccessList(natcmd.aclName, NatEntry(m.src, m.dst, m.srv)) in output
    {
      if !natcmd.ignoreGlobal {
        output := output + [Global(natcmd.rule.out.id, natcmd.natId, KeyOf(natcmd.rule.tAddr), TextOf(natcmd.rule))];
      }
      if natcmd.ignoreNat {
        output := output + [Comment];
      } else if natcmd.rule.natNet {
        output := output + [NatNet(natcmd.rule.m.iface, natcmd.natId, natcmd.rule.m.src)];
      } else {
        if GetFlag(aclNames, natcmd.aclName) == 0 && aclSubstitution {
          output := output + [ClearList(natcmd.aclName)];
          aclNames := aclNames[natcmd.aclName := 1];
        }
        output := output + [AccessList(natcmd.aclName, NatEntryOf(natcmd.rule))];
        if !natcmd.ignoreNatAndPrintAcl {
          output := output + [NatList(natcmd.rule.m.iface, natcmd.natId, natcmd.aclName)];
        }
      }
    }

    /** Lines for one destination-NAT rule. */
    method PrintDnat(scmd: StaticCmd)
      modifies this`output, this`aclNames
      ensures output == old(output) + DnatLines(scmd.Snap(), old(aclNames), aclSubstitution).0
      ensures aclNames == DnatLines(scmd.Snap(), old(aclNames), aclSubstitution).1
      ensures var r := scmd.rule;
              AccessList(scmd.aclName, StaticEntry(r.iaddr, r.tsrv, r.osrc, r.osrv)) in output
    {
      if GetFlag(aclNames, scmd.aclName) == 0 && aclSubstitution {
        output := output + [ClearList(scmd.aclName)];
        aclNames := aclNames[scmd.aclName := 1];
      }
      output := output + [AccessList(scmd.aclName, StaticEntryOf(scmd.rule))];
      if !scmd.ignoreScmdAndPrintAcl {
        output := output + [Static(scmd.rule.out, scmd.rule.iface, scmd.rule.oaddr, scmd.rule.osrv, scmd.aclName)];
      }
    }

    method PrintRules(queue: seq<Queued>, ghost s: seq<Cmd>, ghost t: seq<StaticState>)
      requires output == []
      requires Holds(natCommands, s) && StaticsHold(staticCommands, t)
      requires Numbered(queue) && CountSnat(queue) == |s| && CountDnat(queue) == |t|
      modifies this`output, this`aclNames
      ensures output == Printed(queue, s, t, old(aclNames), aclSubstitution).0
    {
      var p := 0;
      ghost var flags := aclNames;
      while p < |queue|
        invariant 0 <= p <= |queue|
        invariant Numbered(queue[..p]) && CountSnat(queue[..p]) <= |s| && CountDnat(queue[..p]) <= |t|
        invariant (output, aclNames) == Printed(queue[..p], s, t, flags, aclSubstitution)
      {
        NumberedAt(queue, p);
        match queue[p] {
          case QSnat(k) =>
            assert natCommands[k].Snap() == s[k];
            PrintSnat(natCommands[k]);
          case QDnat(k) =>
            assert staticCommands[k].Snap() == t[k];
            PrintDnat(staticCommands[k]);
          case QOther =>
        }
        p := p + 1;
      }
      assert queue[..p] == queue;
    }

    /** Create, merge, print.  What a firewall does on reading the output is compared with the rules
        themselves, for every list of rules. */
    method Compile(rules: seq<NatRule>)
      requires natCommands == [] && staticCommands == [] && aclNames == map[] && output == []
      requires forall r :: r in Snats(rules) ==> WellFormed(r)
      modifies this
      ensures Complete(output)
      ensures Exact(Snats(rules), Run(EMPTY, output)) <==> Rectangular(Snats(rules)) && ListsSurvive(Snats(rules))
      ensures ExactPools(Snats(rules), Run(EMPTY, output)) <==>
              Rectangular(Snats(rules)) && ListsSurvive(Snats(rules)) && PoolsAgree(Snats(rules))
      ensures DistinctMatches(Snats(rules)) ==>
                && Exact(Snats(rules), Run(EMPTY, output))
                && (ExactText(Snats(rules), Run(EMPTY, output)) <==> PoolsAgree(Snats(rules)))
      ensures RedirectsExactly(Dnats(rules), Run(EMPTY, output))
      ensures forall p, t :: Delivers(Run(EMPTY, output), p, t) <==>
                             exists uid, r :: Dnat(uid, r) in rules && Sends(r, p, t)
      ensures aclSubstitution ==>
                forall d: Device :: d.commands == {} ==> SameMeaning(Run(d, output), Run(EMPTY, output))
    {
      ghost var rs, ds := Snats(rules), Dnats(rules);
      var queue, names, dnames, s0, t0 := CreateCommands(rules);
      ghost var s, t := MergeNatCmd(queue, rs, ds, names, dnames, s0, t0);
      ghost var flags := aclNames;
      PrintRules(queue, s, t);
      OutputMeaning(queue, rs, ds, names, dnames, s, t, flags, aclSubstitution);
      KindsOf(rules);
      if aclSubstitution {
        OldLists(queue, rs, ds, names, dnames, s, t, flags);
      }
    }
  }

  ghost predicate RedirectsExactly(ds: seq<DnatRule>, d: Device) {
    forall out, iface, oaddr, osrv, e ::
      Redirects(d, out, iface, oaddr, osrv, e) <==> exists k :: Asks(ds, k, out, iface, oaddr, osrv, e)
  }

  /** All the meaning theorems for one printed queue. */
  lemma OutputMeaning(queue: seq<Queued>, rs: seq<SnatRule>, ds: seq<DnatRule>, names: seq<AclName>,
                      dnames: seq<AclName>,
                      s: seq<Cmd>, t: seq<StaticState>, flags: Flags, subst: bool)
    requires Merges(rs, ds, names, dnames, s, t)
    requires Numbered(queue) && CountSnat(queue) == |s| && CountDnat(queue) == |t|
    ensures var lines := Printed(queue, s, t, flags, subst).0;
            && Complete(lines)
            && (Exact(rs, Run(EMPTY, lines)) <==> Rectangular(rs) && ListsSurvive(rs))
            && (ExactPools(rs, Run(EMPTY, lines)) <==> Rectangular(rs) && ListsSurvive(rs) && PoolsAgree(rs))
            && (DistinctMatches(rs) ==>
                  Exact(rs, Run(EMPTY, lines)) && (ExactText(rs, Run(EMPTY, lines)) <==> PoolsAgree(rs)))
            && RedirectsExactly(ds, Run(EMPTY, lines)) && DeliversExactly(ds, Run(EMPTY, lines))
  {
    var (lines, flags') := Printed(queue, s, t, flags, subst);
    var d := Run(EMPTY, lines);
    PrintedReflected(queue, s, t, flags, subst);
    ListsAreComplete(queue, rs, ds, names, dnames, s, t, flags, subst);
    assert Compiled(rs, names, s, t, flags', subst, d) by {
      NamesApart(names, dnames);
    }
    ExactMeaning(rs, names, s, t, flags', subst, d);
    ExactPoolMeaning(rs, names, s, t, flags', subst, d);
    if DistinctMatches(rs) {
      DistinctIsExact(rs, names, s, t, flags', subst, d);
      ExactTextMeaning(rs, names, s, t, flags', subst, d);
    }
    DeliveryMeaning(rs, ds, names, dnames, s, t, flags', subst, d);
    forall out, iface, oaddr, osrv, e
      ensures Redirects(d, out, iface, oaddr, osrv, e) <==> exists k :: Asks(ds, k, out, iface, oaddr, osrv, e)
    {
      StaticMeaning(rs, ds, names, dnames, s, t, flags', subst, d, out, iface, oaddr, osrv, e);
    }
  }

  /** The lists an earlier configuration left behind make no difference. */
  lemma OldLists(queue: seq<Queued>, rs: seq<SnatRule>, ds: seq<DnatRule>, names: seq<AclName>, dnames: seq<AclName>,
                 s: seq<Cmd>, t: seq<StaticState>, flags: Flags)
    requires Merges(rs, ds, names, dnames, s, t) && Registered(flags, names, dnames)
    requires Numbered(queue) && CountSnat(queue) == |s| && CountDnat(queue) == |t|
    ensures var lines := Printed(queue, s, t, flags, true).0;
            forall d: Device :: d.commands == {} ==> SameMeaning(Run(d, lines), Run(EMPTY, lines))
  {
    var (lines, flags') := Printed(queue, s, t, flags, true);
    forall c | c in s ensures GetFlag(flags, c.aclName) == 0 {
      var i :| 0 <= i < |s| && s[i] == c;
      MergedAt(rs, names, s, i);
    }
    forall c | c in t ensures GetFlag(flags, c.aclName) == 0 {
      var i :| 0 <= i < |t| && t[i] == c;
      StaticAt(ds, dnames, t, i);
    }
    forall d: Device | d.commands == {} ensures SameMeaning(Run(d, lines), Run(EMPTY, lines)) {
      LeftoversForgotten(d, queue, s, t, flags);
      AlikeMeanTheSame(Run(d, lines), Run(EMPTY, lines), flags');
    }
  }

  /** The rule at position `p` carries the key of the next command of its kind. */
  lemma {:induction false} NumberedAt(q: seq<Queued>, p: nat)
    requires Numbered(q) && p < |q|
    ensures q[..p + 1][..p] == q[..p] && Numbered(q[..p + 1]) && Numbered(q[..p])
    ensures CountSnat(q[..p + 1]) <= CountSnat(q) && CountDnat(q[..p + 1]) <= CountDnat(q)
    ensures CountSnat(q[..p + 1]) == CountSnat(q[..p]) + (if q[p].QSnat? then 1 else 0)
    ensures CountDnat(q[..p + 1]) == CountDnat(q[..p]) + (if q[p].QDnat? then 1 else 0)
    ensures q[p].QSnat? ==> q[p].natCmd == CountSnat(q[..p])
    ensures q[p].QDnat? ==> q[p].scCmd == CountDnat(q[..p])
  {
    var front := q[..|q| - 1];
    assert q[..p + 1][..p] == q[..p];
    if p == |q| - 1 {
      assert q[..p + 1] == q;
    } else {
      NumberedAt(front, p);
      assert front[..p + 1] == q[..p + 1] && front[..p] == q[..p];
    }
  }
}
