/** What merging the `nat` commands must achieve, stated without the loops that achieve it, and
    the proof that one more command keeps it. */
module NatMerge {
  import opened NatRules

  /** `<rule>.<n>`, unique within the table of registered names. */
  datatype AclName = AclName(rule: string, n: nat)

  /** A command as it stands at one moment: the rule it came from and the fields merging edits. */
  datatype Cmd = Cmd(rule: SnatRule, natId: int, aclName: AclName,
                     ignoreNat: bool, ignoreNatAndPrintAcl: bool, ignoreGlobal: bool)

  /** An earlier rule selects the same packets. */
  ghost predicate Repeats(rs: seq<SnatRule>, k: nat)
    requires k < |rs|
  {
    exists j :: 0 <= j < k && SameMatch(rs[j], rs[k])
  }

  /** An earlier rule translates to the same pool. */
  ghost predicate SharesPool(rs: seq<SnatRule>, k: nat)
    requires k < |rs|
  {
    exists j :: 0 <= j < k && SamePool(rs[j], rs[k])
  }

  /** Command `j` hands its access list on to the later command `k`: both would use a list, they
      translate to the same object for the same interface, and their pools have been joined by
      the time `k` is processed. */
  ghost predicate Joins(rs: seq<SnatRule>, j: nat, k: nat)
    requires k < |rs|
  {
    && j < k
    && !Repeats(rs, j)
    && !rs[j].natNet && !rs[k].natNet
    && rs[j].tAddr == rs[k].tAddr
    && rs[j].m.iface == rs[k].m.iface
    && Connected(rs, k + 1, j, k)
  }

  /** The last command below `m` that hands its list to `k`, or -1. */
  ghost function LastJoined(rs: seq<SnatRule>, k: nat, m: nat): (j: int)
    requires m <= k < |rs|
    ensures -1 <= j < m
    ensures j >= 0 ==> Joins(rs, j, k)
    ensures forall i :: j < i < m ==> !Joins(rs, i, k)
  {
    if m == 0 then -1 else if Joins(rs, m - 1, k) then m - 1 else LastJoined(rs, k, m - 1)
  }

  ghost function Parent(rs: seq<SnatRule>, k: nat): int
    requires k < |rs|
  {
    LastJoined(rs, k, k)
  }

  /** The command whose access list command `k` ends up in. */
  ghost function Root(rs: seq<SnatRule>, k: nat): (r: nat)
    requires k < |rs|
    ensures r <= k
  {
    var j := Parent(rs, k);
    if j < 0 then k else Root(rs, j)
  }

  /** Ids of the first `k` rules are equal exactly on connected rules; the rest are fresh. */
  ghost predicate IdsUpTo(rs: seq<SnatRule>, ids: seq<int>, k: nat)
    requires k <= |rs| == |ids|
  {
    && (forall i, j {:trigger Connected(rs, k, i, j)} ::
          0 <= i < k && 0 <= j < k ==> (ids[i] == ids[j] <==> Connected(rs, k, i, j)))
    && (forall i :: 0 <= i < k ==> 1 <= ids[i] <= k)
    && (forall i :: k <= i < |rs| ==> ids[i] == i + 1)
  }

  ghost function Ids(s: seq<Cmd>): (ids: seq<int>)
    ensures |ids| == |s| && forall i {:trigger ids[i]} :: 0 <= i < |s| ==> ids[i] == s[i].natId
  {
    seq(|s|, i requires 0 <= i < |s| => s[i].natId)
  }

  /** Command `i` after the first `k` commands have been merged. */
  ghost predicate MergedCmd(rs: seq<SnatRule>, names: seq<AclName>, s: seq<Cmd>, i: nat, k: nat)
    requires i < |rs| == |names| == |s| && k <= |rs|
  {
    && s[i].rule == rs[i]
    && if i < k then
         && (s[i].ignoreGlobal <==> SharesPool(rs, i))
         && (s[i].ignoreNat <==> Repeats(rs, i))
         && s[i].aclName == names[Root(rs, i)]
         && (s[i].ignoreNatAndPrintAcl <==> exists m :: i < m < k && Joins(rs, i, m))
       else
         && s[i].aclName == names[i]
         && !s[i].ignoreGlobal && !s[i].ignoreNat && !s[i].ignoreNatAndPrintAcl
  }

  /** The state after the first `k` commands have been merged. */
  ghost predicate MergedUpTo(rs: seq<SnatRule>, names: seq<AclName>, s: seq<Cmd>, k: nat) {
    && k <= |rs| == |names| == |s|
    && IdsUpTo(rs, Ids(s), k)
    && forall i {:trigger MergedCmd(rs, names, s, i, k)} :: 0 <= i < |rs| ==> MergedCmd(rs, names, s, i, k)
  }

  ghost predicate Merged(rs: seq<SnatRule>, names: seq<AclName>, s: seq<Cmd>) {
    MergedUpTo(rs, names, s, |rs|)
  }

  // ---- The id classes ----

  lemma LinkedIds(rs: seq<SnatRule>, ids: seq<int>, k: nat, i: nat, j: nat)
    requires k <= |rs| == |ids| && IdsUpTo(rs, ids, k)
    requires i < k && j < k && Linked(rs[i], rs[j])
    ensures ids[i] == ids[j]
  {
    ConnectedLink(rs, k, i, j);
  }

  lemma EqualIds(rs: seq<SnatRule>, ids: seq<int>, k: nat, i: nat, j: nat)
    requires k <= |rs| == |ids| && IdsUpTo(rs, ids, k) && i < k && j < k
    ensures ids[i] == ids[j] <==> Connected(rs, k, i, j)
  {
  }

  /** Equal along every link, hence equal along every chain. */
  lemma {:induction false} ChainIds(rs: seq<SnatRule>, ids: seq<int>, k: nat, p: seq<nat>)
    requires k <= |rs| == |ids| && IsChain(rs, k, p)
    requires forall i, j :: 0 <= i < k && 0 <= j < k && Linked(rs[i], rs[j]) ==> ids[i] == ids[j]
    ensures ids[p[0]] == ids[p[|p| - 1]]
  {
    if |p| > 1 {
      var q := p[..|p| - 1];
      assert IsChain(rs, k, q);
      ChainIds(rs, ids, k, q);
      assert Linked(rs[p[|p| - 2]], rs[p[|p| - 2 + 1]]);
    }
  }

  /** The pool loop and the match loop, seen on ids: `own` is what the pool loop left in command
      `k`, `to` the id of the earlier command with the same match. */
  ghost predicate IdsMove(rs: seq<SnatRule>, d: seq<int>, e: seq<int>, k: nat, own: int, to: int)
    requires k < |rs| == |d| == |e|
  {
    && (if SharesPool(rs, k)
        then forall j :: 0 <= j < k && SamePool(rs[j], rs[k]) ==> own == d[j]
        else own == d[k])
    && (if Repeats(rs, k)
        then && (forall j :: 0 <= j < k && SameMatch(rs[j], rs[k]) ==> to == d[j])
             && (forall m :: 0 <= m < |rs| && m != k ==> e[m] == if d[m] == own then to else d[m])
             && e[k] == to
        else e == d[k := own])
  }

  lemma LinkedAfterMove(rs: seq<SnatRule>, d: seq<int>, e: seq<int>, k: nat, own: int, to: int,
                        i: nat, j: nat)
    requires k < |rs| == |d| == |e| && IdsUpTo(rs, d, k) && IdsMove(rs, d, e, k, own, to)
    requires i <= k && j <= k && Linked(rs[i], rs[j])
    ensures e[i] == e[j]
  {
    if i < k && j < k {
      LinkedIds(rs, d, k, i, j);
    } else if i != j {
      var x := if i == k then j else i;
      if SamePool(rs[x], rs[k]) {
        assert SharesPool(rs, k) && own == d[x];
      } else {
        assert SameMatch(rs[x], rs[k]);
        assert Repeats(rs, k) && to == d[x];
      }
    }
  }

  /** Everything that ends up with command `k`'s id is connected to it. */
  lemma ConnectedToNew(rs: seq<SnatRule>, d: seq<int>, e: seq<int>, k: nat, own: int, to: int, i: nat)
    requires k < |rs| == |d| == |e| && IdsUpTo(rs, d, k) && IdsMove(rs, d, e, k, own, to)
    requires i < k && e[i] == e[k]
    ensures Connected(rs, k + 1, i, k)
  {
    if d[i] == own {
      assert SharesPool(rs, k);
      var j :| 0 <= j < k && SamePool(rs[j], rs[k]);
      EqualIds(rs, d, k, i, j);
      ConnectedMonotone(rs, k, k + 1, i, j);
      ConnectedLink(rs, k + 1, j, k);
      ConnectedTransitive(rs, k + 1, i, j, k);
    } else {
      assert Repeats(rs, k);
      var j :| 0 <= j < k && SameMatch(rs[j], rs[k]);
      EqualIds(rs, d, k, i, j);
      ConnectedMonotone(rs, k, k + 1, i, j);
      ConnectedLink(rs, k + 1, j, k);
      ConnectedTransitive(rs, k + 1, i, j, k);
    }
  }

  lemma ConnectedAfterMove(rs: seq<SnatRule>, d: seq<int>, e: seq<int>, k: nat, own: int, to: int,
                           i: nat, j: nat)
    requires k < |rs| == |d| == |e| && IdsUpTo(rs, d, k) && IdsMove(rs, d, e, k, own, to)
    requires i <= k && j <= k && e[i] == e[j]
    ensures Connected(rs, k + 1, i, j)
  {
    if i == j {
      ConnectedLink(rs, k + 1, i, j);
    } else if i == k {
      ConnectedToNew(rs, d, e, k, own, to, j);
      ConnectedSymmetric(rs, k + 1, j, k);
    } else if j == k {
      ConnectedToNew(rs, d, e, k, own, to, i);
    } else if d[i] == d[j] {
      EqualIds(rs, d, k, i, j);
      ConnectedMonotone(rs, k, k + 1, i, j);
    } else {
      ConnectedToNew(rs, d, e, k, own, to, i);
      ConnectedToNew(rs, d, e, k, own, to, j);
      ConnectedSymmetric(rs, k + 1, j, k);
      ConnectedTransitive(rs, k + 1, i, k, j);
    }
  }

  /** One step of the relabelling keeps "equal id exactly when connected", and no command that is
      still to come loses its own id. */
  lemma IdsStep(rs: seq<SnatRule>, d: seq<int>, e: seq<int>, k: nat, own: int, to: int)
    requires k < |rs| == |d| == |e| && IdsUpTo(rs, d, k) && IdsMove(rs, d, e, k, own, to)
    ensures IdsUpTo(rs, e, k + 1)
  {
    forall i: nat, j: nat | i < k + 1 && j < k + 1
      ensures e[i] == e[j] <==> Connected(rs, k + 1, i, j)
    {
      if e[i] == e[j] {
        ConnectedAfterMove(rs, d, e, k, own, to, i, j);
      }
      if Connected(rs, k + 1, i, j) {
        var p :| IsChain(rs, k + 1, p) && p[0] == i && p[|p| - 1] == j;
        forall x, y | 0 <= x < k + 1 && 0 <= y < k + 1 && Linked(rs[x], rs[y])
          ensures e[x] == e[y]
        {
          LinkedAfterMove(rs, d, e, k, own, to, x, y);
        }
        ChainIds(rs, e, k + 1, p);
      }
    }
    assert 1 <= own <= k + 1;
    assert Repeats(rs, k) ==> 1 <= to <= k;
  }

  // ---- One whole step ----

  /** What processing command `k` changes in the command list. */
  ghost predicate MergeMove(rs: seq<SnatRule>, s: seq<Cmd>, s': seq<Cmd>, k: nat, own: int, to: int)
    requires k < |rs| == |s| == |s'|
  {
    && IdsMove(rs, Ids(s), Ids(s'), k, own, to)
    && (forall i :: 0 <= i < |s| && i != k ==>
          s'[i] == s[i].(natId := s'[i].natId,
                         ignoreNatAndPrintAcl := s[i].ignoreNatAndPrintAcl || Joins(rs, i, k)))
    && var j := Parent(rs, k);
       s'[k] == s[k].(natId := s'[k].natId,
                      aclName := if j < 0 then s[k].aclName else s[j].aclName,
                      ignoreGlobal := SharesPool(rs, k),
                      ignoreNat := Repeats(rs, k))
  }

  /** Each processed command keeps the invariant of the merged prefix. */
  lemma MergedStep(rs: seq<SnatRule>, names: seq<AclName>, s: seq<Cmd>, s': seq<Cmd>,
                   k: nat, own: int, to: int)
    requires MergedUpTo(rs, names, s, k) && k < |rs| && |s'| == |s|
    requires MergeMove(rs, s, s', k, own, to)
    ensures MergedUpTo(rs, names, s', k + 1)
  {
    IdsStep(rs, Ids(s), Ids(s'), k, own, to);
    var n := k + 1;
    forall i: nat | i < |rs|
      ensures MergedCmd(rs, names, s', i, n)
    {
      assert MergedCmd(rs, names, s, i, k);
      if i == k {
        if Parent(rs, k) >= 0 {
          assert MergedCmd(rs, names, s, Parent(rs, k), k);
        }
      } else if i < k && s'[i].ignoreNatAndPrintAcl && !Joins(rs, i, k) {
        var m :| i < m < k && Joins(rs, i, m);
      }
    }
  }

  /** What a finished merge says about one command. */
  lemma MergedAt(rs: seq<SnatRule>, names: seq<AclName>, s: seq<Cmd>, i: nat)
    requires Merged(rs, names, s) && i < |rs|
    ensures s[i].rule == rs[i]
    ensures s[i].ignoreGlobal <==> SharesPool(rs, i)
    ensures s[i].ignoreNat <==> Repeats(rs, i)
    ensures s[i].aclName == names[Root(rs, i)]
    ensures s[i].ignoreNatAndPrintAcl <==> exists m :: i < m < |rs| && Joins(rs, i, m)
  {
    assert MergedCmd(rs, names, s, i, |rs|);
  }

  /** After merging, ids are equal exactly on commands that are connected by pools and matches. */
  lemma SameId(rs: seq<SnatRule>, names: seq<AclName>, s: seq<Cmd>, i: nat, j: nat)
    requires Merged(rs, names, s) && i < |rs| && j < |rs|
    ensures s[i].natId == s[j].natId <==> Connected(rs, |rs|, i, j)
  {
    EqualIds(rs, Ids(s), |rs|, i, j);
  }
}
