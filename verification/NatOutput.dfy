/** Properties of the whole printed configuration: the order of its lines, and the meaning of its
    destination-NAT half. */
module NatOutput {
  import opened NatRules
  import opened NatMerge
  import opened StaticMerge
  import opened NatConfig
  import opened NatMeaning

  /** The whole compilation: both command lists merged, all list names from one table. */
  ghost predicate Merges(rs: seq<SnatRule>, ds: seq<DnatRule>, names: seq<AclName>, dnames: seq<AclName>,
                         s: seq<Cmd>, t: seq<StaticState>) {
    && (forall r :: r in rs ==> WellFormed(r))
    && Merged(rs, names, s) && StaticsMerged(ds, dnames, t)
    && AllDistinct(names + dnames)
  }

  lemma NamesApart(names: seq<AclName>, dnames: seq<AclName>)
    requires AllDistinct(names + dnames)
    ensures AllDistinct(names) && AllDistinct(dnames)
    ensures forall i, j :: 0 <= i < |names| && 0 <= j < |dnames| ==> names[i] != dnames[j]
  {
    var all := names + dnames;
    assert forall i :: 0 <= i < |names| ==> names[i] == all[i];
    assert forall j :: 0 <= j < |dnames| ==> dnames[j] == all[|names| + j];
  }

  // ---- Every list is complete before it is bound, and bound once ----

  predicate Binds(l: Line, name: AclName) {
    (l.NatList? || l.Static?) && l.name == name
  }

  predicate Touches(l: Line, name: AclName) {
    (l.NatList? || l.Static? || l.AccessList? || l.ClearList?) && l.name == name
  }

  /** Once a `nat` or `static` line names a list, no later line mentions the list again. */
  ghost predicate Complete(lines: seq<Line>) {
    forall i, j, name :: 0 <= i < j < |lines| && Binds(lines[i], name) ==> !Touches(lines[j], name)
  }

  lemma BinderIsLast(rs: seq<SnatRule>, l: nat, k: nat)
    requires l < k < |rs| && PrintsNat(rs, l) && !Repeats(rs, k)
    ensures Root(rs, l) != Root(rs, k)
  {
    if Root(rs, l) == Root(rs, k) {
      var c := Heir(rs, l, k);
      assert false;
    }
  }

  /** `name` was bound by one of the first `n` and `m` commands. */
  ghost predicate BoundBy(s: seq<Cmd>, n: nat, t: seq<StaticState>, m: nat, name: AclName)
    requires n <= |s| && m <= |t|
  {
    || (exists l :: 0 <= l < n && UsesList(s[l]) && !s[l].ignoreNatAndPrintAcl && s[l].aclName == name)
    || (exists l :: 0 <= l < m && !t[l].ignored && t[l].aclName == name)
  }

  lemma PrintedBinders(q: seq<Queued>, s: seq<Cmd>, t: seq<StaticState>, flags: Flags, subst: bool,
                       x: Line, name: AclName)
    requires Numbered(q) && CountSnat(q) <= |s| && CountDnat(q) <= |t|
    requires x in Printed(q, s, t, flags, subst).0 && Binds(x, name)
    ensures BoundBy(s, CountSnat(q), t, CountDnat(q), name)
  {
    PrintedReflected(q, s, t, flags, subst);
    RunCommands(EMPTY, Printed(q, s, t, flags, subst).0);
  }

  lemma BoundNamesAreDone(rs: seq<SnatRule>, ds: seq<DnatRule>, names: seq<AclName>, dnames: seq<AclName>,
                          s: seq<Cmd>, t: seq<StaticState>, n: nat, m: nat, name: AclName)
    requires Merges(rs, ds, names, dnames, s, t) && n <= |s| && m <= |t|
    requires BoundBy(s, n, t, m, name)
    ensures n < |s| && UsesList(s[n]) ==> s[n].aclName != name
    ensures m < |t| ==> t[m].aclName != name
  {
    NamesApart(names, dnames);
    if l :| 0 <= l < n && UsesList(s[l]) && !s[l].ignoreNatAndPrintAcl && s[l].aclName == name {
      MergedAt(rs, names, s, l);
      if m < |t| {
        StaticAt(ds, dnames, t, m);
      }
      if n < |s| && UsesList(s[n]) {
        MergedAt(rs, names, s, n);
        BinderIsLast(rs, l, n);
      }
    } else {
      var l :| 0 <= l < m && !t[l].ignored && t[l].aclName == name;
      StaticAt(ds, dnames, t, l);
      if n < |s| {
        MergedAt(rs, names, s, n);
      }
      if m < |t| {
        StaticAt(ds, dnames, t, m);
        SameFirst(ds, l, m);
      }
    }
  }

  lemma CompleteAppend(a: seq<Line>, b: seq<Line>)
    requires Complete(a) && Complete(b)
    requires forall x, y, name :: x in a && y in b && Binds(x, name) ==> !Touches(y, name)
    ensures Complete(a + b)
  {
    var c := a + b;
    forall i, j, name | 0 <= i < j < |c| && Binds(c[i], name)
      ensures !Touches(c[j], name)
    {
      if i < |a| {
        assert c[i] in a;
        if j >= |a| {
          assert c[j] in b;
        }
      } else {
        assert c[i] == b[i - |a|] && c[j] == b[j - |a|];
      }
    }
  }

  lemma SnatTouches(c: Cmd, flags: Flags, subst: bool)
    ensures var lines := SnatLines(c, flags, subst).0;
            && Complete(lines)
            && forall y, name :: y in lines && Touches(y, name) ==> UsesList(c) && c.aclName == name
  {
  }

  lemma DnatTouches(c: StaticState, flags: Flags, subst: bool)
    ensures var lines := DnatLines(c, flags, subst).0;
            && Complete(lines)
            && forall y, name :: y in lines && Touches(y, name) ==> c.aclName == name
  {
  }

  /** In any printed configuration each access list is complete before the one line that binds it. */
  lemma {:induction false} ListsAreComplete(q: seq<Queued>, rs: seq<SnatRule>, ds: seq<DnatRule>,
                                            names: seq<AclName>, dnames: seq<AclName>,
                                            s: seq<Cmd>, t: seq<StaticState>, flags: Flags, subst: bool)
    requires Merges(rs, ds, names, dnames, s, t)
    requires Numbered(q) && CountSnat(q) <= |s| && CountDnat(q) <= |t|
    ensures Complete(Printed(q, s, t, flags, subst).0)
  {
    if q != [] {
      var (front, last) := (q[..|q| - 1], q[|q| - 1]);
      ListsAreComplete(front, rs, ds, names, dnames, s, t, flags, subst);
      var (lines, flags1) := Printed(front, s, t, flags, subst);
      var (n, m) := (CountSnat(front), CountDnat(front));
      forall x, name | x in lines && Binds(x, name)
        ensures n < |s| && UsesList(s[n]) ==> s[n].aclName != name
        ensures m < |t| ==> t[m].aclName != name
      {
        PrintedBinders(front, s, t, flags, subst, x, name);
        BoundNamesAreDone(rs, ds, names, dnames, s, t, n, m, name);
      }
      match last
      case QSnat(_) =>
        SnatTouches(s[n], flags1, subst);
        CompleteAppend(lines, SnatLines(s[n], flags1, subst).0);
      case QDnat(_) =>
        DnatTouches(t[m], flags1, subst);
        CompleteAppend(lines, DnatLines(t[m], flags1, subst).0);
      case QOther =>
    }
  }

  // ---- Destination NAT ----

  /** Rule `k` asks for this redirection. */
  ghost predicate Asks(ds: seq<DnatRule>, k: int, out: int, iface: int, oaddr: int, osrv: int, e: Entry) {
    && 0 <= k < |ds| && ds[k].out == out && ds[k].iface == iface
    && ds[k].oaddr == oaddr && ds[k].osrv == osrv && e.StaticEntry?
    && e.iaddr == ds[k].iaddr && e.tsrv == ds[k].tsrv && e.osrc == ds[k].osrc && e.osrv == ds[k].osrv
  }

  /** The rule sends this packet there. */
  predicate Sends(r: DnatRule, p: Incoming, t: Target) {
    && p == Incoming(r.out, r.osrc, r.oaddr, r.osrv)
    && t == Target(r.iface, r.iaddr, r.tsrv)
  }

  /** Every packet is sent where some rule sends it, and nowhere else. */
  ghost predicate DeliversExactly(ds: seq<DnatRule>, d: Device) {
    forall p, t :: Delivers(d, p, t) <==> exists r :: r in ds && Sends(r, p, t)
  }

  lemma RedirectedIsAsked(ds: seq<DnatRule>, dnames: seq<AclName>, t: seq<StaticState>, l: nat, k: nat)
    requires StaticsMerged(ds, dnames, t) && AllDistinct(dnames)
    requires l < |t| && k < |t| && t[l].aclName == t[k].aclName
    ensures SameStatic(ds[k], ds[l])
  {
    StaticAt(ds, dnames, t, k);
    StaticAt(ds, dnames, t, l);
    SameFirst(ds, k, l);
  }

  lemma ListsApart(rs: seq<SnatRule>, ds: seq<DnatRule>, names: seq<AclName>, dnames: seq<AclName>,
                   s: seq<Cmd>, t: seq<StaticState>, i: nat, l: nat)
    requires Merges(rs, ds, names, dnames, s, t) && i < |s| && l < |t|
    ensures s[i].aclName != t[l].aclName
  {
    NamesApart(names, dnames);
    MergedAt(rs, names, s, i);
    StaticAt(ds, dnames, t, l);
  }

  lemma StaticInForce(s: seq<Cmd>, t: seq<StaticState>, flags: Flags, subst: bool, d: Device, x: Line) returns (l: nat)
    requires Reflects(d, s, |s|, t, |t|, flags, subst) && x.Static? && x in d.commands
    ensures l < |t| && !t[l].ignored && x == StaticOf(t[l])
  {
    l :| 0 <= l < |t| && !t[l].ignored && x == StaticOf(t[l]);
  }

  lemma EntryInForce(s: seq<Cmd>, t: seq<StaticState>, flags: Flags, subst: bool, d: Device, name: AclName, e: Entry)
    returns (k: nat)
    requires Reflects(d, s, |s|, t, |t|, flags, subst) && e in Entries(d, name)
    requires forall i :: 0 <= i < |s| ==> s[i].aclName != name
    ensures k < |t| && t[k].aclName == name && e == StaticEntryOf(t[k].rule)
  {
    k :| 0 <= k < |t| && t[k].aclName == name && e == StaticEntryOf(t[k].rule);
  }

  lemma AskedIsRedirected(ds: seq<DnatRule>, dnames: seq<AclName>, s: seq<Cmd>, t: seq<StaticState>,
                          flags: Flags, subst: bool, d: Device, k: nat)
    requires StaticsMerged(ds, dnames, t) && Reflects(d, s, |s|, t, |t|, flags, subst) && k < |ds|
    ensures Redirects(d, ds[k].out, ds[k].iface, ds[k].oaddr, ds[k].osrv, StaticEntryOf(ds[k]))
  {
    var l := LastSame(ds, k);
    SameFirst(ds, k, l);
    StaticAt(ds, dnames, t, k);
    StaticAt(ds, dnames, t, l);
    assert StaticOf(t[l]) in d.commands;
    assert StaticEntryOf(ds[k]) in Entries(d, t[k].aclName);
  }

  /** Each rule's redirection is in force and no other is, although equal `static` commands share
      one list and only the last of them prints its line. */
  lemma StaticMeaning(rs: seq<SnatRule>, ds: seq<DnatRule>, names: seq<AclName>, dnames: seq<AclName>,
                      s: seq<Cmd>, t: seq<StaticState>, flags: Flags, subst: bool, d: Device,
                      out: int, iface: int, oaddr: int, osrv: int, e: Entry)
    requires Merges(rs, ds, names, dnames, s, t) && Reflects(d, s, |s|, t, |t|, flags, subst)
    ensures Redirects(d, out, iface, oaddr, osrv, e) <==>
              exists k :: Asks(ds, k, out, iface, oaddr, osrv, e)
  {
    if k :| Asks(ds, k, out, iface, oaddr, osrv, e) {
      AskedIsRedirected(ds, dnames, s, t, flags, subst, d, k);
    }
    if name :| Static(out, iface, oaddr, osrv, name) in d.commands && e in Entries(d, name) {
      var l := StaticInForce(s, t, flags, subst, d, Static(out, iface, oaddr, osrv, name));
      forall i: nat | i < |s|
        ensures s[i].aclName != name
      {
        ListsApart(rs, ds, names, dnames, s, t, i, l);
      }
      var k := EntryInForce(s, t, flags, subst, d, name, e);
      NamesApart(names, dnames);
      RedirectedIsAsked(ds, dnames, t, l, k);
      StaticAt(ds, dnames, t, k);
      StaticAt(ds, dnames, t, l);
      assert Asks(ds, k, out, iface, oaddr, osrv, e);
    }
  }

  lemma DeliveryMeaning(rs: seq<SnatRule>, ds: seq<DnatRule>, names: seq<AclName>, dnames: seq<AclName>,
                        s: seq<Cmd>, t: seq<StaticState>, flags: Flags, subst: bool, d: Device)
    requires Merges(rs, ds, names, dnames, s, t) && Reflects(d, s, |s|, t, |t|, flags, subst)
    ensures DeliversExactly(ds, d)
  {
    forall p, q ensures Delivers(d, p, q) <==> exists r :: r in ds && Sends(r, p, q) {
      var e := StaticEntry(q.addr, q.srv, p.src, p.srv);
      StaticMeaning(rs, ds, names, dnames, s, t, flags, subst, d, p.iface, q.iface, p.dst, p.srv, e);
      if k :| Asks(ds, k, p.iface, q.iface, p.dst, p.srv, e) {
        assert ds[k] in ds && Sends(ds[k], p, q);
      }
      if r :| r in ds && Sends(r, p, q) {
        var k :| 0 <= k < |ds| && ds[k] == r;
        assert Asks(ds, k, p.iface, q.iface, p.dst, p.srv, e);
      }
    }
  }

  /** The last rule equal to rule `k`: the only one whose `static` is printed. */
  lemma {:induction false} LastSame(ds: seq<DnatRule>, k: nat) returns (l: nat)
    requires k < |ds|
    ensures k <= l < |ds| && SameStatic(ds[l], ds[k])
    ensures forall m :: l < m < |ds| ==> !SameStatic(ds[l], ds[m])
    decreases |ds| - k
  {
    l := k;
    if m :| k < m < |ds| && SameStatic(ds[k], ds[m]) {
      l := LastSame(ds, m);
    }
  }

  /** Rules that differ in the original source at most. */
  predicate AgreeButSource(a: DnatRule, b: DnatRule) {
    a == b.(osrc := a.osrc)
  }

  /** Each class of rules that agree but for the original source prints exactly one `static`. */
  lemma OneStaticPerClass(ds: seq<DnatRule>, dnames: seq<AclName>, t: seq<StaticState>, k: nat)
    requires StaticsMerged(ds, dnames, t) && k < |ds|
    ensures exists l :: 0 <= l < |ds| && AgreeButSource(ds[l], ds[k]) && !t[l].ignored && t[l].aclName == t[k].aclName
    ensures forall l, m | 0 <= l < |ds| && 0 <= m < |ds| && AgreeButSource(ds[l], ds[m]) ::
              !t[l].ignored && !t[m].ignored ==> l == m
    ensures forall l | 0 <= l < |ds| && t[l].aclName == t[k].aclName && AllDistinct(dnames) ::
              AgreeButSource(ds[l], ds[k])
  {
    var l := LastSame(ds, k);
    SameFirst(ds, l, k);
    forall i: nat | i < |ds|
      ensures t[i].aclName == dnames[FirstSame(ds, i)]
      ensures t[i].ignored <==> exists m :: i < m < |ds| && SameStatic(ds[i], ds[m])
      ensures SameStatic(ds[i], ds[k]) <==> FirstSame(ds, i) == FirstSame(ds, k)
    {
      StaticAt(ds, dnames, t, i);
      SameFirst(ds, i, k);
    }
  }
}
