/** The configuration lines the NAT compiler prints (6.3 and later), and what a firewall that
    reads them in order ends up doing. */
module NatConfig {
  import opened NatRules
  import opened NatMerge
  import opened StaticMerge

  datatype Entry =
    | NatEntry(src: int, dst: int, srv: int)
    | StaticEntry(iaddr: int, tsrv: int, osrc: int, osrv: int)

  datatype Line =
    | Global(out: int, id: int, key: PoolKey, text: PoolText)
    | ClearList(name: AclName)
    | AccessList(name: AclName, entry: Entry)
    | NatList(iface: int, id: int, name: AclName)
    | NatNet(iface: int, id: int, src: int)
    | Static(out: int, iface: int, oaddr: int, osrv: int, name: AclName)
    | Comment

  /** The firewall after reading the configuration: the commands it holds and its access lists. */
  datatype Device = Device(commands: set<Line>, lists: map<AclName, set<Entry>>)

  function Entries(d: Device, name: AclName): set<Entry> {
    if name in d.lists then d.lists[name] else {}
  }

  function Read(d: Device, l: Line): Device {
    match l
    case ClearList(name) => d.(lists := d.lists[name := {}])
    case AccessList(name, e) => d.(lists := d.lists[name := Entries(d, name) + {e}])
    case Comment => d
    case _ => d.(commands := d.commands + {l})
  }

  function Run(d: Device, lines: seq<Line>): Device
    decreases |lines|
  {
    if lines == [] then d else Run(Read(d, lines[0]), lines[1..])
  }

  const EMPTY := Device({}, map[])

  /** Packets selected by `m` get translation id `id`. */
  ghost predicate Selects(d: Device, m: Match, id: int) {
    || (exists name :: NatList(m.iface, id, name) in d.commands &&
                       NatEntry(m.src, m.dst, m.srv) in Entries(d, name))
    || (m.dst == ANY && m.srv == ANY && NatNet(m.iface, id, m.src) in d.commands)
  }

  /** Packets selected by `m` may be translated to pool `key` when they leave through `out`. */
  ghost predicate Translates(d: Device, m: Match, out: int, key: PoolKey) {
    exists id, text :: Global(out, id, key, text) in d.commands && Selects(d, m, id)
  }

  ghost predicate TranslatesAs(d: Device, m: Match, out: int, text: PoolText) {
    exists id, key :: Global(out, id, key, text) in d.commands && Selects(d, m, id)
  }

  /** They are translated to pool `key`, and the pool is spelled `text`. */
  ghost predicate TranslatesTo(d: Device, m: Match, out: int, key: PoolKey, text: PoolText) {
    exists id :: Global(out, id, key, text) in d.commands && Selects(d, m, id)
  }

  /** A destination translation is in force for this entry. */
  ghost predicate Redirects(d: Device, out: int, iface: int, oaddr: int, osrv: int, e: Entry) {
    exists name :: Static(out, iface, oaddr, osrv, name) in d.commands && e in Entries(d, name)
  }

  /** A packet that comes in from outside, and where it can be sent on to. */
  datatype Incoming = Incoming(iface: int, src: int, dst: int, srv: int)
  datatype Target = Target(iface: int, addr: int, srv: int)

  /** Some `static` line takes the packet, and an entry of its list names the packet's source and the
      target. */
  ghost predicate Delivers(d: Device, p: Incoming, t: Target) {
    exists name, e :: Static(p.iface, t.iface, p.dst, p.srv, name) in d.commands && e in Entries(d, name) &&
                      e.StaticEntry? && e.osrc == p.src && e.osrv == p.srv && e.iaddr == t.addr && e.tsrv == t.srv
  }

  // ---- Printing ----

  type Flags = map<AclName, int>

  function GetFlag(flags: Flags, name: AclName): int {
    if name in flags then flags[name] else -1
  }

  /** The lines that open an access list, and the flag table after them. */
  function ClearLines(flags: Flags, subst: bool, name: AclName): (seq<Line>, Flags) {
    if GetFlag(flags, name) == 0 && subst then ([ClearList(name)], flags[name := 1]) else ([], flags)
  }

  function NatEntryOf(r: SnatRule): Entry {
    NatEntry(r.m.src, r.m.dst, r.m.srv)
  }

  function GlobalOf(c: Cmd): Line {
    Global(c.rule.out.id, c.natId, KeyOf(c.rule.tAddr), TextOf(c.rule))
  }

  function GlobalLines(c: Cmd): seq<Line> {
    if c.ignoreGlobal then [] else [GlobalOf(c)]
  }

  predicate UsesList(c: Cmd) {
    !c.ignoreNat && !c.rule.natNet
  }

  function SnatLines(c: Cmd, flags: Flags, subst: bool): (seq<Line>, Flags) {
    if c.ignoreNat then (GlobalLines(c) + [Comment], flags)
    else if c.rule.natNet then (GlobalLines(c) + [NatNet(c.rule.m.iface, c.natId, c.rule.m.src)], flags)
    else
      var (clear, flags') := ClearLines(flags, subst, c.aclName);
      (GlobalLines(c) + clear + [AccessList(c.aclName, NatEntryOf(c.rule))] +
       (if c.ignoreNatAndPrintAcl then [] else [NatList(c.rule.m.iface, c.natId, c.aclName)]), flags')
  }

  function StaticEntryOf(r: DnatRule): Entry {
    StaticEntry(r.iaddr, r.tsrv, r.osrc, r.osrv)
  }

  function StaticOf(c: StaticState): Line {
    Static(c.rule.out, c.rule.iface, c.rule.oaddr, c.rule.osrv, c.aclName)
  }

  function DnatLines(c: StaticState, flags: Flags, subst: bool): (seq<Line>, Flags) {
    var (clear, flags') := ClearLines(flags, subst, c.aclName);
    (clear + [AccessList(c.aclName, StaticEntryOf(c.rule))] + (if c.ignored then [] else [StaticOf(c)]), flags')
  }

  /** An atomic rule in the queue, carrying the key of the command created for it. */
  datatype Queued = QSnat(natCmd: nat) | QDnat(scCmd: nat) | QOther

  function CountSnat(q: seq<Queued>): (n: nat)
    ensures n <= |q|
  {
    if q == [] then 0
    else CountSnat(q[..|q| - 1]) + if q[|q| - 1].QSnat? then 1 else 0
  }

  function CountDnat(q: seq<Queued>): (n: nat)
    ensures n <= |q|
  {
    if q == [] then 0
    else CountDnat(q[..|q| - 1]) + if q[|q| - 1].QDnat? then 1 else 0
  }

  /** Commands were created in queue order, so keys grow along the queue. */
  ghost predicate Numbered(q: seq<Queued>) {
    if q == [] then true
    else
      var (front, last) := (q[..|q| - 1], q[|q| - 1]);
      && Numbered(front)
      && (last.QSnat? ==> last.natCmd == CountSnat(front))
      && (last.QDnat? ==> last.scCmd == CountDnat(front))
  }

  /** Everything printed for the queue. */
  function Printed(q: seq<Queued>, s: seq<Cmd>, t: seq<StaticState>, flags: Flags, subst: bool): (seq<Line>, Flags)
    requires Numbered(q) && CountSnat(q) <= |s| && CountDnat(q) <= |t|
  {
    if q == [] then ([], flags)
    else
      var (front, last) := (q[..|q| - 1], q[|q| - 1]);
      var (lines, flags1) := Printed(front, s, t, flags, subst);
      match last
      case QSnat(k) => var (more, flags2) := SnatLines(s[k], flags1, subst); (lines + more, flags2)
      case QDnat(k) => var (more, flags2) := DnatLines(t[k], flags1, subst); (lines + more, flags2)
      case QOther => (lines, flags1)
  }

  lemma {:induction false} RunAppend(d: Device, a: seq<Line>, b: seq<Line>)
    ensures Run(d, a + b) == Run(Run(d, a), b)
    decreases |a|
  {
    if a == [] {
      assert a + b == b;
    } else {
      assert (a + b)[0] == a[0] && (a + b)[1..] == a[1..] + b;
      RunAppend(Read(d, a[0]), a[1..], b);
    }
  }

  // ---- The device in closed form ----

  ghost predicate CommandFromSnat(c: Cmd, l: Line) {
    || (!c.ignoreGlobal && l == GlobalOf(c))
    || (!c.ignoreNat && c.rule.natNet && l == NatNet(c.rule.m.iface, c.natId, c.rule.m.src))
    || (UsesList(c) && !c.ignoreNatAndPrintAcl && l == NatList(c.rule.m.iface, c.natId, c.aclName))
  }

  /** The device holds exactly the commands and list entries of the first `n` and `m` commands, and
      a list whose flag is still 0 has not been started. */
  ghost predicate Reflects(d: Device, s: seq<Cmd>, n: nat, t: seq<StaticState>, m: nat, flags: Flags, subst: bool)
    requires n <= |s| && m <= |t|
  {
    && (forall l :: l in d.commands <==>
          (exists i :: 0 <= i < n && CommandFromSnat(s[i], l)) ||
          (exists i :: 0 <= i < m && !t[i].ignored && l == StaticOf(t[i])))
    && (forall name, e :: e in Entries(d, name) <==>
          (exists i :: 0 <= i < n && UsesList(s[i]) && s[i].aclName == name && e == NatEntryOf(s[i].rule)) ||
          (exists i :: 0 <= i < m && t[i].aclName == name && e == StaticEntryOf(t[i].rule)))
    && (subst ==> forall name :: GetFlag(flags, name) == 0 ==> Entries(d, name) == {})
  }

  /** Opening a list never loses an entry. */
  lemma ClearKeeps(d: Device, flags: Flags, subst: bool, name: AclName)
    requires subst ==> forall x :: GetFlag(flags, x) == 0 ==> Entries(d, x) == {}
    ensures var (lines, flags') := ClearLines(flags, subst, name);
            && Run(d, lines).commands == d.commands
            && (forall x :: Entries(Run(d, lines), x) == Entries(d, x))
            && (subst ==> forall x :: GetFlag(flags', x) == 0 ==> x != name && GetFlag(flags, x) == 0)
  {
    var (lines, flags') := ClearLines(flags, subst, name);
    if lines != [] {
      assert Run(d, lines) == Run(Read(d, lines[0]), []) == Read(d, ClearList(name));
    }
  }

  predicate IsCommand(l: Line) {
    !l.ClearList? && !l.AccessList? && !l.Comment?
  }

  lemma {:induction false} RunCommands(d: Device, lines: seq<Line>)
    ensures forall l :: l in Run(d, lines).commands <==> l in d.commands || (l in lines && IsCommand(l))
    decreases |lines|
  {
    if lines != [] {
      RunCommands(Read(d, lines[0]), lines[1..]);
      assert lines == [lines[0]] + lines[1..];
    }
  }

  lemma {:induction false} RunKeepsLists(d: Device, lines: seq<Line>)
    requires forall l :: l in lines ==> IsCommand(l) || l.Comment?
    ensures Run(d, lines).lists == d.lists
    decreases |lines|
  {
    if lines != [] {
      assert lines[0] in lines;
      RunKeepsLists(Read(d, lines[0]), lines[1..]);
    }
  }

  /** One list entry printed between commands: the entry is added and nothing else is lost. */
  lemma RunEntry(d: Device, before: seq<Line>, flags: Flags, subst: bool, name: AclName, e: Entry, after: seq<Line>)
    requires subst ==> forall x :: GetFlag(flags, x) == 0 ==> Entries(d, x) == {}
    requires forall l :: l in before ==> IsCommand(l)
    requires forall l :: l in after ==> IsCommand(l)
    ensures var (clear, flags') := ClearLines(flags, subst, name);
            var d' := Run(d, before + clear + [AccessList(name, e)] + after);
            && (forall x :: Entries(d', x) == if x == name then Entries(d, x) + {e} else Entries(d, x))
            && (subst ==> forall x :: GetFlag(flags', x) == 0 ==> Entries(d', x) == {})
  {
    var (clear, flags') := ClearLines(flags, subst, name);
    var entry := [AccessList(name, e)];
    RunAppend(d, before + clear + entry, after);
    RunAppend(d, before + clear, entry);
    RunAppend(d, before, clear);
    var d1 := Run(d, before);
    RunKeepsLists(d, before);
    assert forall x :: Entries(d1, x) == Entries(d, x);
    ClearKeeps(d1, flags, subst, name);
    var d2 := Run(d1, clear);
    var d3 := Run(d2, entry);
    assert d3 == Run(Read(d2, entry[0]), []) == Read(d2, AccessList(name, e));
    RunKeepsLists(d3, after);
  }

  lemma SnatEntries(d: Device, c: Cmd, flags: Flags, subst: bool)
    requires subst ==> forall x :: GetFlag(flags, x) == 0 ==> Entries(d, x) == {}
    ensures var (lines, flags') := SnatLines(c, flags, subst);
            var d' := Run(d, lines);
            && (forall x :: Entries(d', x) ==
                            if UsesList(c) && x == c.aclName then Entries(d, x) + {NatEntryOf(c.rule)}
                            else Entries(d, x))
            && (subst ==> forall x :: GetFlag(flags', x) == 0 ==> Entries(d', x) == {})
  {
    var (lines, flags') := SnatLines(c, flags, subst);
    if UsesList(c) {
      var (clear, _) := ClearLines(flags, subst, c.aclName);
      var after := if c.ignoreNatAndPrintAcl then [] else [NatList(c.rule.m.iface, c.natId, c.aclName)];
      assert lines == GlobalLines(c) + clear + [AccessList(c.aclName, NatEntryOf(c.rule))] + after;
      RunEntry(d, GlobalLines(c), flags, subst, c.aclName, NatEntryOf(c.rule), after);
    } else {
      RunKeepsLists(d, lines);
    }
  }

  lemma SnatCommands(d: Device, c: Cmd, flags: Flags, subst: bool)
    ensures var lines := SnatLines(c, flags, subst).0;
            forall l :: l in Run(d, lines).commands <==> l in d.commands || CommandFromSnat(c, l)
  {
    RunCommands(d, SnatLines(c, flags, subst).0);
  }

  lemma SnatReflected(d: Device, s: seq<Cmd>, n: nat, t: seq<StaticState>, m: nat, flags: Flags, subst: bool)
    requires n < |s| && m <= |t| && Reflects(d, s, n, t, m, flags, subst)
    ensures var (lines, flags') := SnatLines(s[n], flags, subst);
            Reflects(Run(d, lines), s, n + 1, t, m, flags', subst)
  {
    SnatEntries(d, s[n], flags, subst);
    SnatCommands(d, s[n], flags, subst);
  }

  lemma DnatEntries(d: Device, c: StaticState, flags: Flags, subst: bool)
    requires subst ==> forall x :: GetFlag(flags, x) == 0 ==> Entries(d, x) == {}
    ensures var (lines, flags') := DnatLines(c, flags, subst);
            var d' := Run(d, lines);
            && (forall x :: Entries(d', x) ==
                            if x == c.aclName then Entries(d, x) + {StaticEntryOf(c.rule)} else Entries(d, x))
            && (subst ==> forall x :: GetFlag(flags', x) == 0 ==> Entries(d', x) == {})
  {
    var (lines, _) := DnatLines(c, flags, subst);
    var (clear, _) := ClearLines(flags, subst, c.aclName);
    var after := if c.ignored then [] else [StaticOf(c)];
    assert lines == [] + clear + [AccessList(c.aclName, StaticEntryOf(c.rule))] + after;
    RunEntry(d, [], flags, subst, c.aclName, StaticEntryOf(c.rule), after);
  }

  lemma DnatCommands(d: Device, c: StaticState, flags: Flags, subst: bool)
    ensures var lines := DnatLines(c, flags, subst).0;
            forall l :: l in Run(d, lines).commands <==> l in d.commands || (!c.ignored && l == StaticOf(c))
  {
    RunCommands(d, DnatLines(c, flags, subst).0);
  }

  lemma DnatReflected(d: Device, s: seq<Cmd>, n: nat, t: seq<StaticState>, m: nat, flags: Flags, subst: bool)
    requires n <= |s| && m < |t| && Reflects(d, s, n, t, m, flags, subst)
    ensures var (lines, flags') := DnatLines(t[m], flags, subst);
            Reflects(Run(d, lines), s, n, t, m + 1, flags', subst)
  {
    DnatEntries(d, t[m], flags, subst);
    DnatCommands(d, t[m], flags, subst);
  }

  /** Reading everything printed leaves exactly the commands and entries the flags let through. */
  lemma {:induction false} PrintedReflected(q: seq<Queued>, s: seq<Cmd>, t: seq<StaticState>,
                                            flags: Flags, subst: bool)
    requires Numbered(q) && CountSnat(q) <= |s| && CountDnat(q) <= |t|
    ensures var (lines, flags') := Printed(q, s, t, flags, subst);
            Reflects(Run(EMPTY, lines), s, CountSnat(q), t, CountDnat(q), flags', subst)
  {
    if q != [] {
      var (front, last) := (q[..|q| - 1], q[|q| - 1]);
      PrintedReflected(front, s, t, flags, subst);
      var (lines, flags1) := Printed(front, s, t, flags, subst);
      var d := Run(EMPTY, lines);
      match last
      case QSnat(k) =>
        RunAppend(EMPTY, lines, SnatLines(s[k], flags1, subst).0);
        SnatReflected(d, s, k, t, CountDnat(front), flags1, subst);
      case QDnat(k) =>
        RunAppend(EMPTY, lines, DnatLines(t[k], flags1, subst).0);
        DnatReflected(d, s, CountSnat(front), t, k, flags1, subst);
      case QOther =>
    }
  }

  // ---- Lists left over from an earlier configuration ----

  /** The devices hold the same commands; every list that has been opened is the same on both, and
      commands only name such lists. */
  ghost predicate Alike(d: Device, e: Device, flags: Flags) {
    && d.commands == e.commands
    && (forall x :: GetFlag(flags, x) == 1 ==> Entries(d, x) == Entries(e, x))
    && (forall l :: l in d.commands && (l.NatList? || l.Static?) ==> GetFlag(flags, l.name) == 1)
  }

  lemma {:induction false} ReadCommands(d: Device, e: Device, lines: seq<Line>, flags: Flags)
    requires Alike(d, e, flags)
    requires forall l :: l in lines ==> IsCommand(l) || l.Comment?
    requires forall l :: l in lines && (l.NatList? || l.Static?) ==> GetFlag(flags, l.name) == 1
    ensures Alike(Run(d, lines), Run(e, lines), flags)
    decreases |lines|
  {
    if lines != [] {
      assert lines[0] in lines;
      ReadCommands(Read(d, lines[0]), Read(e, lines[0]), lines[1..], flags);
    }
  }

  /** A list that is opened is cleared first, so what was on it is forgotten. */
  lemma ReadEntry(d: Device, e: Device, flags: Flags, name: AclName, entry: Entry)
    requires Alike(d, e, flags) && 0 <= GetFlag(flags, name) <= 1
    ensures var (clear, flags') := ClearLines(flags, true, name);
            var lines := clear + [AccessList(name, entry)];
            && Alike(Run(d, lines), Run(e, lines), flags') && GetFlag(flags', name) == 1
            && (forall x :: x != name ==> GetFlag(flags', x) == GetFlag(flags, x))
  {
    var (clear, flags') := ClearLines(flags, true, name);
    var l := AccessList(name, entry);
    RunAppend(d, clear, [l]);
    RunAppend(e, clear, [l]);
    if clear != [] {
      assert Run(d, clear) == Run(Read(d, clear[0]), []) == Read(d, ClearList(name));
      assert Run(e, clear) == Run(Read(e, clear[0]), []) == Read(e, ClearList(name));
    }
    var d1, e1 := Run(d, clear), Run(e, clear);
    assert Run(d1, [l]) == Run(Read(d1, l), []) == Read(d1, l);
    assert Run(e1, [l]) == Run(Read(e1, l), []) == Read(e1, l);
    assert Entries(d1, name) == Entries(e1, name);
    forall x | GetFlag(flags', x) == 1 ensures Entries(Read(d1, l), x) == Entries(Read(e1, l), x) {
      if x != name {
        assert GetFlag(flags, x) == 1 && Entries(d1, x) == Entries(d, x) && Entries(e1, x) == Entries(e, x);
      }
    }
  }

  /** All lists are registered, opened or not. */
  ghost predicate AllKnown(s: seq<Cmd>, t: seq<StaticState>, flags: Flags) {
    && (forall c :: c in s ==> 0 <= GetFlag(flags, c.aclName) <= 1)
    && (forall c :: c in t ==> 0 <= GetFlag(flags, c.aclName) <= 1)
  }

  /** What comes before an entry, the entry, and what comes after it. */
  lemma ReadAround(d: Device, e: Device, flags: Flags, name: AclName, entry: Entry,
                   before: seq<Line>, after: seq<Line>)
    requires Alike(d, e, flags) && 0 <= GetFlag(flags, name) <= 1
    requires forall l :: l in before ==> IsCommand(l) && !l.NatList? && !l.Static?
    requires forall l :: l in after ==> IsCommand(l) && (l.NatList? || l.Static? ==> l.name == name)
    ensures var (clear, flags') := ClearLines(flags, true, name);
            var lines := before + clear + [AccessList(name, entry)] + after;
            && Alike(Run(d, lines), Run(e, lines), flags') && GetFlag(flags', name) == 1
            && (forall x :: x != name ==> GetFlag(flags', x) == GetFlag(flags, x))
  {
    var (clear, flags') := ClearLines(flags, true, name);
    var middle := clear + [AccessList(name, entry)];
    assert before + clear + [AccessList(name, entry)] + after == before + (middle + after);
    ReadCommands(d, e, before, flags);
    ReadEntry(Run(d, before), Run(e, before), flags, name, entry);
    ReadCommands(Run(Run(d, before), middle), Run(Run(e, before), middle), after, flags');
    RunAppend(d, before, middle + after);
    RunAppend(Run(d, before), middle, after);
    RunAppend(e, before, middle + after);
    RunAppend(Run(e, before), middle, after);
  }

  lemma SnatAlike(d: Device, e: Device, c: Cmd, flags: Flags)
    requires Alike(d, e, flags) && 0 <= GetFlag(flags, c.aclName) <= 1
    ensures var (lines, flags') := SnatLines(c, flags, true);
            && Alike(Run(d, lines), Run(e, lines), flags')
            && (forall x :: 0 <= GetFlag(flags, x) <= 1 ==> 0 <= GetFlag(flags', x) <= 1)
  {
    if UsesList(c) {
      var after := if c.ignoreNatAndPrintAcl then [] else [NatList(c.rule.m.iface, c.natId, c.aclName)];
      ReadAround(d, e, flags, c.aclName, NatEntryOf(c.rule), GlobalLines(c), after);
    } else {
      ReadCommands(d, e, SnatLines(c, flags, true).0, flags);
    }
  }

  lemma DnatAlike(d: Device, e: Device, c: StaticState, flags: Flags)
    requires Alike(d, e, flags) && 0 <= GetFlag(flags, c.aclName) <= 1
    ensures var (lines, flags') := DnatLines(c, flags, true);
            && Alike(Run(d, lines), Run(e, lines), flags')
            && (forall x :: 0 <= GetFlag(flags, x) <= 1 ==> 0 <= GetFlag(flags', x) <= 1)
  {
    var after := if c.ignored then [] else [StaticOf(c)];
    var (clear, _) := ClearLines(flags, true, c.aclName);
    assert [] + clear == clear;
    ReadAround(d, e, flags, c.aclName, StaticEntryOf(c.rule), [], after);
  }

  /** With list substitution, what the lists held before does not matter. */
  lemma {:induction false} LeftoversForgotten(d: Device, q: seq<Queued>, s: seq<Cmd>, t: seq<StaticState>, flags: Flags)
    requires Numbered(q) && CountSnat(q) <= |s| && CountDnat(q) <= |t| && d.commands == {}
    requires AllKnown(s, t, flags) && forall x :: GetFlag(flags, x) != 1
    ensures var (lines, flags') := Printed(q, s, t, flags, true);
            && Alike(Run(d, lines), Run(EMPTY, lines), flags')
            && (forall x :: 0 <= GetFlag(flags, x) <= 1 ==> 0 <= GetFlag(flags', x) <= 1)
  {
    if q != [] {
      var (front, last) := (q[..|q| - 1], q[|q| - 1]);
      LeftoversForgotten(d, front, s, t, flags);
      var (lines, flags1) := Printed(front, s, t, flags, true);
      match last
      case QSnat(k) =>
        assert s[k] in s;
        RunAppend(d, lines, SnatLines(s[k], flags1, true).0);
        RunAppend(EMPTY, lines, SnatLines(s[k], flags1, true).0);
        SnatAlike(Run(d, lines), Run(EMPTY, lines), s[k], flags1);
      case QDnat(k) =>
        assert t[k] in t;
        RunAppend(d, lines, DnatLines(t[k], flags1, true).0);
        RunAppend(EMPTY, lines, DnatLines(t[k], flags1, true).0);
        DnatAlike(Run(d, lines), Run(EMPTY, lines), t[k], flags1);
      case QOther =>
    }
  }

  /** Both devices do the same with every packet. */
  ghost predicate SameMeaning(d: Device, e: Device) {
    && (forall m, out, key, text :: TranslatesTo(d, m, out, key, text) <==> TranslatesTo(e, m, out, key, text))
    && (forall p, t :: Delivers(d, p, t) <==> Delivers(e, p, t))
  }

  lemma AlikeSelects(d: Device, e: Device, flags: Flags, m: Match, id: int)
    requires Alike(d, e, flags)
    ensures Selects(d, m, id) <==> Selects(e, m, id)
  {
    forall name ensures NatList(m.iface, id, name) in d.commands ==> Entries(d, name) == Entries(e, name) {
      assert NatList(m.iface, id, name).name == name;
    }
  }

  lemma AlikeDelivers(d: Device, e: Device, flags: Flags, p: Incoming, t: Target)
    requires Alike(d, e, flags)
    ensures Delivers(d, p, t) <==> Delivers(e, p, t)
  {
    forall name
      ensures Static(p.iface, t.iface, p.dst, p.srv, name) in d.commands ==> Entries(d, name) == Entries(e, name)
    {
      assert Static(p.iface, t.iface, p.dst, p.srv, name).name == name;
    }
  }

  lemma AlikeMeanTheSame(d: Device, e: Device, flags: Flags)
    requires Alike(d, e, flags)
    ensures SameMeaning(d, e)
  {
    forall m, out, key, text ensures TranslatesTo(d, m, out, key, text) <==> TranslatesTo(e, m, out, key, text) {
      forall id ensures Selects(d, m, id) <==> Selects(e, m, id) {
        AlikeSelects(d, e, flags, m, id);
      }
    }
    forall p, t ensures Delivers(d, p, t) <==> Delivers(e, p, t) {
      AlikeDelivers(d, e, flags, p, t);
    }
  }
}
