/** The filter that hands monitored tokens on and hangs hidden tokens on them in doubly linked
    chains. */
module HiddenFilter {
  import opened Basics

  /** What the masks make of a token.  Hiding wins over discarding. */
  datatype Class = Hidden | Discarded | Monitored

  /** The hidden token right after position `p` among the first `e`, past discarded ones. */
  function Ahead(cls: seq<Class>, p: nat, e: nat): (q: Option<nat>)
    requires e <= |cls|
    ensures q.Some? ==> p <= q.value < e && cls[q.value].Hidden?
    decreases e - p
  {
    if p >= e || cls[p].Monitored? then None
    else if cls[p].Hidden? then Some(p)
    else Ahead(cls, p + 1, e)
  }

  /** The hidden token right before position `p`, past discarded ones. */
  function Behind(cls: seq<Class>, p: nat): (q: Option<nat>)
    requires p <= |cls|
    ensures q.Some? ==> q.value < p && cls[q.value].Hidden?
  {
    if p == 0 || cls[p - 1].Monitored? then None
    else if cls[p - 1].Hidden? then Some(p - 1)
    else Behind(cls, p - 1)
  }

  /** The last position below `e` that is not discarded. */
  function LastKept(cls: seq<Class>, e: nat): (q: Option<nat>)
    requires e <= |cls|
    ensures q.Some? ==> q.value < e && !cls[q.value].Discarded?
  {
    if e == 0 then None
    else if cls[e - 1].Discarded? then LastKept(cls, e - 1)
    else Some(e - 1)
  }

  /** Where the forward link of token `p` should point once the first `e` have been linked. */
  function After(cls: seq<Class>, p: nat, e: nat): Option<nat>
    requires p < e <= |cls|
  {
    if cls[p].Discarded? then None else Ahead(cls, p + 1, e)
  }

  function Before(cls: seq<Class>, p: nat): Option<nat>
    requires p < |cls|
  {
    if cls[p].Discarded? then None else Behind(cls, p)
  }

  lemma {:induction false} AheadStep(cls: seq<Class>, p: nat, e: nat)
    requires p <= e < |cls|
    ensures Ahead(cls, p, e + 1) ==
              if cls[e].Hidden? && (forall q :: p <= q < e ==> cls[q].Discarded?) then Some(e) else Ahead(cls, p, e)
    decreases e - p
  {
    if p < e && cls[p].Discarded? {
      AheadStep(cls, p + 1, e);
    }
  }

  lemma {:induction false} LastKeptBefore(cls: seq<Class>, e: nat, p: nat)
    requires p < e <= |cls| && !cls[p].Discarded?
    ensures LastKept(cls, e) == Some(p) <==> forall q :: p < q < e ==> cls[q].Discarded?
  {
    if cls[e - 1].Discarded? {
      LastKeptBefore(cls, e - 1, p);
    }
  }

  /** A hidden token changes one forward link, that of the last token kept before it; any other
      token changes none. */
  lemma LinkStep(cls: seq<Class>, e: nat, p: nat)
    requires p < e < |cls|
    ensures After(cls, p, e + 1) ==
              if cls[e].Hidden? && LastKept(cls, e) == Some(p) then Some(e) else After(cls, p, e)
  {
    if !cls[p].Discarded? {
      AheadStep(cls, p + 1, e);
      LastKeptBefore(cls, e, p);
    }
  }

  /** The hidden token before a position is the last kept one, unless that is monitored. */
  lemma {:induction false} BehindIsLastKept(cls: seq<Class>, e: nat)
    requires e <= |cls|
    ensures Behind(cls, e) ==
              var q := LastKept(cls, e);
              if q.Some? && cls[q.value].Hidden? then q else None
  {
    if e > 0 && cls[e - 1].Discarded? {
      BehindIsLastKept(cls, e - 1);
    }
  }

  /** A hidden token behind a monitored one is the last kept, and not the first of all. */
  lemma HiddenStep(cls: seq<Class>, i: nat, e: nat)
    requires i < e < |cls| && cls[i].Monitored? && cls[e].Hidden?
    ensures LastKept(cls, e + 1) == Behind(cls, e + 1) == Some(e) && Ahead(cls, 0, e + 1) == Ahead(cls, 0, e)
  {
    AheadStep(cls, 0, e);
  }

  // ---- The filter ----

  class HiddenStreamToken {
    const kind: int
    var hiddenBefore: HiddenStreamToken?
    var hiddenAfter: HiddenStreamToken?

    constructor (kind: int)
      ensures this.kind == kind && hiddenBefore == null && hiddenAfter == null
    {
      this.kind, hiddenBefore, hiddenAfter := kind, null, null;
    }
  }

  function ClassOf(kind: int, hideMask: set<int>, discardMask: set<int>): Class {
    if kind in hideMask then Hidden else if kind in discardMask then Discarded else Monitored
  }

  /** The hidden (and, on demand, monitored) tokens from `a` to `b`, in order. */
  function Select(input: seq<HiddenStreamToken>, cls: seq<Class>, a: nat, b: nat,
                  monitored: bool): seq<HiddenStreamToken>
    requires b <= |input| == |cls|
    decreases b - a
  {
    if a >= b then []
    else if Keeps(cls[a], monitored) then [input[a]] + Select(input, cls, a + 1, b, monitored)
    else Select(input, cls, a + 1, b, monitored)
  }

  predicate Keeps(c: Class, monitored: bool) {
    c.Hidden? || (monitored && c.Monitored?)
  }

  /** Following `hiddenAfter` from `t` visits exactly `run`. */
  ghost predicate ChainIs(t: HiddenStreamToken?, run: seq<HiddenStreamToken>)
    reads run
  {
    if run == [] then t == null else t == run[0] && ChainIs(run[0].hiddenAfter, run[1..])
  }

  /** Following `hiddenBefore` from `t` visits exactly `run`, last token first. */
  ghost predicate BackChainIs(t: HiddenStreamToken?, run: seq<HiddenStreamToken>)
    reads run
  {
    if run == [] then t == null
    else t == run[|run| - 1] && BackChainIs(run[|run| - 1].hiddenBefore, run[..|run| - 1])
  }

  /** `behind` can be walked back from `t`, and `ahead` hangs on it. */
  ghost predicate Hung(behind: seq<HiddenStreamToken>, t: HiddenStreamToken, ahead: seq<HiddenStreamToken>)
    reads t, behind, ahead
  {
    BackChainIs(t.hiddenBefore, behind) && ChainIs(t.hiddenAfter, ahead)
  }

  class TokenStreamHiddenTokenFilter {
    const input: seq<HiddenStreamToken>
    const hideMask: set<int>
    const discardMask: set<int>
    /** How many tokens have been taken from upstream. */
    var pos: nat
    var nextMonitoredToken: HiddenStreamToken?
    var lastHiddenToken: HiddenStreamToken?
    var firstHidden: HiddenStreamToken?

    /** What the masks make of each token. */
    ghost const cls: seq<Class>

    ghost function TokenAt(q: Option<nat>): HiddenStreamToken?
      requires q.Some? ==> q.value < |input|
    {
      if q.None? then null else input[q.value]
    }

    ghost predicate Fresh() {
      && |cls| == |input|
      && (forall i {:trigger cls[i]} :: 0 <= i < |cls| ==> cls[i] == ClassOf(input[i].kind, hideMask, discardMask))
      && (forall i, j :: 0 <= i < j < |input| ==> input[i] != input[j])
    }

    /** Token `p` is linked as it should be once the first `e` tokens are; later ones have no links. */
    ghost predicate LinkOk(p: nat, e: nat)
      requires p < |input| == |cls| && e <= |input|
      reads input[p]
    {
      && input[p].hiddenAfter == (if p < e then TokenAt(After(cls, p, e)) else null)
      && input[p].hiddenBefore == (if p < e then TokenAt(Before(cls, p)) else null)
    }

    ghost predicate LinkedUpTo(e: nat)
      requires e <= |input| == |cls|
      reads input
    {
      forall p {:trigger LinkOk(p, e)} :: 0 <= p < |input| ==> LinkOk(p, e)
    }

    /** Between calls: the token last taken is monitored, not yet returned, and not yet linked. */
    ghost predicate Valid()
      reads this, input
    {
      && Fresh() && pos <= |input|
      && if pos == 0 then
           LinkedUpTo(0) && nextMonitoredToken == null && lastHiddenToken == null && firstHidden == null
         else
           && LinkedUpTo(pos - 1) && cls[pos - 1].Monitored?
           && nextMonitoredToken == input[pos - 1]
           && lastHiddenToken == TokenAt(Behind(cls, pos - 1))
           && firstHidden == TokenAt(Ahead(cls, 0, pos - 1))
    }

    constructor (input: seq<HiddenStreamToken>, hideMask: set<int>, discardMask: set<int>)
      requires forall i, j :: 0 <= i < j < |input| ==> input[i] != input[j]
      requires forall t :: t in input ==> t.hiddenBefore == null && t.hiddenAfter == null
      ensures Valid() && pos == 0
      ensures this.input == input && this.hideMask == hideMask && this.discardMask == discardMask
    {
      this.input, this.hideMask, this.discardMask := input, hideMask, discardMask;
      cls := seq(|input|, i requires 0 <= i < |input| => ClassOf(input[i].kind, hideMask, discardMask));
      pos, nextMonitoredToken, lastHiddenToken, firstHidden := 0, null, null, null;
    }

    method Consume()
      requires pos < |input|
      modifies this`pos, this`nextMonitoredToken
      ensures pos == old(pos) + 1 && nextMonitoredToken == input[old(pos)]
    {
      nextMonitoredToken := input[pos];
      pos := pos + 1;
    }

    /** A discarded token, or a first hidden one, needs no link. */
    lemma NoLinkGrow(e: nat)
      requires Fresh() && e < |input| && LinkedUpTo(e)
      requires cls[e].Discarded? || (cls[e].Hidden? && LastKept(cls, e).None?)
      ensures LinkedUpTo(e + 1)
    {
      var n := e + 1;
      BehindIsLastKept(cls, e);
      forall p: nat | p < |input|
        ensures LinkOk(p, n)
      {
        assert LinkOk(p, e);
        if p < e {
          LinkStep(cls, e, p);
        }
      }
    }

    /** Hang hidden token `e` behind `p`, the last kept token, and point back at it on demand. */
    method LinkHidden(p: HiddenStreamToken, la: HiddenStreamToken, back: bool, ghost e: nat)
      requires Fresh() && e < |input| && LinkedUpTo(e) && cls[e].Hidden?
      requires la == input[e] && LastKept(cls, e).Some? && p == input[LastKept(cls, e).value]
      requires back <==> cls[LastKept(cls, e).value].Hidden?
      modifies p`hiddenAfter, la`hiddenBefore
      ensures LinkedUpTo(e + 1)
    {
      p.hiddenAfter := la;
      if back {
        la.hiddenBefore := p;
      }
      ghost var n := e + 1;
      BehindIsLastKept(cls, e);
      forall i: nat | i < |input|
        ensures LinkOk(i, n)
      {
        assert old(LinkOk(i, e));
        if i < e {
          LinkStep(cls, e, i);
        }
      }
    }

    /** A monitored token is told the last hidden token before it when it is returned. */
    method LinkMonitored(monitored: HiddenStreamToken, ghost i: nat)
      requires Fresh() && i < |input| && LinkedUpTo(i) && cls[i].Monitored?
      requires monitored == input[i] && lastHiddenToken == TokenAt(Behind(cls, i))
      modifies monitored`hiddenBefore
      ensures LinkedUpTo(i + 1)
    {
      monitored.hiddenBefore := lastHiddenToken;
      ghost var n := i + 1;
      forall p: nat | p < |input|
        ensures LinkOk(p, n)
      {
        assert old(LinkOk(p, i));
        if p < i {
          LinkStep(cls, i, p);
        }
      }
    }

    // What the links and chains mean, by the kinds of the tokens.

    /** The first token from `a` to `b` whose kind is to be hidden. */
    ghost function FirstHidden(a: nat, b: nat): HiddenStreamToken?
      requires b <= |input|
      decreases b - a
    {
      if a >= b then null else if input[a].kind in hideMask then input[a] else FirstHidden(a + 1, b)
    }

    /** The tokens among the first `e` that are to be hidden, or at least not discarded, in order. */
    ghost function Kept(e: nat): seq<HiddenStreamToken>
      requires e <= |input|
    {
      if e == 0 then []
      else
        var t := input[e - 1];
        Kept(e - 1) + if t.kind in hideMask || t.kind !in discardMask then [t] else []
    }

    lemma {:induction false} AheadIsFirstHidden(a: nat, b: nat, e: nat)
      requires Fresh() && a <= b <= e <= |input| && Gap(a, b) && (b < e ==> Passes(input[b]))
      ensures TokenAt(Ahead(cls, a, e)) == FirstHidden(a, b)
      decreases b - a
    {
      if a < b {
        assert cls[a] == ClassOf(input[a].kind, hideMask, discardMask) && !Passes(input[a]);
        if input[a].kind !in hideMask {
          AheadIsFirstHidden(a + 1, b, e);
        }
      }
    }

    lemma {:induction false} SelectIsKept(e: nat)
      requires Fresh() && e <= |input|
      ensures Select(input, cls, 0, e, true) == Kept(e)
    {
      if e > 0 {
        SelectIsKept(e - 1);
        SelectLast(input, cls, 0, e, true);
        assert cls[e - 1] == ClassOf(input[e - 1].kind, hideMask, discardMask);
      }
    }

    lemma {:induction false} RunIsHidden(a: nat, b: nat, t: HiddenStreamToken)
      requires Fresh() && b <= |input|
      ensures t in Select(input, cls, a, b, false) <==>
              exists q :: a <= q < b && input[q] == t && input[q].kind in hideMask
      decreases b - a
    {
      if a < b {
        RunIsHidden(a + 1, b, t);
        assert cls[a] == ClassOf(input[a].kind, hideMask, discardMask);
      }
    }

    /** The masks let this token through. */
    predicate Passes(t: HiddenStreamToken) {
      t.kind !in hideMask && t.kind !in discardMask
    }

    /** Before the first monitored token: `p` is the last hidden token so far. */
    ghost predicate FirstScan(p: HiddenStreamToken?)
      reads this, input
    {
      && Fresh() && 0 < pos <= |input| && nextMonitoredToken == input[pos - 1]
      && LinkedUpTo(pos - 1) && (forall q :: 0 <= q < pos - 1 ==> !Passes(input[q]))
      && p == lastHiddenToken == TokenAt(LastKept(cls, pos - 1))
      && firstHidden == TokenAt(Ahead(cls, 0, pos - 1))
    }

    method ScarfFirst(p0: HiddenStreamToken?) returns (p: HiddenStreamToken?)
      requires FirstScan(p0) && pos < |input| && !Passes(nextMonitoredToken)
      modifies this, input
      ensures FirstScan(p) && pos == old(pos) + 1
    {
      p := p0;
      ghost var e := pos - 1;
      FirstOnes(e);
      if nextMonitoredToken.kind in hideMask {
        if p == null {
          NoLinkGrow(e);
        } else {
          LinkHidden(p, nextMonitoredToken, true, e);
        }
        p := nextMonitoredToken;
        lastHiddenToken := p;
        if firstHidden == null {
          firstHidden := p;
        }
      } else {
        NoLinkGrow(e);
      }
      Consume();
    }

    /** Take tokens up to the first monitored one, chaining the hidden ones before it. */
    method ConsumeFirst(ghost w: nat)
      requires Valid() && pos == 0 && w < |input| && Passes(input[w])
      modifies this, input
      ensures Valid() && 0 < pos <= w + 1
      ensures forall q :: 0 <= q < pos - 1 ==> !Passes(input[q])
      ensures firstHidden == FirstHidden(0, pos - 1)
    {
      Consume();
      var p: HiddenStreamToken? := null;
      while nextMonitoredToken.kind in hideMask || nextMonitoredToken.kind in discardMask
        invariant FirstScan(p) && pos <= w + 1
        decreases w + 1 - pos
      {
        p := ScarfFirst(p);
      }
      FirstScanEnds(p);
    }

    lemma FirstScanEnds(p: HiddenStreamToken?)
      requires FirstScan(p) && Passes(nextMonitoredToken)
      ensures Valid() && firstHidden == FirstHidden(0, pos - 1)
    {
      BehindIsLastKept(cls, pos - 1);
      assert Gap(0, pos - 1);
      AheadIsFirstHidden(0, pos - 1, pos - 1);
    }

    /** While nothing monitored has been seen: the first hidden token stays the first one. */
    lemma FirstOnes(e: nat)
      requires Fresh() && e < |input| && forall q :: 0 <= q < e ==> !Passes(input[q])
      ensures LastKept(cls, e).Some? ==> cls[LastKept(cls, e).value].Hidden?
      ensures LastKept(cls, e).None? <==> Ahead(cls, 0, e).None?
      ensures Ahead(cls, 0, e + 1) ==
                if cls[e].Hidden? && Ahead(cls, 0, e).None? then Some(e) else Ahead(cls, 0, e)
    {
      AheadStep(cls, 0, e);
      NoneKept(cls, e);
    }

    /** Behind monitored token `i`: `p` is the last token kept so far. */
    ghost predicate Scan(p: HiddenStreamToken, i: nat)
      reads this, input
    {
      && Fresh() && i < pos - 1 < |input| && nextMonitoredToken == input[pos - 1]
      && LinkedUpTo(pos - 1) && cls[i].Monitored? && (forall q :: i < q < pos - 1 ==> !Passes(input[q]))
      && p == TokenAt(LastKept(cls, pos - 1))
      && lastHiddenToken == TokenAt(Behind(cls, pos - 1))
      && firstHidden == TokenAt(Ahead(cls, 0, pos - 1))
    }

    lemma KeptIsHidden(p: HiddenStreamToken, monitored: HiddenStreamToken, i: nat)
      requires Scan(p, i) && monitored == input[i]
      ensures LastKept(cls, pos - 1).Some?
      ensures p != monitored <==> cls[LastKept(cls, pos - 1).value].Hidden?
    {
      LastKeptAfter(i, pos - 1);
    }

    method ScarfHidden(p: HiddenStreamToken, monitored: HiddenStreamToken, ghost i: nat)
      requires Scan(p, i) && pos < |input| && monitored == input[i] && cls[pos - 1].Hidden?
      modifies this, input
      ensures Scan(old(nextMonitoredToken), i) && pos == old(pos) + 1
    {
      ghost var e := pos - 1;
      HiddenStep(cls, i, e);
      KeptIsHidden(p, monitored, i);
      LinkHidden(p, nextMonitoredToken, p != monitored, e);
      lastHiddenToken := nextMonitoredToken;
      Consume();
      assert LinkedUpTo(e + 1);
    }

    method ScarfDiscarded(p: HiddenStreamToken, ghost i: nat)
      requires Scan(p, i) && pos < |input| && cls[pos - 1].Discarded?
      modifies this, input
      ensures Scan(p, i) && pos == old(pos) + 1
    {
      ghost var e := pos - 1;
      AheadStep(cls, 0, e);
      LastKeptAfter(i, e);
      NoLinkGrow(e);
      Consume();
    }

    method Scarf(p0: HiddenStreamToken, monitored: HiddenStreamToken, ghost i: nat) returns (p: HiddenStreamToken)
      requires Scan(p0, i) && pos < |input| && !Passes(nextMonitoredToken) && monitored == input[i]
      modifies this, input
      ensures Scan(p, i) && pos == old(pos) + 1
    {
      p := p0;
      if nextMonitoredToken.kind in hideMask {
        p := nextMonitoredToken;
        ScarfHidden(p0, monitored, i);
      } else {
        ScarfDiscarded(p0, i);
      }
    }

    /** Between a monitored token and the next, the last kept token is that one or a hidden one. */
    lemma {:induction false} LastKeptAfter(i: nat, e: nat)
      requires Fresh() && i < e <= |input| && cls[i].Monitored? && forall q :: i < q < e ==> !Passes(input[q])
      ensures LastKept(cls, e).Some? && i <= LastKept(cls, e).value
      ensures cls[LastKept(cls, e).value].Hidden? <==> LastKept(cls, e).value != i
      decreases e
    {
      if cls[e - 1].Discarded? {
        LastKeptAfter(i, e - 1);
      }
    }

    /** The token looked ahead at is the one to return; take the one behind it. */
    method TakeMonitored() returns (monitored: HiddenStreamToken, ghost i: nat)
      requires Valid() && 0 < pos < |input|
      modifies this, input
      ensures i == old(pos) - 1 && pos == old(pos) + 1 && monitored == input[i] && Scan(monitored, i)
    {
      monitored, i := nextMonitoredToken, pos - 1;
      LinkMonitored(monitored, i);
      AheadStep(cls, 0, i);
      lastHiddenToken := null;
      Consume();
    }

    /** Take tokens up to the next monitored one. */
    method ScarfAll(monitored: HiddenStreamToken, ghost i: nat, ghost w: nat)
      requires Scan(monitored, i) && monitored == input[i] && pos <= w + 1 && w < |input| && Passes(input[w])
      modifies this, input
      ensures Valid() && i < pos - 1 <= w
      ensures forall q :: i < q < pos - 1 ==> !Passes(input[q])
      ensures monitored.hiddenAfter == FirstHidden(i + 1, pos - 1)
    {
      var p := monitored;
      while nextMonitoredToken.kind in hideMask || nextMonitoredToken.kind in discardMask
        invariant Scan(p, i) && pos <= w + 1
        decreases w + 1 - pos
      {
        p := Scarf(p, monitored, i);
      }
      ScanEnds(p, monitored, i);
    }

    /** Return the next monitored token with the hidden tokens behind it chained to it.  `w0` and `w`
        witness that monitored tokens keep coming. */
    method NextToken(ghost w0: nat, ghost w: nat) returns (monitored: HiddenStreamToken, ghost i: nat)
      requires Valid() && w < |input| && Passes(input[w])
      requires if pos == 0 then w0 < w && Passes(input[w0]) else pos <= w
      modifies this, input
      ensures Valid() && i < pos - 1 <= w
      ensures monitored == input[i] && Passes(monitored)
      ensures if old(pos) == 0 then i <= w0 && forall q :: 0 <= q < i ==> !Passes(input[q]) else i == old(pos) - 1
      ensures forall q :: i < q < pos - 1 ==> !Passes(input[q])
      ensures monitored.hiddenAfter == FirstHidden(i + 1, pos - 1)
    {
      if nextMonitoredToken == null {
        ConsumeFirst(w0);
      }
      monitored, i := TakeMonitored();
      ScarfAll(monitored, i, w);
    }

    /** Once the next monitored token has been reached, the run behind this one is complete. */
    lemma ScanEnds(p: HiddenStreamToken, monitored: HiddenStreamToken, i: nat)
      requires Scan(p, i) && monitored == input[i] && Passes(nextMonitoredToken)
      ensures Valid() && monitored.hiddenAfter == FirstHidden(i + 1, pos - 1)
    {
      HangsFirst(monitored, i);
    }

    lemma HangsFirst(monitored: HiddenStreamToken, i: nat)
      requires Fresh() && i < pos - 1 < |input| && LinkedUpTo(pos - 1) && cls[i].Monitored?
      requires monitored == input[i] && forall q :: i < q < pos - 1 ==> !Passes(input[q])
      ensures monitored.hiddenAfter == FirstHidden(i + 1, pos - 1)
    {
      assert LinkOk(i, pos - 1);
      assert Gap(i + 1, pos - 1);
      AheadIsFirstHidden(i + 1, pos - 1, pos - 1);
    }

    /** Forward links spell the hidden tokens from `a` to the next monitored token. */
    lemma ChainAhead(a: nat, b: nat, e: nat)
      requires Fresh() && a <= b <= e <= |input| && LinkedUpTo(e)
      requires forall q :: a <= q < b ==> !Passes(input[q])
      requires b < e ==> Passes(input[b])
      ensures ChainIs(TokenAt(Ahead(cls, a, e)), Select(input, cls, a, b, false))
      decreases b - a
    {
      if a < b {
        ChainAhead(a + 1, b, e);
        assert LinkOk(a, e);
        var run, rest := Select(input, cls, a, b, false), Select(input, cls, a + 1, b, false);
        if cls[a].Hidden? {
          ChainLink(input[a], run, rest);
        }
      }
    }

    lemma ChainLink(t: HiddenStreamToken, run: seq<HiddenStreamToken>, rest: seq<HiddenStreamToken>)
      requires run == [t] + rest && ChainIs(t.hiddenAfter, rest)
      ensures ChainIs(t, run)
    {
      assert run[1..] == rest;
    }

    lemma BackChainLink(t: HiddenStreamToken, run: seq<HiddenStreamToken>, rest: seq<HiddenStreamToken>)
      requires run == rest + [t] && BackChainIs(t.hiddenBefore, rest)
      ensures BackChainIs(t, run)
    {
      assert run[..|run| - 1] == rest;
    }

    /** Backward links spell them in reverse. */
    lemma ChainBehind(a: nat, b: nat, e: nat)
      requires Fresh() && a <= b <= e <= |input| && LinkedUpTo(e)
      requires forall q :: a <= q < b ==> !Passes(input[q])
      requires a > 0 ==> Passes(input[a - 1])
      ensures BackChainIs(TokenAt(Behind(cls, b)), Select(input, cls, a, b, false))
      decreases b
    {
      if a < b {
        ChainBehind(a, b - 1, e);
        SelectLast(input, cls, a, b, false);
        assert LinkOk(b - 1, e);
        var run, rest := Select(input, cls, a, b, false), Select(input, cls, a, b - 1, false);
        if cls[b - 1].Hidden? {
          BackChainLink(input[b - 1], run, rest);
        }
      }
    }

    /** `run` is the hidden tokens from `a` up to the monitored token (or the end) at `b`. */
    ghost predicate Gap(a: nat, b: nat)
    {
      a <= b <= |input| && forall q :: a <= q < b ==> !Passes(input[q])
    }

    /** One more monitored token, and the positions of all of them. */
    method DrawOne(ghost ix: seq<nat>, ghost w0: nat, ghost w: nat)
      returns (monitored: HiddenStreamToken, ghost i: nat)
      requires Valid() && w < |input| && Passes(input[w])
      requires if pos == 0 then ix == [] && w0 < w && Passes(input[w0]) else pos <= w && Marks(ix, pos - 1)
      modifies this, input
      ensures Valid() && i < pos - 1 <= w && monitored == input[i] && Marks(ix + [i], pos - 1)
    {
      ghost var first := pos == 0;
      monitored, i := NextToken(w0, w);
      if first {
        assert Gap(Start([], 0), Stop([], i, 0));
      }
      MarkOneMore(ix, i, pos - 1);
    }

    /** Witness `k` is a monitored token and one more comes after it. */
    ghost predicate Coming(ws: seq<nat>, k: nat)
      requires k + 1 < |ws|
    {
      ws[k] < ws[k + 1] < |input| && Passes(input[ws[k]]) && Passes(input[ws[k + 1]])
    }

    /** The marks of the tokens drawn so far. */
    ghost predicate Drawn(ix: seq<nat>, ms: seq<HiddenStreamToken>, e: nat) {
      |ms| == |ix| && Marks(ix, e) && forall k :: 0 <= k < |ms| ==> ms[k] == input[ix[k]]
    }

    /** The runs and the tokens between them are everything among the first `e` tokens that was not
        discarded, in order. */
    ghost predicate Spells(runs: seq<seq<HiddenStreamToken>>, ms: seq<HiddenStreamToken>, e: nat) {
      e <= |input| == |cls| && |runs| == |ms| + 1 && Interleave(runs, ms, |ms|) == Select(input, cls, 0, e, true)
    }

    /** The first monitored token. */
    method DrawFirst(ghost w0: nat, ghost w: nat) returns (ms: seq<HiddenStreamToken>, ghost ix: seq<nat>)
      requires Valid() && pos == 0 && w0 < w < |input| && Passes(input[w0]) && Passes(input[w])
      modifies this, input
      ensures Valid() && 0 < pos - 1 <= w && |ms| == 1 && Drawn(ix, ms, pos - 1)
    {
      var monitored, i := DrawOne([], w0, w);
      ms, ix := [monitored], [i];
      assert [] + [i] == ix;
    }

    /** One more token behind those drawn so far. */
    method DrawNext(ms: seq<HiddenStreamToken>, ghost ix: seq<nat>, ghost w: nat)
      returns (ms': seq<HiddenStreamToken>, ghost ix': seq<nat>)
      requires Valid() && 0 < pos <= w < |input| && Passes(input[w]) && Drawn(ix, ms, pos - 1)
      modifies this, input
      ensures Valid() && 0 < pos - 1 <= w && |ms'| == |ms| + 1 && Drawn(ix', ms', pos - 1)
    {
      var monitored, j := DrawOne(ix, 0, w);
      ms', ix' := ms + [monitored], ix + [j];
    }

    method DrawAll(n: nat, ghost ws: seq<nat>) returns (ms: seq<HiddenStreamToken>, ghost ix: seq<nat>)
      requires Valid() && pos == 0 && n > 0 && |ws| == n + 1
      requires forall k {:trigger Coming(ws, k)} :: 0 <= k < n ==> Coming(ws, k)
      modifies this, input
      ensures Valid() && pos > 0 && |ms| == n && Drawn(ix, ms, pos - 1)
    {
      assert Coming(ws, 0);
      ms, ix := DrawFirst(ws[0], ws[1]);
      while |ms| < n
        invariant 0 < |ms| <= n && Valid() && pos > 0
        invariant pos - 1 <= ws[|ms|] && Drawn(ix, ms, pos - 1)
      {
        assert Coming(ws, |ms|);
        ms, ix := DrawNext(ms, ix, ws[|ms| + 1]);
      }
    }

    /** The runs hold exactly the tokens among the first `e` that are to be hidden, and with the tokens
        between them they spell what is not just discarded, in order. */
    ghost predicate SpellsByKind(runs: seq<seq<HiddenStreamToken>>, ms: seq<HiddenStreamToken>, e: nat) {
      && e <= |input| && |runs| == |ms| + 1
      && Interleave(runs, ms, |ms|) == Kept(e)
      && (forall k, t: HiddenStreamToken :: 0 <= k < |runs| && t in runs[k] ==> t.kind in hideMask)
      && (forall p :: 0 <= p < e && input[p].kind in hideMask ==> exists k :: 0 <= k < |runs| && input[p] in runs[k])
      && (forall k :: 0 <= k < |ms| ==> ms[k].kind !in hideMask && ms[k].kind !in discardMask)
    }

    /** Draw `n` monitored tokens.  The initial hidden chain, then each token followed by its own
        chain, spell everything consumed that was not discarded; and each chain can be walked back
        from the token behind it.  `ws` witnesses that enough monitored tokens come. */
    method Drain(n: nat, ghost ws: seq<nat>)
      returns (ms: seq<HiddenStreamToken>, ghost runs: seq<seq<HiddenStreamToken>>)
      requires Valid() && pos == 0 && n > 0 && |ws| == n + 1
      requires forall k {:trigger Coming(ws, k)} :: 0 <= k < n ==> Coming(ws, k)
      modifies this, input
      ensures Valid() && pos > 0 && |ms| == n && |runs| == n + 1
      ensures Spells(runs, ms, pos - 1) && SpellsByKind(runs, ms, pos - 1)
      ensures ChainIs(firstHidden, runs[0])
      ensures forall k {:trigger ms[k]} :: 0 <= k < n ==> Hung(runs[k], ms[k], runs[k + 1])
    {
      ghost var ix;
      ms, ix := DrawAll(n, ws);
      runs := DrawnSpell(ix, ms, pos - 1);
    }

    lemma DrawnKinds(ix: seq<nat>, ms: seq<HiddenStreamToken>, e: nat)
      requires Fresh() && Drawn(ix, ms, e)
      ensures SpellsByKind(Runs(ix, e), ms, e)
    {
      var runs := Runs(ix, e);
      SpellRuns(ix, e, ms, |ix|);
      SelectIsKept(e);
      forall k, t: HiddenStreamToken | 0 <= k < |runs| && t in runs[k] ensures t.kind in hideMask {
        RunIsHidden(Start(ix, k), Stop(ix, e, k), t);
      }
      forall p | 0 <= p < e && input[p].kind in hideMask
        ensures exists k :: 0 <= k < |runs| && input[p] in runs[k]
      {
        var k := RunAround(ix, e, p, |ix|);
        RunIsHidden(Start(ix, k), Stop(ix, e, k), input[p]);
      }
    }

    /** The run in which a position lies that is not one of the marks. */
    lemma {:induction false} RunAround(ix: seq<nat>, e: nat, p: nat, n: nat) returns (k: nat)
      requires Marks(ix, e) && n <= |ix| && p < Stop(ix, e, n) && p < e && !Passes(input[p])
      ensures k <= n && Start(ix, k) <= p < Stop(ix, e, k)
    {
      k := n;
      if p < Start(ix, n) {
        k := RunAround(ix, e, p, n - 1);
      }
    }

    lemma DrawnSpell(ix: seq<nat>, ms: seq<HiddenStreamToken>, e: nat) returns (runs: seq<seq<HiddenStreamToken>>)
      requires Valid() && pos == e + 1 && Drawn(ix, ms, e)
      ensures Spells(runs, ms, e) && SpellsByKind(runs, ms, e)
      ensures ChainIs(firstHidden, runs[0])
      ensures forall k {:trigger ms[k]} :: 0 <= k < |ms| ==> Hung(runs[k], ms[k], runs[k + 1])
    {
      runs := Runs(ix, e);
      DrawnKinds(ix, ms, e);
      SpellRuns(ix, e, ms, |ix|);
      RunsHang(ix, e, ms);
    }

    lemma RunsHang(ix: seq<nat>, e: nat, ms: seq<HiddenStreamToken>)
      requires Fresh() && Marks(ix, e) && LinkedUpTo(e) && e < |input| && Passes(input[e]) && |ms| == |ix|
      requires forall k :: 0 <= k < |ms| ==> ms[k] == input[ix[k]]
      ensures ChainIs(TokenAt(Ahead(cls, 0, e)), Runs(ix, e)[0])
      ensures forall k {:trigger ms[k]} :: 0 <= k < |ms| ==> Hung(Runs(ix, e)[k], ms[k], Runs(ix, e)[k + 1])
    {
      var runs := Runs(ix, e);
      RunAhead(ix, e, 0);
      forall k | 0 <= k < |ms|
        ensures Hung(runs[k], ms[k], runs[k + 1])
      {
        RunHangs(ix, e, k);
      }
    }

    lemma RunHangs(ix: seq<nat>, e: nat, k: nat)
      requires Fresh() && Marks(ix, e) && LinkedUpTo(e) && e < |input| && Passes(input[e]) && k < |ix|
      ensures Hung(Runs(ix, e)[k], input[ix[k]], Runs(ix, e)[k + 1])
    {
      RunBehind(ix, e, k);
      RunAhead(ix, e, k + 1);
    }

    function Start(ix: seq<nat>, k: nat): nat
      requires k <= |ix|
    {
      if k == 0 then 0 else ix[k - 1] + 1
    }

    function Stop(ix: seq<nat>, e: nat, k: nat): nat
      requires k <= |ix|
    {
      if k == |ix| then e else ix[k]
    }

    /** `ix` are the positions of successive monitored tokens below `e`. */
    ghost predicate Marks(ix: seq<nat>, e: nat) {
      && e <= |input| == |cls|
      && (forall k :: 0 <= k < |ix| ==> ix[k] < e && Passes(input[ix[k]]))
      && (forall k {:trigger Start(ix, k)} :: 0 <= k <= |ix| ==> Gap(Start(ix, k), Stop(ix, e, k)))
    }

    /** The hidden tokens between the marks. */
    ghost function Runs(ix: seq<nat>, e: nat): (runs: seq<seq<HiddenStreamToken>>)
      requires Marks(ix, e)
      ensures |runs| == |ix| + 1
      ensures forall k :: 0 <= k <= |ix| ==> runs[k] == Select(input, cls, Start(ix, k), Stop(ix, e, k), false)
    {
      seq(|ix| + 1, k requires 0 <= k < |ix| + 1 => Select(input, cls, Start(ix, k), Stop(ix, e, k), false))
    }

    lemma MarkOneMore(ix: seq<nat>, i: nat, e: nat)
      requires Marks(ix, i) && i < e <= |input| && Passes(input[i]) && Gap(i + 1, e)
      ensures Marks(ix + [i], e)
    {
      var jx := ix + [i];
      forall k | 0 <= k <= |jx|
        ensures Gap(Start(jx, k), Stop(jx, e, k))
      {
        if k <= |ix| {
          assert Start(jx, k) == Start(ix, k) && Stop(jx, e, k) == Stop(ix, i, k);
        }
      }
    }

    lemma {:induction false} SpellRuns(ix: seq<nat>, e: nat, ms: seq<HiddenStreamToken>, k: nat)
      requires Fresh() && Drawn(ix, ms, e) && k <= |ix|
      ensures Interleave(Runs(ix, e), ms, k) == Select(input, cls, 0, Stop(ix, e, k), true)
    {
      assert Gap(Start(ix, k), Stop(ix, e, k));
      SelectGap(input, cls, Start(ix, k), Stop(ix, e, k));
      if k > 0 {
        SpellRuns(ix, e, ms, k - 1);
        SelectSplit(input, cls, 0, ix[k - 1], Stop(ix, e, k));
      }
    }

    /** Run `k` hangs on the token before it. */
    lemma RunAhead(ix: seq<nat>, e: nat, k: nat)
      requires Fresh() && Marks(ix, e) && LinkedUpTo(e) && e < |input| && Passes(input[e]) && k <= |ix|
      ensures ChainIs(if k == 0 then TokenAt(Ahead(cls, 0, e)) else input[ix[k - 1]].hiddenAfter, Runs(ix, e)[k])
    {
      assert Gap(Start(ix, k), Stop(ix, e, k));
      ChainAhead(Start(ix, k), Stop(ix, e, k), e);
      if k > 0 {
        assert LinkOk(ix[k - 1], e);
      }
    }

    /** Run `k` can be walked back from the token behind it. */
    lemma RunBehind(ix: seq<nat>, e: nat, k: nat)
      requires Fresh() && Marks(ix, e) && LinkedUpTo(e) && k < |ix|
      ensures BackChainIs(input[ix[k]].hiddenBefore, Runs(ix, e)[k])
    {
      assert Gap(Start(ix, k), Stop(ix, e, k));
      ChainBehind(Start(ix, k), Stop(ix, e, k), e);
      assert LinkOk(ix[k], e);
    }
  }

  lemma {:induction false} NoneKept(cls: seq<Class>, e: nat)
    requires e <= |cls| && forall q :: 0 <= q < e ==> !cls[q].Monitored?
    ensures LastKept(cls, e).None? <==> forall q :: 0 <= q < e ==> cls[q].Discarded?
    ensures Ahead(cls, 0, e).None? <==> forall q :: 0 <= q < e ==> cls[q].Discarded?
  {
    if e > 0 {
      NoneKept(cls, e - 1);
      AheadStep(cls, 0, e - 1);
    }
  }

  lemma {:induction false} SelectLast(input: seq<HiddenStreamToken>, cls: seq<Class>, a: nat, b: nat, monitored: bool)
    requires a < b <= |input| == |cls|
    ensures Select(input, cls, a, b, monitored) ==
              if Keeps(cls[b - 1], monitored) then Select(input, cls, a, b - 1, monitored) + [input[b - 1]]
              else Select(input, cls, a, b - 1, monitored)
    decreases b - a
  {
    if a < b - 1 {
      SelectLast(input, cls, a + 1, b, monitored);
    }
  }

  lemma {:induction false} SelectGap(input: seq<HiddenStreamToken>, cls: seq<Class>, a: nat, b: nat)
    requires b <= |input| == |cls| && forall q :: a <= q < b ==> !cls[q].Monitored?
    ensures Select(input, cls, a, b, true) == Select(input, cls, a, b, false)
    decreases b - a
  {
    if a < b {
      SelectGap(input, cls, a + 1, b);
    }
  }

  lemma {:induction false} SelectSplit(input: seq<HiddenStreamToken>, cls: seq<Class>, a: nat, i: nat, b: nat)
    requires a <= i < b <= |input| == |cls| && cls[i].Monitored?
    ensures Select(input, cls, a, b, true) ==
              Select(input, cls, a, i, true) + [input[i]] + Select(input, cls, i + 1, b, true)
    decreases i - a
  {
    if a < i {
      SelectSplit(input, cls, a + 1, i, b);
    }
  }

  /** The first run, then each of the first `k` monitored tokens followed by its run. */
  ghost function Interleave(runs: seq<seq<HiddenStreamToken>>, ms: seq<HiddenStreamToken>,
                            k: nat): seq<HiddenStreamToken>
    requires |runs| == |ms| + 1 && k <= |ms|
  {
    if k == 0 then runs[0] else Interleave(runs, ms, k - 1) + [ms[k - 1]] + runs[k]
  }
}
