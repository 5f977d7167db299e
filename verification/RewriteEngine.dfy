/** The token stream rewrite engine: it records the tokens that pass through it and keeps named edit
    scripts that are applied only when the buffer is printed. */
module RewriteEngine {
  import opened Basics
  import opened RewriteScript
  import opened RewriteProgram

  const EOF_TYPE := 1

  datatype LexToken = LexToken(kind: int, text: string)

  datatype TokenWithIndex = TokenWithIndex(token: LexToken, index: nat)

  type Upstream = nat -> Option<LexToken>

  /** How many of the first `n` upstream answers were tokens at all. */
  function Delivered(up: Upstream, n: nat): (c: nat)
    ensures c <= n
  {
    if n == 0 then 0 else Delivered(up, n - 1) + if up(n - 1).Some? then 1 else 0
  }

  /** The tokens recorded from the first `n` answers: all but end-of-file, each with the number of
      tokens that came before it. */
  function Tracked(up: Upstream, n: nat): seq<TokenWithIndex> {
    if n == 0 then []
    else Tracked(up, n - 1) +
         match up(n - 1)
         case Some(t) => if t.kind != EOF_TYPE then [TokenWithIndex(t, Delivered(up, n - 1))] else []
         case None => []
  }

  /** Until end-of-file has been seen, a token's index is its position in the buffer and the buffer
      is the stream. */
  lemma {:induction false} IndexIsPosition(up: Upstream, n: nat)
    requires forall k :: 0 <= k < n ==> up(k).Some? && up(k).value.kind != EOF_TYPE
    ensures Delivered(up, n) == n && |Tracked(up, n)| == n
    ensures forall k :: 0 <= k < n ==> Tracked(up, n)[k] == TokenWithIndex(up(k).value, k)
  {
    if n > 0 {
      IndexIsPosition(up, n - 1);
    }
  }

  function PieceText(tokens: seq<TokenWithIndex>, p: Piece): string
    requires p.Token? ==> p.i < |tokens|
  {
    match p
    case Token(i) => tokens[i].token.text
    case Text(op) => op.text
  }

  ghost predicate InBuffer(tokens: seq<TokenWithIndex>, ps: seq<Piece>) {
    forall k :: 0 <= k < |ps| && ps[k].Token? ==> ps[k].i < |tokens|
  }

  ghost function Flatten(tokens: seq<TokenWithIndex>, ps: seq<Piece>): string
    requires InBuffer(tokens, ps)
  {
    if ps == [] then "" else PieceText(tokens, ps[0]) + Flatten(tokens, ps[1..])
  }

  /** `out` is the text of these pieces, which refer to recorded tokens only. */
  ghost predicate Spells(out: string, tokens: seq<TokenWithIndex>, ps: seq<Piece>) {
    InBuffer(tokens, ps) && out == Flatten(tokens, ps)
  }

  lemma {:induction false} FlattenAppend(tokens: seq<TokenWithIndex>, a: seq<Piece>, p: Piece)
    requires InBuffer(tokens, a) && (p.Token? ==> p.i < |tokens|)
    ensures Flatten(tokens, a + [p]) == Flatten(tokens, a) + PieceText(tokens, p)
  {
    if a == [] {
      assert a + [p] == [p];
    } else {
      assert (a + [p])[0] == a[0] && (a + [p])[1..] == a[1..] + [p];
      FlattenAppend(tokens, a[1..], p);
    }
  }

  lemma {:induction false} FlattenConcat(tokens: seq<TokenWithIndex>, a: seq<Piece>, b: seq<Piece>)
    requires InBuffer(tokens, a) && InBuffer(tokens, b)
    ensures InBuffer(tokens, a + b) && Flatten(tokens, a + b) == Flatten(tokens, a) + Flatten(tokens, b)
  {
    if a == [] {
      assert a + b == b;
    } else {
      assert (a + b)[0] == a[0] && (a + b)[1..] == a[1..] + b;
      FlattenConcat(tokens, a[1..], b);
      Assoc(PieceText(tokens, a[0]), Flatten(tokens, a[1..]), Flatten(tokens, b));
    }
  }

  lemma NothingRendered(tokens: seq<TokenWithIndex>, ops: seq<Op>, cursor: nat, last: nat)
    ensures Rendered(tokens, Render(ops, cursor, last), "", [], ops, cursor, last)
  {
  }

  lemma AllRendered(tokens: seq<TokenWithIndex>, whole: seq<Piece>, out: string, pieces: seq<Piece>,
                    ops: seq<Op>, cursor: nat, last: nat)
    requires Rendered(tokens, whole, out, pieces, ops, cursor, last) && cursor > last
    ensures Spells(out, tokens, pieces) && whole == pieces + Texts(ops)
  {
    assert Opened(0);
    RenderEnd(ops, cursor, last);
  }

  lemma TextStepAt(tokens: seq<TokenWithIndex>, whole: seq<Piece>, out: string, pieces: seq<Piece>,
                   prog: seq<Op>, k: nat, last: nat)
    requires k < |prog| && prog[k].index <= last
    requires Rendered(tokens, whole, out, pieces, prog[k..], prog[k].index, last)
    ensures Rendered(tokens, whole, out + prog[k].text, pieces + [Text(prog[k])], prog[k + 1..], Resume(prog[k]), last)
  {
    assert prog[k..][0] == prog[k] && prog[k..][1..] == prog[k + 1..];
    TextStep(tokens, whole, out, pieces, prog[k..], last);
  }

  lemma TokenStepAt(tokens: seq<TokenWithIndex>, whole: seq<Piece>, out: string, pieces: seq<Piece>,
                    prog: seq<Op>, k: nat, cursor: nat, last: nat)
    requires k <= |prog| && Rendered(tokens, whole, out, pieces, prog[k..], cursor, last)
    requires cursor <= last < |tokens| && (k == |prog| || prog[k].index != cursor)
    ensures Rendered(tokens, whole, out + tokens[cursor].token.text, pieces + [Token(cursor)],
                     prog[k..], cursor + 1, last)
  {
    TokenStep(tokens, whole, out, pieces, prog[k..], cursor, last);
  }

  // The text of scripts that go forward.

  function JoinTexts(ops: seq<Op>): string {
    if ops == [] then "" else ops[0].text + JoinTexts(ops[1..])
  }

  /** At each position the texts put there, and the token's own text unless it is replaced. */
  function Edited(tokens: seq<TokenWithIndex>, ops: seq<Op>, a: nat, b: nat): string
    requires b <= |tokens|
    decreases b - a
  {
    if a >= b then ""
    else JoinTexts(At(ops, a)) + (if Covered(ops, a) then "" else tokens[a].token.text) + Edited(tokens, ops, a + 1, b)
  }

  lemma {:induction false} FlattenTexts(tokens: seq<TokenWithIndex>, ops: seq<Op>)
    ensures InBuffer(tokens, Texts(ops)) && Flatten(tokens, Texts(ops)) == JoinTexts(ops)
  {
    if ops != [] {
      FlattenTexts(tokens, ops[1..]);
      assert Texts(ops)[0] == Text(ops[0]) && Texts(ops)[1..] == Texts(ops[1..]);
    }
  }

  lemma FlattenSlot(tokens: seq<TokenWithIndex>, ops: seq<Op>, i: nat)
    requires i < |tokens|
    ensures InBuffer(tokens, Slot(ops, i))
    ensures Flatten(tokens, Slot(ops, i)) ==
            JoinTexts(At(ops, i)) + if Covered(ops, i) then "" else tokens[i].token.text
  {
    FlattenTexts(tokens, At(ops, i));
    if Covered(ops, i) {
      assert Texts(At(ops, i)) + [] == Texts(At(ops, i));
    } else {
      FlattenAppend(tokens, Texts(At(ops, i)), Token(i));
    }
  }

  lemma {:induction false} FlattenSlots(tokens: seq<TokenWithIndex>, ops: seq<Op>, a: nat, b: nat)
    requires b <= |tokens|
    ensures InBuffer(tokens, Slots(ops, a, b)) && Flatten(tokens, Slots(ops, a, b)) == Edited(tokens, ops, a, b)
    decreases b - a
  {
    if a < b {
      FlattenSlots(tokens, ops, a + 1, b);
      FlattenSlot(tokens, ops, a);
      FlattenConcat(tokens, Slot(ops, a), Slots(ops, a + 1, b));
    }
  }

  /** `out` is the text of `pieces`, and what is left to print completes `whole`. */
  ghost predicate Rendered(tokens: seq<TokenWithIndex>, whole: seq<Piece>, out: string, pieces: seq<Piece>,
                           ops: seq<Op>, cursor: nat, last: nat) {
    forall k {:trigger Opened(k)} :: Opened(k) ==>
      Spells(out, tokens, pieces) && whole == pieces + Render(ops, cursor, last)
  }

  /** Loops only hand `Rendered` on; the step lemmas open it. */
  predicate Opened(k: nat) {
    true
  }

  lemma TokenStep(tokens: seq<TokenWithIndex>, whole: seq<Piece>, out: string, pieces: seq<Piece>,
                  ops: seq<Op>, cursor: nat, last: nat)
    requires Rendered(tokens, whole, out, pieces, ops, cursor, last)
    requires cursor <= last < |tokens| && (ops == [] || ops[0].index != cursor)
    ensures Rendered(tokens, whole, out + tokens[cursor].token.text, pieces + [Token(cursor)], ops, cursor + 1, last)
  {
    assert Opened(0);
    RenderToken(ops, cursor, last);
    FlattenAppend(tokens, pieces, Token(cursor));
    PushOne(pieces, Token(cursor), Render(ops, cursor + 1, last));
  }

  lemma TextStep(tokens: seq<TokenWithIndex>, whole: seq<Piece>, out: string, pieces: seq<Piece>,
                 ops: seq<Op>, last: nat)
    requires ops != [] && ops[0].index <= last
    requires Rendered(tokens, whole, out, pieces, ops, ops[0].index, last)
    ensures Rendered(tokens, whole, out + ops[0].text, pieces + [Text(ops[0])], ops[1..], Resume(ops[0]), last)
  {
    assert Opened(0);
    RenderText(ops, last);
    FlattenAppend(tokens, pieces, Text(ops[0]));
    PushOne(pieces, Text(ops[0]), Render(ops[1..], Resume(ops[0]), last));
  }

  /** If the script goes forward, this is the edited text, and behind it what is past the end. */
  ghost predicate IsEdited(out: string, tokens: seq<TokenWithIndex>, ops: seq<Op>, first: nat, last: nat)
    requires last < |tokens|
  {
    Forward(ops, first) ==> out == Edited(tokens, ops, first, last + 1) + JoinTexts(Past(ops, last))
  }

  lemma ForwardText(out: string, tokens: seq<TokenWithIndex>, ops: seq<Op>, first: nat, last: nat)
    requires last < |tokens| && Spells(out, tokens, Render(ops, first, last))
    ensures IsEdited(out, tokens, ops, first, last)
  {
    if Forward(ops, first) {
      RenderIsSlots(ops, first, last);
      FlattenSlots(tokens, ops, first, last + 1);
      FlattenTexts(tokens, Past(ops, last));
      FlattenConcat(tokens, Slots(ops, first, last + 1), Texts(Past(ops, last)));
    }
  }

  /** A call that edits. */
  datatype Edit =
    | Before(index: nat, text: string)
    | After(index: nat, text: string)
    | Replacing(from: nat, to: nat, text: string)
    | Removing(from: nat, to: nat)

  function OpOf(e: Edit): Op {
    match e
    case Before(index, text) => InsertBefore(index, text)
    case After(index, text) => InsertBefore(if index == SIZE - 1 then 0 else index + 1, text)
    case Replacing(from, to, text) => Replace(from, to, text)
    case Removing(from, to) => Replace(from, to, "")
  }

  /** The operations that a series of calls makes under one name, in order. */
  function OpsNamed(edits: seq<(string, Edit)>, name: string): seq<Op> {
    if edits == [] then []
    else (if edits[0].0 == name then [OpOf(edits[0].1)] else []) + OpsNamed(edits[1..], name)
  }

  /** The names that the first `k` calls are for. */
  function NamesOf(edits: seq<(string, Edit)>, k: nat): (names: set<string>)
    requires k <= |edits|
    ensures forall name :: name in names <==> exists j :: 0 <= j < k && edits[j].0 == name
  {
    set j | 0 <= j < k :: edits[j].0
  }

  lemma NamesNext(edits: seq<(string, Edit)>, k: nat)
    requires k < |edits|
    ensures NamesOf(edits, k + 1) == NamesOf(edits, k) + {edits[k].0}
  {
  }

  function Held(programs: map<string, seq<Op>>, name: string): seq<Op> {
    if name in programs then programs[name] else []
  }

  /** What is left to do from here makes what the whole series makes. */
  ghost predicate Due(was: map<string, seq<Op>>, now: map<string, seq<Op>>, edits: seq<(string, Edit)>,
                      k: nat, name: string)
    requires k <= |edits|
  {
    Program(Held(now, name), OpsNamed(edits[k..], name)) == Program(Held(was, name), OpsNamed(edits, name))
  }

  ghost predicate AllDue(was: map<string, seq<Op>>, now: map<string, seq<Op>>, edits: seq<(string, Edit)>, k: nat)
    requires k <= |edits|
  {
    forall name {:trigger Due(was, now, edits, k, name)} :: Due(was, now, edits, k, name)
  }

  lemma NothingDue(was: map<string, seq<Op>>, now: map<string, seq<Op>>, edits: seq<(string, Edit)>)
    requires AllDue(was, now, edits, |edits|)
    ensures forall name :: Held(now, name) == Program(Held(was, name), OpsNamed(edits, name))
  {
    forall name ensures Held(now, name) == Program(Held(was, name), OpsNamed(edits, name)) {
      assert Due(was, now, edits, |edits|, name) && edits[|edits|..] == [];
    }
  }

  lemma OpsNext(edits: seq<(string, Edit)>, k: nat, name: string)
    requires k < |edits|
    ensures OpsNamed(edits[k..], name) ==
            (if edits[k].0 == name then [OpOf(edits[k].1)] else []) + OpsNamed(edits[k + 1..], name)
  {
    assert edits[k..][0] == edits[k] && edits[k..][1..] == edits[k + 1..];
  }

  lemma ProgramNext(ops: seq<Op>, op: Op, rest: seq<Op>)
    ensures Program(ops, [op] + rest) == Program(InsertSorted(ops, op), rest)
  {
    assert ([op] + rest)[1..] == rest;
  }

  lemma DueNext(was: map<string, seq<Op>>, now: map<string, seq<Op>>, edits: seq<(string, Edit)>, k: nat, name: string)
    requires k < |edits| && Due(was, now, edits, k, name)
    ensures Due(was, now[edits[k].0 := InsertSorted(Held(now, edits[k].0), OpOf(edits[k].1))], edits, k + 1, name)
  {
    OpsNext(edits, k, name);
    var rest := OpsNamed(edits[k + 1..], name);
    if edits[k].0 == name {
      ProgramNext(Held(now, name), OpOf(edits[k].1), rest);
    } else {
      assert [] + rest == rest;
    }
  }

  class TokenStreamRewriteEngine {
    const upstream: Upstream
    var consumed: nat
    var index: nat
    var tokens: seq<TokenWithIndex>
    var programs: map<string, seq<Op>>
    var discardMask: set<int>

    ghost predicate Valid()
      reads this
    {
      && tokens == Tracked(upstream, consumed) && index == Delivered(upstream, consumed)
      && forall name :: name in programs ==> Sorted(programs[name])
    }

    constructor (upstream: Upstream)
      ensures Valid() && tokens == [] && programs == map[] && consumed == 0
      ensures this.upstream == upstream && discardMask == {}
    {
      this.upstream := upstream;
      consumed, index, tokens, programs, discardMask := 0, 0, [], map[], {};
    }

    /** The answer at `p` ends a call: no token, or one that is not thrown away. */
    predicate Stops(p: nat)
      reads this`discardMask
    {
      upstream(p).Some? ==> upstream(p).value.kind !in discardMask
    }

    /** Pull tokens until one is not discarded.  `stop` witnesses that such a token comes. */
    method NextToken(ghost stop: nat) returns (t: Option<LexToken>)
      requires Valid() && consumed <= stop && Stops(stop)
      modifies this`consumed, this`index, this`tokens
      ensures Valid()
      ensures old(consumed) < consumed <= stop + 1 && Stops(consumed - 1) && t == upstream(consumed - 1)
      ensures forall p :: old(consumed) <= p < consumed - 1 ==> !Stops(p)
      ensures old(tokens) <= tokens
    {
      var more := true;
      t := None;
      while more
        invariant Valid() && old(tokens) <= tokens
        invariant old(consumed) <= consumed
        invariant more ==> consumed <= stop && forall p :: old(consumed) <= p < consumed ==> !Stops(p)
        invariant !more ==> old(consumed) < consumed <= stop + 1 && Stops(consumed - 1) && t == upstream(consumed - 1)
        invariant !more ==> forall p :: old(consumed) <= p < consumed - 1 ==> !Stops(p)
        decreases more, stop + 1 - consumed
      {
        t := upstream(consumed);
        consumed := consumed + 1;
        if t.Some? {
          if t.value.kind != EOF_TYPE {
            tokens := tokens + [TokenWithIndex(t.value, index)];
          }
          index := index + 1;
        }
        more := t.Some? && t.value.kind in discardMask;
      }
    }

    /** The edits made so far under one name. */
    function ProgramNamed(name: string): seq<Op>
      reads this
    {
      if name in programs then programs[name] else []
    }

    /** Keep the program sorted: append when possible, else insert behind equal positions. */
    method AddToSortedRewriteList(name: string, op: Op)
      requires Valid()
      modifies this`programs
      ensures Valid()
      ensures programs ==
              old(programs)[name := InsertSorted(if name in old(programs) then old(programs)[name] else [], op)]
    {
      InsertKeepsSorted(ProgramNamed(name), op);
      assert InsertSorted([], op) == [op];
      if name !in programs {
        programs := programs[name := [op]];
        return;
      }
      var prog := programs[name];
      if prog == [] {
        programs := programs[name := [op]];
        return;
      }
      var u := UpperBound(prog, op.index);
      if op.index >= prog[|prog| - 1].index {
        assert u == |prog|;
        assert prog + [op] == prog[..u] + [op] + prog[u..];
        programs := programs[name := prog + [op]];
        return;
      }
      programs := programs[name := prog[..u] + [op] + prog[u..]];
    }

    method InsertBeforeIndex(name: string, index: nat, text: string)
      requires Valid()
      modifies this`programs
      ensures Valid()
      ensures programs == old(programs)[name := InsertSorted(old(ProgramNamed(name)), InsertBefore(index, text))]
    {
      AddToSortedRewriteList(name, InsertBefore(index, text));
    }

    /** Inserting after a token is inserting before the next index, even past the end. */
    method InsertAfterIndex(name: string, index: nat, text: string)
      requires Valid()
      modifies this`programs
      ensures Valid()
      ensures programs ==
              old(programs)[name := InsertSorted(old(ProgramNamed(name)),
                                                  InsertBefore(if index == SIZE - 1 then 0 else index + 1, text))]
    {
      InsertBeforeIndex(name, Next(index), text);
    }

    method ReplaceRange(name: string, from: nat, to: nat, text: string)
      requires Valid()
      modifies this`programs
      ensures Valid()
      ensures programs == old(programs)[name := InsertSorted(old(ProgramNamed(name)), Replace(from, to, text))]
    {
      AddToSortedRewriteList(name, Replace(from, to, text));
    }

    method RemoveRange(name: string, from: nat, to: nat)
      requires Valid()
      modifies this`programs
      ensures Valid()
      ensures programs == old(programs)[name := InsertSorted(old(ProgramNamed(name)), Replace(from, to, ""))]
    {
      ReplaceRange(name, from, to, "");
    }

    method Perform(name: string, e: Edit)
      requires Valid()
      modifies this`programs
      ensures Valid()
      ensures programs == old(programs)[name := InsertSorted(old(ProgramNamed(name)), OpOf(e))]
    {
      match e
      case Before(index, text) => InsertBeforeIndex(name, index, text);
      case After(index, text) => InsertAfterIndex(name, index, text);
      case Replacing(from, to, text) => ReplaceRange(name, from, to, text);
      case Removing(from, to) => RemoveRange(name, from, to);
    }

    /** The call at `k`. */
    method PerformNext(ghost was: map<string, seq<Op>>, edits: seq<(string, Edit)>, k: nat)
      requires Valid() && k < |edits| && AllDue(was, programs, edits, k)
      modifies this`programs
      ensures Valid() && programs.Keys == old(programs).Keys + {edits[k].0} && AllDue(was, programs, edits, k + 1)
    {
      ghost var now := programs;
      Perform(edits[k].0, edits[k].1);
      ghost var next := k + 1;
      forall name ensures Due(was, programs, edits, next, name) {
        assert Due(was, now, edits, k, name);
        DueNext(was, now, edits, k, name);
      }
    }

    /** Whatever the edits and their names, each program holds its own edits, sorted and in the order they
        came, behind what it held before. */
    method PerformAll(edits: seq<(string, Edit)>)
      requires Valid()
      modifies this`programs
      ensures Valid() && programs.Keys == old(programs).Keys + NamesOf(edits, |edits|)
      ensures forall name :: name in programs ==>
                programs[name] ==
                 Program(if name in old(programs) then old(programs)[name] else [], OpsNamed(edits, name))
    {
      ghost var was := programs;
      var k := 0;
      assert edits[0..] == edits;
      while k < |edits|
        invariant k <= |edits| && Valid() && AllDue(was, programs, edits, k)
        invariant programs.Keys == was.Keys + NamesOf(edits, k)
      {
        PerformNext(was, edits, k);
        NamesNext(edits, k);
        k := k + 1;
      }
      NothingDue(was, programs, edits);
      forall name | name in programs
        ensures programs[name] == Program(if name in was then was[name] else [], OpsNamed(edits, name))
      {
        assert Held(programs, name) == programs[name];
      }
    }

    /** Cut a program back to its first `instructionIndex` operations. */
    method Rollback(name: string, instructionIndex: nat)
      requires Valid() && (name in programs ==> instructionIndex <= |programs[name]|)
      modifies this`programs
      ensures Valid()
      ensures programs == if name in old(programs)
                          then old(programs)[name := old(programs)[name][..instructionIndex]] else old(programs)
    {
      if name in programs {
        programs := programs[name := programs[name][..instructionIndex]];
      }
    }

    /** Print the buffer from `firstToken` to `lastToken` with the edits of one program applied.
        Nothing is printed for an empty buffer or an unknown program. */
    method ToStream(name: string, firstToken: nat, lastToken: nat) returns (out: string)
      ensures tokens == [] || name !in programs ==> out == ""
      ensures tokens != [] && name in programs ==>
                Spells(out, tokens, Render(programs[name], firstToken, Min(lastToken, |tokens| - 1)))
      ensures tokens != [] && name in programs ==>
                IsEdited(out, tokens, programs[name], firstToken, Min(lastToken, |tokens| - 1))
    {
      if |tokens| == 0 || name !in programs {
        return "";
      }
      var prog := programs[name];
      var last := lastToken;
      if last > |tokens| - 1 {
        last := |tokens| - 1;
      }
      out := PrintProgram(prog, firstToken, last);
      ForwardText(out, tokens, prog, firstToken, last);
    }

    /** The outer loop, once the arguments have been sorted out. */
    method PrintProgram(prog: seq<Op>, firstToken: nat, last: nat) returns (out: string)
      requires last < |tokens|
      ensures Spells(out, tokens, Render(prog, firstToken, last))
    {
      out := "";
      ghost var whole, pieces := Render(prog, firstToken, last), [];
      var k := 0;
      var cursor: nat := firstToken;
      assert prog[0..] == prog;
      NothingRendered(tokens, prog, firstToken, last);
      while cursor <= last
        invariant 0 <= k <= |prog|
        invariant Rendered(tokens, whole, out, pieces, prog[k..], cursor, last)
        decreases |prog| - k, last + 1 - cursor
      {
        k, cursor, out, pieces := PrintRound(prog, k, whole, out, pieces, cursor, last);
      }
      AllRendered(tokens, whole, out, pieces, prog[k..], cursor, last);
      out := PrintTail(prog[k..], out, pieces);
    }

    /** Body of the outer loop: tokens up to the next operation, the operations there, and one token. */
    method PrintRound(prog: seq<Op>, k0: nat, ghost whole: seq<Piece>, out0: string, ghost pieces0: seq<Piece>,
                      cursor0: nat, last: nat)
      returns (k: nat, cursor: nat, out: string, ghost pieces: seq<Piece>)
      requires k0 <= |prog| && cursor0 <= last < |tokens|
      requires Rendered(tokens, whole, out0, pieces0, prog[k0..], cursor0, last)
      ensures k0 <= k <= |prog| && (k == k0 ==> cursor > cursor0)
      ensures Rendered(tokens, whole, out, pieces, prog[k..], cursor, last)
    {
      k, cursor, out, pieces := k0, cursor0, out0, pieces0;
      if k < |prog| {
        var upToHere := if prog[k].index < last then prog[k].index else last;
        cursor, out, pieces := CopyTokens(upToHere, whole, out, pieces, prog, k, cursor, last);
      }
      k, cursor, out, pieces := ExecuteOps(prog, k, whole, out, pieces, cursor, last);
      if cursor <= last {
        out, pieces := EmitToken(prog, k, whole, out, pieces, cursor, last);
        cursor := cursor + 1;
      }
    }

    method EmitText(prog: seq<Op>, k: nat, ghost whole: seq<Piece>,
                    out: string, ghost pieces: seq<Piece>, ghost last: nat)
      returns (out': string, ghost pieces': seq<Piece>)
      requires k < |prog| && prog[k].index <= last
      requires Rendered(tokens, whole, out, pieces, prog[k..], prog[k].index, last)
      ensures Rendered(tokens, whole, out', pieces', prog[k + 1..], Resume(prog[k]), last)
    {
      TextStepAt(tokens, whole, out, pieces, prog, k, last);
      out', pieces' := out + prog[k].text, pieces + [Text(prog[k])];
    }

    method EmitToken(ghost prog: seq<Op>, ghost k: nat, ghost whole: seq<Piece>, out: string, ghost pieces: seq<Piece>,
                     cursor: nat, ghost last: nat)
      returns (out': string, ghost pieces': seq<Piece>)
      requires k <= |prog| && Rendered(tokens, whole, out, pieces, prog[k..], cursor, last)
      requires cursor <= last < |tokens| && (k == |prog| || prog[k].index != cursor)
      ensures Rendered(tokens, whole, out', pieces', prog[k..], cursor + 1, last)
    {
      TokenStepAt(tokens, whole, out, pieces, prog, k, cursor, last);
      out', pieces' := out + tokens[cursor].token.text, pieces + [Token(cursor)];
    }

    /** First inner loop: original tokens up to the next operation. */
    method CopyTokens(upToHere: nat, ghost whole: seq<Piece>, out0: string, ghost pieces0: seq<Piece>,
                      ghost prog: seq<Op>, ghost k: nat, cursor0: nat, ghost last: nat)
      returns (cursor: nat, out: string, ghost pieces: seq<Piece>)
      requires cursor0 <= last < |tokens|
      requires k < |prog| && upToHere == Min(prog[k].index, last)
      requires Rendered(tokens, whole, out0, pieces0, prog[k..], cursor0, last)
      ensures cursor == if cursor0 < upToHere then upToHere else cursor0
      ensures Rendered(tokens, whole, out, pieces, prog[k..], cursor, last)
    {
      cursor, out, pieces := cursor0, out0, pieces0;
      while cursor < upToHere
        invariant cursor0 <= cursor && (cursor <= upToHere || cursor == cursor0)
        invariant Rendered(tokens, whole, out, pieces, prog[k..], cursor, last)
      {
        out, pieces := EmitToken(prog, k, whole, out, pieces, cursor, last);
        cursor := cursor + 1;
      }
    }

    /** Second inner loop: the operations at the cursor, each of which may move it. */
    method ExecuteOps(prog: seq<Op>, k0: nat, ghost whole: seq<Piece>, out0: string, ghost pieces0: seq<Piece>,
                      cursor0: nat, last: nat)
      returns (k: nat, cursor: nat, out: string, ghost pieces: seq<Piece>)
      requires k0 <= |prog| && Rendered(tokens, whole, out0, pieces0, prog[k0..], cursor0, last)
      ensures k0 <= k <= |prog| && (k == k0 ==> cursor == cursor0)
      ensures cursor <= last ==> k == |prog| || cursor != prog[k].index
      ensures Rendered(tokens, whole, out, pieces, prog[k..], cursor, last)
    {
      k, cursor, out, pieces := k0, cursor0, out0, pieces0;
      while k < |prog| && cursor == prog[k].index && cursor <= last
        invariant k0 <= k <= |prog| && (k == k0 ==> cursor == cursor0)
        invariant Rendered(tokens, whole, out, pieces, prog[k..], cursor, last)
        decreases |prog| - k
      {
        out, pieces := EmitText(prog, k, whole, out, pieces, last);
        cursor, k := Resume(prog[k]), k + 1;
      }
    }

    /** Operations left over at the end are still executed, for their text. */
    method PrintTail(ops: seq<Op>, out0: string, ghost pieces0: seq<Piece>) returns (out: string)
      requires Spells(out0, tokens, pieces0)
      ensures Spells(out, tokens, pieces0 + Texts(ops))
    {
      out := out0;
      ghost var pieces := pieces0;
      var k := 0;
      while k < |ops|
        invariant 0 <= k <= |ops|
        invariant Spells(out, tokens, pieces) && pieces0 + Texts(ops) == pieces + Texts(ops[k..])
      {
        assert ops[k..][1..] == ops[k + 1..];
        FlattenAppend(tokens, pieces, Text(ops[k]));
        PushOne(pieces, Text(ops[k]), Texts(ops[k + 1..]));
        out, pieces := out + ops[k].text, pieces + [Text(ops[k])];
        k := k + 1;
      }
      assert pieces == pieces0 + Texts(ops);
    }
  }
}
