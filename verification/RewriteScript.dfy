/** Edit scripts over a token buffer: what a script means position by position, and how scripts are
    kept sorted while edits arrive. */
module RewriteScript {
  import opened Basics

  const SIZE: int := 0x1_0000_0000_0000_0000

  /** Adding one to an unsigned 64-bit position wraps. */
  function Next(i: nat): nat {
    if i == SIZE - 1 then 0 else i + 1
  }

  datatype Op =
    | InsertBefore(index: nat, text: string)
    | Replace(index: nat, last: nat, text: string)

  /** Where rendering goes on after the operation. */
  function Resume(op: Op): nat {
    match op
    case InsertBefore(i, _) => i
    case Replace(_, last, _) => Next(last)
  }

  /** What goes to the output: an original token or the text of an operation. */
  datatype Piece = Token(i: nat) | Text(op: Op)

  function Tokens(a: nat, b: nat): seq<Piece>
    decreases b - a
  {
    if a >= b then [] else [Token(a)] + Tokens(a + 1, b)
  }

  function Texts(ops: seq<Op>): seq<Piece> {
    if ops == [] then [] else [Text(ops[0])] + Texts(ops[1..])
  }

  /** Rendering, operation by operation: tokens up to the operation, its text, then on at its resume
      point.  From the first operation that lies behind the cursor or past `last`, the remaining
      tokens come first and the remaining texts are appended. */
  function Render(ops: seq<Op>, cursor: nat, last: nat): seq<Piece> {
    if ops == [] || ops[0].index > last || cursor > ops[0].index then Tokens(cursor, last + 1) + Texts(ops)
    else Tokens(cursor, ops[0].index) + [Text(ops[0])] + Render(ops[1..], Resume(ops[0]), last)
  }

  lemma RenderToken(ops: seq<Op>, cursor: nat, last: nat)
    requires cursor <= last && (ops == [] || ops[0].index != cursor)
    ensures Render(ops, cursor, last) == [Token(cursor)] + Render(ops, cursor + 1, last)
  {
  }

  lemma RenderText(ops: seq<Op>, last: nat)
    requires ops != [] && ops[0].index <= last
    ensures Render(ops, ops[0].index, last) == [Text(ops[0])] + Render(ops[1..], Resume(ops[0]), last)
  {
  }

  lemma RenderEnd(ops: seq<Op>, cursor: nat, last: nat)
    requires cursor > last
    ensures Render(ops, cursor, last) == Texts(ops)
  {
  }

  function OpsOf(ps: seq<Piece>): seq<Op> {
    if ps == [] then [] else (if ps[0].Text? then [ps[0].op] else []) + OpsOf(ps[1..])
  }

  lemma {:induction false} OpsOfAppend(a: seq<Piece>, b: seq<Piece>)
    ensures OpsOf(a + b) == OpsOf(a) + OpsOf(b)
  {
    if a == [] {
      assert a + b == b;
    } else {
      assert (a + b)[0] == a[0] && (a + b)[1..] == a[1..] + b;
      OpsOfAppend(a[1..], b);
    }
  }

  lemma {:induction false} OpsOfTokens(a: nat, b: nat)
    ensures OpsOf(Tokens(a, b)) == []
    decreases b - a
  {
    if a < b {
      OpsOfTokens(a + 1, b);
      assert ([Token(a)] + Tokens(a + 1, b))[1..] == Tokens(a + 1, b);
    }
  }

  lemma {:induction false} OpsOfTexts(ops: seq<Op>)
    ensures OpsOf(Texts(ops)) == ops
  {
    if ops != [] {
      OpsOfTexts(ops[1..]);
      assert ([Text(ops[0])] + Texts(ops[1..]))[1..] == Texts(ops[1..]);
    }
  }

  /** Whatever the script, overlapping or going backwards: every operation is executed exactly once,
      in script order. */
  lemma {:induction false} EachOpOnce(ops: seq<Op>, cursor: nat, last: nat)
    ensures OpsOf(Render(ops, cursor, last)) == ops
  {
    if ops == [] || ops[0].index > last || cursor > ops[0].index {
      OpsOfAppend(Tokens(cursor, last + 1), Texts(ops));
      OpsOfTokens(cursor, last + 1);
      OpsOfTexts(ops);
    } else {
      var head, rest := Tokens(cursor, ops[0].index), Render(ops[1..], Resume(ops[0]), last);
      OpsOfAppend(head + [Text(ops[0])], rest);
      OpsOfAppend(head, [Text(ops[0])]);
      OpsOfTokens(cursor, ops[0].index);
      EachOpOnce(ops[1..], Resume(ops[0]), last);
    }
  }

  // ---- Meaning of scripts that do not overlap ----

  /** The resume point is not before the operation and has not wrapped. */
  predicate Advances(op: Op) {
    op.Replace? ==> op.index <= op.last + 1 < SIZE
  }

  /** Each operation goes forward and starts at or past the resume point of the one before. */
  predicate Forward(ops: seq<Op>, start: nat) {
    ops == [] ||
    (start <= ops[0].index && Advances(ops[0]) && Forward(ops[1..], Resume(ops[0])))
  }

  /** The operations at position `i`, in script order. */
  function At(ops: seq<Op>, i: int): seq<Op> {
    if ops == [] then []
    else (if ops[0].index == i then [ops[0]] else []) + At(ops[1..], i)
  }

  predicate Covers(op: Op, i: int) {
    op.Replace? && op.index <= i <= op.last
  }

  predicate Covered(ops: seq<Op>, i: int) {
    ops != [] && (Covers(ops[0], i) || Covered(ops[1..], i))
  }

  /** What a script makes of position `i`, whatever happens elsewhere: the texts put there, and the
      token itself unless a replacement covers it. */
  function Slot(ops: seq<Op>, i: nat): seq<Piece> {
    Texts(At(ops, i)) + if Covered(ops, i) then [] else [Token(i)]
  }

  function Slots(ops: seq<Op>, a: nat, b: nat): seq<Piece>
    decreases b - a
  {
    if a >= b then [] else Slot(ops, a) + Slots(ops, a + 1, b)
  }

  function Past(ops: seq<Op>, last: int): seq<Op> {
    if ops == [] then []
    else (if ops[0].index > last then [ops[0]] else []) + Past(ops[1..], last)
  }

  lemma {:induction false} ForwardFrom(ops: seq<Op>, start: nat)
    requires Forward(ops, start)
    ensures forall op :: op in ops ==> start <= op.index
  {
    if ops != [] {
      ForwardFrom(ops[1..], Resume(ops[0]));
      assert ops == [ops[0]] + ops[1..];
    }
  }

  lemma {:induction false} NothingAt(ops: seq<Op>, i: int)
    requires forall op :: op in ops ==> op.index > i
    ensures At(ops, i) == [] && !Covered(ops, i)
  {
    if ops != [] {
      assert ops[0] in ops;
      NothingAt(ops[1..], i);
    }
  }

  lemma {:induction false} AllPast(ops: seq<Op>, last: int)
    requires forall op :: op in ops ==> op.index > last
    ensures Past(ops, last) == ops
  {
    if ops != [] {
      AllPast(ops[1..], last);
      assert ops == [ops[0]] + ops[1..];
    }
  }

  /** Positions before every operation keep their tokens. */
  lemma {:induction false} UntouchedSlots(ops: seq<Op>, a: nat, b: nat)
    requires forall op :: op in ops ==> op.index >= b
    ensures Slots(ops, a, b) == Tokens(a, b)
    decreases b - a
  {
    if a < b {
      NothingAt(ops, a);
      UntouchedSlots(ops, a + 1, b);
      assert Slot(ops, a) == [Token(a)];
    }
  }

  lemma {:induction false} SlotsSplit(ops: seq<Op>, a: nat, m: nat, b: nat)
    requires a <= m <= b
    ensures Slots(ops, a, b) == Slots(ops, a, m) + Slots(ops, m, b)
    decreases m - a
  {
    if a < m {
      SlotsSplit(ops, a + 1, m, b);
    }
  }

  /** Positions at or past the resume point are decided by the rest of the script, except that an
      insertion still shows at its own position. */
  lemma SlotOfRest(ops: seq<Op>, i: nat)
    requires ops != [] && Forward(ops, ops[0].index) && Resume(ops[0]) <= i
    ensures ops[0].index == i ==> Slot(ops, i) == [Text(ops[0])] + Slot(ops[1..], i)
    ensures ops[0].index != i ==> Slot(ops, i) == Slot(ops[1..], i)
  {
    assert !Covers(ops[0], i);
    if ops[0].index == i {
      assert At(ops, i) == [ops[0]] + At(ops[1..], i);
      assert At(ops, i)[1..] == At(ops[1..], i);
    } else {
      assert At(ops, i) == At(ops[1..], i);
    }
  }

  /** Positions inside a replacement show its text once and none of its tokens. */
  lemma {:induction false} ReplacedSlots(ops: seq<Op>, a: nat, b: nat)
    requires ops != [] && Forward(ops, ops[0].index)
    requires ops[0].index <= a && b <= Resume(ops[0])
    ensures Slots(ops, a, b) == if a == ops[0].index && a < b then [Text(ops[0])] else []
    decreases b - a
  {
    if a < b {
      var first, rest := ops[0], ops[1..];
      assert first.Replace? && Covers(first, a) && first in ops;
      ForwardFrom(rest, Resume(first));
      NothingAt(rest, a);
      if a == first.index {
        assert At(ops, a) == [first];
        assert Texts([first]) == [Text(first)];
      } else {
        assert At(ops, a) == [];
      }
      ReplacedSlots(ops, a + 1, b);
    }
  }

  lemma {:induction false} SlotsOfRest(ops: seq<Op>, a: nat, b: nat)
    requires ops != [] && Forward(ops, ops[0].index) && Resume(ops[0]) <= a && ops[0].index < a
    ensures Slots(ops, a, b) == Slots(ops[1..], a, b)
    decreases b - a
  {
    if a < b {
      SlotOfRest(ops, a);
      SlotsOfRest(ops, a + 1, b);
    }
  }

  lemma SlotsHead(ops: seq<Op>, a: nat, b: nat)
    requires a < b
    ensures Slots(ops, a, b) == Slot(ops, a) + Slots(ops, a + 1, b)
  {
  }

  /** From the first operation on: its text, then whatever the rest makes of the positions from its
      resume point. */
  lemma RestAfterFirst(ops: seq<Op>, last: nat)
    requires ops != [] && Forward(ops, ops[0].index) && ops[0].index <= last
    ensures Slots(ops, ops[0].index, last + 1) == [Text(ops[0])] + Slots(ops[1..], Resume(ops[0]), last + 1)
  {
    var i, r := ops[0].index, Resume(ops[0]);
    if r == i {
      SlotOfRest(ops, i);
      SlotsOfRest(ops, i + 1, last + 1);
      SlotsHead(ops, i, last + 1);
      SlotsHead(ops[1..], i, last + 1);
      Assoc([Text(ops[0])], Slot(ops[1..], i), Slots(ops[1..], i + 1, last + 1));
    } else {
      RestAfterReplacement(ops, last);
    }
  }

  lemma RestAfterReplacement(ops: seq<Op>, last: nat)
    requires ops != [] && Forward(ops, ops[0].index) && ops[0].index <= last
    requires ops[0].index < Resume(ops[0])
    ensures Slots(ops, ops[0].index, last + 1) == [Text(ops[0])] + Slots(ops[1..], Resume(ops[0]), last + 1)
  {
    var i, r := ops[0].index, Resume(ops[0]);
    if r <= last + 1 {
      SlotsSplit(ops, i, r, last + 1);
      ReplacedSlots(ops, i, r);
      SlotsOfRest(ops, r, last + 1);
    } else {
      ReplacedSlots(ops, i, last + 1);
    }
  }

  lemma RenderPast(ops: seq<Op>, cursor: nat, last: nat)
    requires Forward(ops, cursor) && (ops == [] || ops[0].index > last)
    ensures Tokens(cursor, last + 1) + Texts(ops) == Slots(ops, cursor, last + 1) + Texts(Past(ops, last))
  {
    if ops != [] {
      ForwardFrom(ops, ops[0].index);
    }
    UntouchedSlots(ops, cursor, last + 1);
    AllPast(ops, last);
  }

  /** For a script that goes forward without overlaps, rendering is position by position: each
      position shows its own texts and its token unless replaced, and operations past the end are
      appended. */
  lemma {:induction false} RenderIsSlots(ops: seq<Op>, cursor: nat, last: nat)
    requires Forward(ops, cursor)
    ensures Render(ops, cursor, last) == Slots(ops, cursor, last + 1) + Texts(Past(ops, last))
    decreases |ops|
  {
    if ops == [] || ops[0].index > last {
      RenderPast(ops, cursor, last);
    } else {
      var r, rest := Resume(ops[0]), ops[1..];
      RenderIsSlots(rest, r, last);
      SlotsFromFirst(ops, cursor, last);
      assert Past(ops, last) == Past(rest, last);
      Regroup(Tokens(cursor, ops[0].index), Text(ops[0]), Slots(rest, r, last + 1), Texts(Past(rest, last)));
    }
  }

  lemma SlotsFromFirst(ops: seq<Op>, cursor: nat, last: nat)
    requires ops != [] && Forward(ops, cursor) && ops[0].index <= last
    ensures Slots(ops, cursor, last + 1) ==
              Tokens(cursor, ops[0].index) + ([Text(ops[0])] + Slots(ops[1..], Resume(ops[0]), last + 1))
  {
    var i: nat := ops[0].index;
    ForwardFrom(ops, i);
    UntouchedSlots(ops, cursor, i);
    SlotsSplit(ops, cursor, i, last + 1);
    RestAfterFirst(ops, last);
  }

  lemma Regroup<T>(a: seq<T>, x: T, b: seq<T>, c: seq<T>)
    ensures a + [x] + (b + c) == a + ([x] + b) + c
  {
  }
}
