/** How edit operations accumulate into a program: sorted by position, stable, and what rolling a
    program back undoes. */
module RewriteProgram {
  import opened Basics
  import opened RewriteScript

  ghost predicate Sorted(ops: seq<Op>) {
    forall i, j :: 0 <= i < j < |ops| ==> ops[i].index <= ops[j].index
  }

  /** The first position whose operation starts after `index`. */
  function UpperBound(ops: seq<Op>, index: int): (u: nat)
    ensures u <= |ops|
    ensures forall k :: 0 <= k < u ==> ops[k].index <= index
    ensures u < |ops| ==> ops[u].index > index
  {
    if ops == [] || ops[0].index > index then 0 else 1 + UpperBound(ops[1..], index)
  }

  function InsertSorted(ops: seq<Op>, op: Op): seq<Op> {
    var u := UpperBound(ops, op.index);
    ops[..u] + [op] + ops[u..]
  }

  /** The program after a series of edits. */
  function Program(ops: seq<Op>, edits: seq<Op>): seq<Op>
    decreases |edits|
  {
    if edits == [] then ops else Program(InsertSorted(ops, edits[0]), edits[1..])
  }

  lemma AtFirst(op: Op, ops: seq<Op>, i: int)
    ensures At([op] + ops, i) == (if op.index == i then [op] else []) + At(ops, i)
  {
    assert ([op] + ops)[1..] == ops;
  }

  lemma {:induction false} AtAppend(a: seq<Op>, b: seq<Op>, i: int)
    ensures At(a + b, i) == At(a, i) + At(b, i)
  {
    if a == [] {
      assert a + b == b;
    } else {
      var op, rest := a[0], a[1..];
      AtAppend(rest, b, i);
      AtFirst(op, rest, i);
      AtFirst(op, rest + b, i);
      assert a == [op] + rest && a + b == [op] + (rest + b);
      Assoc(if op.index == i then [op] else [], At(rest, i), At(b, i));
    }
  }

  lemma {:induction false} AtMembers(ops: seq<Op>, i: int, op: Op)
    requires op in At(ops, i)
    ensures op in ops && op.index == i
  {
    if ops[0].index != i || op != ops[0] {
      AtMembers(ops[1..], i, op);
    }
  }

  lemma {:induction false} NoneAt(ops: seq<Op>, i: int)
    requires forall k :: 0 <= k < |ops| ==> ops[k].index != i
    ensures At(ops, i) == []
  {
    if ops != [] {
      NoneAt(ops[1..], i);
    }
  }

  /** The operations at position `i` once `op` has been added. */
  function Added(ops: seq<Op>, op: Op, i: int): seq<Op> {
    if op.index == i then At(ops, i) + [op] else At(ops, i)
  }

  lemma InsertBetween(a: seq<Op>, op: Op, b: seq<Op>, i: int)
    requires op.index == i ==> forall k :: 0 <= k < |b| ==> b[k].index != i
    ensures At(a + [op] + b, i) == Added(a + b, op, i)
  {
    AtAppend(a + [op], b, i);
    AtAppend(a, [op], i);
    AtAppend(a, b, i);
    if op.index == i {
      NoneAt(b, i);
    }
  }

  lemma BehindUpperBound(ops: seq<Op>, index: int, b: seq<Op>)
    requires Sorted(ops) && b == ops[UpperBound(ops, index)..]
    ensures forall k :: 0 <= k < |b| ==> b[k].index != index
  {
    var u := UpperBound(ops, index);
    forall k | 0 <= k < |b| ensures b[k].index != index {
      assert ops[u].index <= ops[u + k].index;
    }
  }

  lemma InsertAt(ops: seq<Op>, op: Op, i: int)
    requires Sorted(ops)
    ensures At(InsertSorted(ops, op), i) == Added(ops, op, i)
  {
    var u := UpperBound(ops, op.index);
    var a, b := ops[..u], ops[u..];
    assert ops == a + b;
    BehindUpperBound(ops, op.index, b);
    InsertBetween(a, op, b, i);
  }

  /** Inserting keeps the program sorted. */
  lemma InsertKeepsSorted(ops: seq<Op>, op: Op)
    requires Sorted(ops)
    ensures Sorted(InsertSorted(ops, op))
  {
  }

  /** However edits arrive, the program is sorted and each position keeps its operations in the order
      they were added. */
  lemma {:induction false} ProgramAt(ops: seq<Op>, edits: seq<Op>, i: int)
    requires Sorted(ops)
    ensures Sorted(Program(ops, edits))
    ensures At(Program(ops, edits), i) == At(ops, i) + At(edits, i)
    decreases |edits|
  {
    if edits != [] {
      InsertKeepsSorted(ops, edits[0]);
      InsertAt(ops, edits[0], i);
      ProgramAt(InsertSorted(ops, edits[0]), edits[1..], i);
      if edits[0].index == i {
        assert At(edits, i) == [edits[0]] + At(edits[1..], i);
        assert (At(ops, i) + [edits[0]]) + At(edits[1..], i) == At(ops, i) + At(edits, i);
      } else {
        assert At(edits, i) == At(edits[1..], i);
      }
    }
  }

  /** A sorted program is determined by what it does at each position. */
  lemma {:induction false} SortedIsCanonical(p: seq<Op>, q: seq<Op>)
    requires Sorted(p) && Sorted(q) && forall i :: At(p, i) == At(q, i)
    ensures p == q
  {
    NothingAnywhere(p);
    NothingAnywhere(q);
    if p != [] && q != [] {
      SameFirstOp(p, q);
      forall i
        ensures At(p[1..], i) == At(q[1..], i)
      {
        if p[0].index == i {
          assert At(p, i)[1..] == At(p[1..], i) && At(q, i)[1..] == At(q[1..], i);
        } else {
          assert At(p, i) == At(p[1..], i) && At(q, i) == At(q[1..], i);
        }
      }
      SortedIsCanonical(p[1..], q[1..]);
    }
  }

  lemma NothingAnywhere(p: seq<Op>)
    ensures p == [] <==> forall i :: At(p, i) == []
  {
    if p != [] {
      assert At(p, p[0].index) != [];
    }
  }

  lemma FirstIsLeast(p: seq<Op>, q: seq<Op>)
    requires Sorted(p) && p != [] && q != [] && forall i :: At(p, i) == At(q, i)
    ensures p[0].index <= q[0].index
  {
    var m := q[0].index;
    assert At(q, m)[0] == q[0];
    assert q[0] in At(p, m);
    AtMembers(p, m, q[0]);
  }

  lemma SameFirstOp(p: seq<Op>, q: seq<Op>)
    requires Sorted(p) && Sorted(q) && p != [] && q != [] && forall i :: At(p, i) == At(q, i)
    ensures p[0] == q[0]
  {
    FirstIsLeast(p, q);
    FirstIsLeast(q, p);
    var m := p[0].index;
    assert At(p, m) == At(q, m);
    assert At(p, m)[0] == p[0] && At(q, m)[0] == q[0];
  }

  /** The two series do the same, in the same order, at every position. */
  ghost predicate AgreeEverywhere(a: seq<Op>, b: seq<Op>) {
    forall i :: At(a, i) == At(b, i)
  }

  lemma AgreeingPrograms(ops: seq<Op>, a: seq<Op>, b: seq<Op>, i: int)
    requires Sorted(ops)
    ensures At(a, i) == At(b, i) <==> At(Program(ops, a), i) == At(Program(ops, b), i)
  {
    ProgramAt(ops, a, i);
    ProgramAt(ops, b, i);
    assert At(a, i) == At(Program(ops, a), i)[|At(ops, i)|..];
    assert At(b, i) == At(Program(ops, b), i)[|At(ops, i)|..];
  }

  /** Two series of edits give one program exactly when they agree, in order, at every position: so
      edits of different positions can be made in any order, and edits of one position cannot. */
  lemma OrderOfEdits(ops: seq<Op>, a: seq<Op>, b: seq<Op>)
    requires Sorted(ops)
    ensures Program(ops, a) == Program(ops, b) <==> AgreeEverywhere(a, b)
  {
    forall i
      ensures At(a, i) == At(b, i) <==> At(Program(ops, a), i) == At(Program(ops, b), i)
    {
      AgreeingPrograms(ops, a, b, i);
    }
    if AgreeEverywhere(a, b) {
      ProgramAt(ops, a, 0);
      ProgramAt(ops, b, 0);
      SortedIsCanonical(Program(ops, a), Program(ops, b));
    }
  }

  // ---- Rolling back ----

  lemma {:induction false} PrefixGrows(ops: seq<Op>, edits: seq<Op>)
    requires Sorted(ops)
    ensures |Program(ops, edits)| == |ops| + |edits|
    decreases |edits|
  {
    if edits != [] {
      InsertKeepsSorted(ops, edits[0]);
      PrefixGrows(InsertSorted(ops, edits[0]), edits[1..]);
    }
  }

  /** The instructions of a program count positions in the sorted list, not edits in time: cutting a
      program back to its old length undoes a series of edits if and only if none of them starts
      before the last operation that was already there. */
  lemma RollbackUndoes(ops: seq<Op>, edits: seq<Op>)
    requires Sorted(ops) && ops != []
    ensures |Program(ops, edits)| >= |ops|
    ensures Program(ops, edits)[..|ops|] == ops <==> forall e :: e in edits ==> e.index >= ops[|ops| - 1].index
  {
    PrefixGrows(ops, edits);
    var last, p := ops[|ops| - 1].index, Program(ops, edits);
    forall e | e in edits && e.index < last
      ensures p[..|ops|] != ops
    {
      EditIsInside(ops, edits, e);
    }
    if forall e :: e in edits ==> e.index >= last {
      KeepsPrefix(ops, ops, edits);
    }
  }

  /** Of two edits of which the second starts first, a rollback to one instruction undoes the first edit
      and keeps the second. */
  lemma RollbackUndoesEarlier(first: Op, second: Op)
    requires second.index < first.index
    ensures Program([], [first]) == [first] && Program([], [first, second]) == [second, first]
    ensures Program([], [first, second])[..1] == [second] != Program([], [first])
  {
    assert InsertSorted([], first) == [first] && [first, second][1..] == [second] && [second][1..] == [];
    assert InsertSorted([first], second) == [second, first];
    assert Program([first], [second]) == Program([second, first], []);
    assert Program([], [first]) == Program([first], []);
  }

  /** While edits start at or past the end of `base`, they land behind it. */
  lemma {:induction false} KeepsPrefix(base: seq<Op>, ops: seq<Op>, edits: seq<Op>)
    requires Sorted(ops) && base != [] && base <= ops
    requires forall e :: e in edits ==> e.index >= base[|base| - 1].index
    ensures base <= Program(ops, edits)
    decreases |edits|
  {
    if edits != [] {
      assert edits[0] in edits;
      assert ops[|base| - 1] == base[|base| - 1];
      var u := UpperBound(ops, edits[0].index);
      assert u < |ops| ==> ops[u].index > ops[|base| - 1].index;
      assert u >= |base|;
      assert base <= ops[..u];
      InsertKeepsSorted(ops, edits[0]);
      KeepsPrefix(base, InsertSorted(ops, edits[0]), edits[1..]);
    }
  }

  lemma {:induction false} InAt(ops: seq<Op>, e: Op)
    requires e in ops
    ensures e in At(ops, e.index)
  {
    if ops[0] != e {
      InAt(ops[1..], e);
    }
  }

  /** Behind the last operation of a sorted prefix nothing starts before it. */
  lemma NothingBehind(ops: seq<Op>, p: seq<Op>, i: int)
    requires Sorted(p) && ops != [] && ops <= p && i < ops[|ops| - 1].index
    ensures At(p, i) == At(ops, i)
  {
    var tail := p[|ops|..];
    assert p == ops + tail;
    forall k | 0 <= k < |tail| ensures tail[k].index != i {
      assert p[|ops| - 1].index <= p[|ops| + k].index;
    }
    AtAppend(ops, tail, i);
    NoneAt(tail, i);
  }

  /** An edit that starts before the old end lands before it. */
  lemma EditIsInside(ops: seq<Op>, edits: seq<Op>, e: Op)
    requires Sorted(ops) && ops != [] && e in edits && e.index < ops[|ops| - 1].index
    requires |Program(ops, edits)| >= |ops|
    ensures Program(ops, edits)[..|ops|] != ops
  {
    ProgramAt(ops, edits, e.index);
    InAt(edits, e);
    if Program(ops, edits)[..|ops|] == ops {
      NothingBehind(ops, Program(ops, edits), e.index);
    }
  }
}
