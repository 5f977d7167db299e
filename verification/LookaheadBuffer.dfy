/** The buffers between a token (or character) source and a parser: a queue with deferred consumption,
    compaction and marks, against the plain cursor on an endless stream that parsers take it for. */
module LookaheadBuffer {
  import opened Basics

  const OFFSET_MAX_RESIZE: nat := 1000000

  /** `unsigned int` has this many values; an `int` stays below half of it. */
  const UNSIGNED_RANGE: nat := 0x1_0000_0000
  const INT_LIMIT: nat := 0x8000_0000

  /** The index handed to the queue: computed in `unsigned int`, then converted to `int`. */
  function QueueIndex(markerOffset: nat, i: nat): int {
    var u := (markerOffset + i - 1) % UNSIGNED_RANGE;
    if u < INT_LIMIT then u else u - UNSIGNED_RANGE
  }

  /** The unsigned wrap is harmless, and asking for item 0 with nothing marked gives -1. */
  lemma QueueIndexIsExact(markerOffset: nat, i: nat)
    requires markerOffset + i < UNSIGNED_RANGE
    ensures QueueIndex(markerOffset, i) == markerOffset + i - 1 <==> markerOffset + i <= INT_LIMIT
  {
    if markerOffset + i == 0 {
      assert -1 % UNSIGNED_RANGE == UNSIGNED_RANGE - 1;
    } else {
      assert (markerOffset + i - 1) % UNSIGNED_RANGE == markerOffset + i - 1;
    }
  }

  /** `stored` is the stretch of the stream that ends right before item `taken`. */
  ghost predicate EndsAt<T>(stored: seq<T>, input: nat -> T, taken: nat) {
    && |stored| <= taken
    && (forall k :: 0 <= k < |stored| ==> stored[k] == input(taken - |stored| + k))
  }

  lemma EndsAtSuffix<T>(stored: seq<T>, input: nat -> T, taken: nat, k: nat)
    requires EndsAt(stored, input, taken) && k <= |stored|
    ensures EndsAt(stored[k..], input, taken)
  {
    var rest := stored[k..];
    forall j | 0 <= j < |rest|
      ensures rest[j] == input(taken - |rest| + j)
    {
      assert rest[j] == stored[k + j];
    }
  }

  lemma EndsAtNext<T>(stored: seq<T>, input: nat -> T, taken: nat)
    requires EndsAt(stored, input, taken)
    ensures EndsAt(stored + [input(taken)], input, taken + 1)
  {
    var more := stored + [input(taken)];
    forall j | 0 <= j < |more|
      ensures more[j] == input(taken + 1 - |more| + j)
    {
    }
  }

  /** A vector whose first `offset` elements are dead. */
  class CircularQueue<T> {
    var storage: seq<T>
    var offset: nat

    ghost predicate Valid()
      reads this
    {
      offset <= |storage|
    }

    function Entries(): nat
      requires Valid()
      reads this
    {
      |storage| - offset
    }

    ghost function Items(): seq<T>
      requires Valid()
      reads this
    {
      storage[offset..]
    }

    constructor ()
      ensures Valid() && storage == [] && offset == 0
    {
      storage, offset := [], 0;
    }

    method Clear()
      modifies this
      ensures Valid() && storage == [] && offset == 0
    {
      offset := 0;
      storage := [];
    }

    /** Dead elements can still be read, as long as they have not been erased. */
    method ElementAt(idx: int) returns (t: T)
      requires Valid() && 0 <= idx + offset < |storage|
      ensures t == storage[idx + offset]
      ensures 0 <= idx ==> t == Items()[idx]
    {
      t := storage[idx + offset];
    }

    /** Drops the first item.  On an empty queue the offset runs past the end: the queue is no longer
        one.  Past the limit there would be nothing to erase up to, which the original leaves undefined. */
    method RemoveFirst()
      requires Valid() && (0 < Entries() || offset < OFFSET_MAX_RESIZE)
      modifies this
      ensures Valid() <==> 0 < old(Entries())
      ensures Valid() ==> Items() == old(Items())[1..]
      ensures exists k :: 0 <= k <= |old(storage)| && storage == old(storage)[k..]
      ensures offset == if old(offset) >= OFFSET_MAX_RESIZE then 0 else old(offset) + 1
    {
      if offset >= OFFSET_MAX_RESIZE {
        storage := storage[offset + 1..];
        offset := 0;
        assert storage == old(storage)[old(offset) + 1..];
      } else {
        offset := offset + 1;
        assert storage == old(storage)[0..];
      }
    }

    /** Drops `nb` items, or all of them.  Past the limit the dead ones go too. */
    method RemoveItems(nb: nat)
      requires Valid()
      modifies this
      ensures Valid() && Items() == old(Items())[Min(nb, old(Entries()))..]
      ensures exists k :: 0 <= k <= |old(storage)| && storage == old(storage)[k..]
      ensures offset == AfterRemoval(old(offset), Min(nb, old(Entries())))
    {
      var n := nb;
      if n > Entries() {
        n := Entries();
      }
      if offset >= OFFSET_MAX_RESIZE {
        storage := storage[offset + n..];
        offset := 0;
        assert storage == old(storage)[old(offset) + n..];
      } else {
        offset := offset + n;
        assert storage == old(storage)[0..];
      }
    }

    method Append(t: T)
      requires Valid()
      modifies this
      ensures Valid() && storage == old(storage) + [t] && offset == old(offset)
      ensures Items() == old(Items()) + [t]
    {
      storage := storage + [t];
    }
  }

  function AfterRemoval(offset: nat, n: nat): nat {
    if offset >= OFFSET_MAX_RESIZE then 0 else offset + n
  }

  class Buffer<T> {
    /** Item `n` of the source, and how many have been fetched from it. */
    const input: nat -> T
    var taken: nat
    var nMarkers: nat
    var markerOffset: nat
    var numToConsume: nat
    const queue: CircularQueue<T>

    ghost predicate Valid()
      reads this, queue
    {
      queue.Valid() && EndsAt(queue.storage, input, taken)
    }

    /** The stream position of the first queued item. */
    ghost function Base(): (b: nat)
      requires Valid()
      reads this, queue
    {
      taken - queue.Entries()
    }

    /** How far the marks hold the cursor away from the front, once deferred consumes are applied. */
    ghost function Held(): nat
      reads this
    {
      markerOffset + if nMarkers > 0 then numToConsume else 0
    }

    /** The stream position of the cursor, deferred consumes included. */
    ghost function Pos(): nat
      requires Valid()
      reads this, queue
    {
      Base() + Held() + if nMarkers > 0 then 0 else Min(numToConsume, queue.Entries())
    }

    /** How many items behind the cursor can still be read once deferred consumes are applied. */
    ghost function Behind(): nat
      requires Valid()
      reads this, queue
    {
      if nMarkers > 0 || numToConsume == 0 then queue.offset + Held()
      else AfterRemoval(queue.offset, Min(numToConsume, queue.Entries())) + Held()
    }

    constructor (source: nat -> T)
      ensures Valid() && fresh(queue) && input == source
      ensures taken == 0 && Pos() == 0 && nMarkers == 0 && Held() == 0 && Behind() == 0
      ensures markerOffset == numToConsume == queue.offset == 0
    {
      input := source;
      taken, nMarkers, markerOffset, numToConsume := 0, 0, 0, 0;
      queue := new CircularQueue();
    }

    /** Applies the deferred consumes.  The cursor stays where it is; the front stays as well while
        a mark is open. */
    method SyncConsume()
      requires Valid()
      modifies this, queue
      ensures Valid() && numToConsume == 0
      ensures nMarkers == old(nMarkers) && taken == old(taken)
      ensures Pos() == old(Pos()) && markerOffset == old(Held())
      ensures nMarkers > 0 ==> Base() == old(Base())
      ensures queue.offset + markerOffset == old(Behind())
    {
      if numToConsume > 0 {
        if nMarkers > 0 {
          markerOffset := markerOffset + numToConsume;
        } else {
          ghost var was := queue.storage;
          queue.RemoveItems(numToConsume);
          ghost var k :| 0 <= k <= |was| && queue.storage == was[k..];
          EndsAtSuffix(was, input, taken, k);
          assert queue.Entries() == |queue.Items()|;
        }
        numToConsume := 0;
      }
    }

    /** Fetches until enough is queued.  Nothing is fetched that was not asked for. */
    method Fetch(target: nat)
      requires Valid()
      modifies this`taken, queue
      ensures Valid() && Base() == old(Base()) && queue.offset == old(queue.offset)
      ensures taken == Max(old(taken), Base() + target)
    {
      ghost var from, base, offset := taken, Base(), queue.offset;
      while queue.Entries() < target
        invariant Valid() && Base() == base && queue.offset == offset
        invariant from <= taken <= Max(from, base + target)
      {
        EndsAtNext(queue.storage, input, taken);
        queue.Append(input(taken));
        taken := taken + 1;
      }
    }

    method Fill(amount: nat)
      requires Valid()
      modifies this, queue
      ensures Valid() && numToConsume == 0
      ensures nMarkers == old(nMarkers) && markerOffset == old(Held())
      ensures Pos() == old(Pos()) && Pos() == Base() + markerOffset
      ensures nMarkers > 0 ==> Base() == old(Base())
      ensures queue.offset + markerOffset == old(Behind())
      ensures taken == Max(old(taken), Base() + (amount + markerOffset) % UNSIGNED_RANGE)
    {
      SyncConsume();
      Fetch((amount + markerOffset) % UNSIGNED_RANGE);
    }

    /** The item `i` places behind the marked offset, counted in machine integers. */
    method Element(i: nat) returns (t: Option<T>)
      requires Valid() && (markerOffset + i <= INT_LIMIT ==> markerOffset + i <= queue.Entries())
      ensures markerOffset + i <= INT_LIMIT ==> (t.Some? <==> 1 <= queue.offset + markerOffset + i)
      ensures markerOffset + i <= INT_LIMIT && t.Some? ==>
                1 <= Base() + markerOffset + i && t.value == input(Base() + markerOffset + i - 1)
    {
      var idx := QueueIndex(markerOffset, i);
      if markerOffset + i <= INT_LIMIT {
        QueueIndexIsExact(markerOffset, i);
      }
      t := None;
      if 0 <= idx + queue.offset < |queue.storage| {
        var item := queue.ElementAt(idx);
        t := Some(item);
      }
    }

    /** Looks `i` items ahead; 0 is the item before the cursor.  Out of bounds, where the original
        reads outside its vector, there is no answer: for `i >= 1` never, for 0 exactly when nothing
        is left behind the cursor. */
    method LT(i: nat) returns (t: Option<T>)
      requires Valid()
      modifies this, queue
      ensures Valid() && numToConsume == 0
      ensures nMarkers == old(nMarkers) && markerOffset == old(Held())
      ensures Pos() == old(Pos()) && queue.offset + markerOffset == old(Behind())
      ensures nMarkers > 0 ==> Base() == old(Base())
      ensures old(Held()) + i <= INT_LIMIT ==> taken == Max(old(taken), Pos() + i)
      ensures old(Held()) + i <= INT_LIMIT ==> (t.Some? <==> 1 <= old(Behind()) + i)
      ensures old(Held()) + i <= INT_LIMIT && t.Some? ==> 1 <= Pos() + i && t.value == input(Pos() + i - 1)
    {
      Fill(i);
      t := Element(i);
    }

    method Mark() returns (marker: nat)
      requires Valid()
      modifies this, queue
      ensures Valid() && nMarkers == old(nMarkers) + 1 && taken == old(taken)
      ensures marker == old(Held()) == Held() == markerOffset && numToConsume == 0
      ensures queue.offset + markerOffset == old(Behind())
      ensures Pos() == old(Pos()) == Base() + marker
      ensures old(nMarkers) > 0 ==> Base() == old(Base())
    {
      SyncConsume();
      nMarkers := nMarkers + 1;
      marker := markerOffset;
    }

    /** Goes back to a marker.  The front does not move. */
    method Rewind(marker: nat)
      requires Valid() && nMarkers > 0
      modifies this, queue
      ensures Valid() && nMarkers == old(nMarkers) - 1 && taken == old(taken)
      ensures Base() == old(Base()) && Pos() == Base() + marker && Held() == marker
      ensures queue.offset == old(queue.offset) && markerOffset == marker && numToConsume == 0
    {
      SyncConsume();
      markerOffset := marker;
      nMarkers := nMarkers - 1;
    }

    /** Forgets the innermost mark.  Closing the last one loses the deferred consumes that go beyond
        what is queued. */
    method Commit()
      requires Valid() && nMarkers > 0
      modifies this
      ensures Valid() && nMarkers == old(nMarkers) - 1 && taken == old(taken)
      ensures Base() == old(Base()) && Held() <= old(Held())
      ensures nMarkers > 0 ==> Held() == old(Held())
      ensures Pos() == old(Pos()) <==> nMarkers > 0 || old(numToConsume <= queue.Entries())
      ensures markerOffset == old(markerOffset) && numToConsume == old(numToConsume)
    {
      nMarkers := nMarkers - 1;
    }

    /** Advances the cursor, except that outside marks a consume is lost once the deferred ones use
        up the queue. */
    method Consume()
      requires Valid()
      modifies this
      ensures Valid() && nMarkers == old(nMarkers) && taken == old(taken)
      ensures Base() == old(Base()) && Held() == old(Held()) + if nMarkers > 0 then 1 else 0
      ensures Pos() == old(Pos()) + if nMarkers > 0 || old(numToConsume < queue.Entries()) then 1 else 0
      ensures markerOffset == old(markerOffset) && numToConsume == old(numToConsume) + 1
    {
      numToConsume := numToConsume + 1;
    }

    /** Empties the buffer: the cursor moves past everything fetched so far. */
    method Reset()
      requires Valid()
      modifies this, queue
      ensures Valid() && nMarkers == 0 && taken == old(taken)
      ensures Pos() == taken && Held() == 0 && Behind() == 0
      ensures markerOffset == numToConsume == queue.offset == 0
    {
      nMarkers := 0;
      markerOffset := 0;
      numToConsume := 0;
      queue.Clear();
    }

    /** The items fetched but not consumed; deferred consumes are not looked at. */
    method GetLAChars() returns (s: seq<T>)
      requires Valid()
      ensures |s| == if markerOffset <= queue.Entries() then taken - (Base() + markerOffset) else 0
      ensures forall k :: 0 <= k < |s| ==> s[k] == input(Base() + markerOffset + k)
    {
      s := [];
      var i := markerOffset;
      while i < queue.Entries()
        invariant markerOffset <= i
        invariant i <= queue.Entries() || i == markerOffset
        invariant |s| == i - markerOffset
        invariant forall k :: 0 <= k < |s| ==> s[k] == input(Base() + markerOffset + k)
      {
        var item := queue.ElementAt(i);
        s := s + [item];
        i := i + 1;
      }
    }

    /** The items between the front and the marked offset, which the caller has fetched. */
    method GetMarkedChars() returns (s: seq<T>)
      requires Valid() && markerOffset <= queue.Entries()
      ensures |s| == markerOffset
      ensures forall k :: 0 <= k < |s| ==> s[k] == input(Base() + k)
    {
      s := [];
      var i := 0;
      while i < markerOffset
        invariant i <= markerOffset && |s| == i
        invariant forall k :: 0 <= k < |s| ==> s[k] == input(Base() + k)
      {
        var item := queue.ElementAt(i);
        s := s + [item];
        i := i + 1;
      }
    }
  }

  // The plain cursor.

  datatype Op = Look(i: nat) | Consume | Mark | Rewind(k: nat) | Commit | Reset

  /** What a mark remembers. */
  datatype Saved = Saved(pos: nat, held: nat)

  /** What decides whether the item before the cursor can still be read: how many consumed items are kept
      in front of the queue, how many more because of marks, the deferred consumes, and the markers. */
  datatype Shelf = Shelf(dead: nat, offset: nat, late: nat, markers: seq<nat>)

  const EMPTY_SHELF := Shelf(0, 0, 0, [])

  /** Deferred consumes are applied: past the limit everything in front of the queue is erased. */
  function Settled(s: Shelf): Shelf {
    if s.late == 0 then s
    else if s.markers != [] then s.(offset := s.offset + s.late, late := 0)
    else s.(dead := AfterRemoval(s.dead, s.late), late := 0)
  }

  /** How many items before the cursor can be read. */
  function LeftBehind(s: Shelf): nat {
    Settled(s).dead + Settled(s).offset
  }

  /** A position on an endless stream, the open marks, how much of the stream has been looked at, a bound
      on how much of it marks keep in the buffer, and what is left behind the cursor. */
  datatype Cursor = Cursor(pos: nat, marks: seq<Saved>, seen: nat, held: nat, shelf: Shelf)

  function Without<T>(s: seq<T>, k: nat): (r: seq<T>)
    requires k < |s|
    ensures |r| == |s| - 1
    ensures forall j :: 0 <= j < |r| ==> r[j] == s[if j < k then j else j + 1]
  {
    s[..k] + s[k + 1..]
  }

  /** What a caller may do.  Outside marks only what has been looked at may be consumed; a marker to go
      back to must be open. */
  predicate Legal(c: Cursor, op: Op) {
    && |c.shelf.markers| == |c.marks|
    && match op
       case Look(i) => c.held + i <= INT_LIMIT
       case Consume => c.marks != [] || c.pos < c.seen
       case Rewind(k) => k < |c.marks|
       case Commit => c.marks != [] && (|c.marks| > 1 || c.pos <= c.seen)
       case _ => true
  }

  function StepShelf(s: Shelf, op: Op): (r: Shelf)
    requires op.Rewind? ==> op.k < |s.markers|
    requires op.Commit? ==> s.markers != []
  {
    match op
    case Look(i) => Settled(s)
    case Consume => s.(late := s.late + 1)
    case Mark => Settled(s).(markers := s.markers + [Settled(s).offset])
    case Rewind(k) => Settled(s).(offset := s.markers[k], markers := Without(s.markers, k))
    case Commit => s.(markers := s.markers[..|s.markers| - 1])
    case Reset => EMPTY_SHELF
  }

  function Step(c: Cursor, op: Op): Cursor
    requires Legal(c, op)
  {
    var s := StepShelf(c.shelf, op);
    match op
    case Look(i) => c.(seen := Max(c.seen, c.pos + i), shelf := s)
    case Consume => c.(pos := c.pos + 1, held := c.held + if c.marks == [] then 0 else 1, shelf := s)
    case Mark => c.(marks := c.marks + [Saved(c.pos, c.held)], shelf := s)
    case Rewind(k) => c.(pos := c.marks[k].pos, held := c.marks[k].held, marks := Without(c.marks, k), shelf := s)
    case Commit => c.(marks := c.marks[..|c.marks| - 1], shelf := s)
    case Reset => Cursor(c.seen, [], c.seen, 0, s)
  }

  predicate Orderly(c: Cursor, ops: seq<Op>)
    decreases |ops|
  {
    ops == [] || (Legal(c, ops[0]) && Orderly(Step(c, ops[0]), ops[1..]))
  }

  function Run(c: Cursor, ops: seq<Op>): Cursor
    requires Orderly(c, ops)
    decreases |ops|
  {
    if ops == [] then c else Run(Step(c, ops[0]), ops[1..])
  }

  /** What a look must see: the item before the cursor only if there is one and it is still there. */
  function Seen<T>(input: nat -> T, c: Cursor, i: nat): Option<T> {
    if i == 0 && (c.pos == 0 || LeftBehind(c.shelf) == 0) then None else Some(input(c.pos + i - 1))
  }

  /** What the looks of a script must see. */
  function Answers<T>(input: nat -> T, c: Cursor, ops: seq<Op>): seq<Option<T>>
    requires Orderly(c, ops)
    decreases |ops|
  {
    if ops == [] then []
    else if ops[0].Look? then [Seen(input, c, ops[0].i)] + Answers(input, Step(c, ops[0]), ops[1..])
    else Answers(input, Step(c, ops[0]), ops[1..])
  }

  /** The buffer's own counters are those of the shelf, and outside marks what is deferred is queued. */
  ghost predicate OnShelf<T>(b: Buffer<T>, s: Shelf, markers: seq<nat>)
    requires b.Valid()
    reads b, b.queue
  {
    && s == Shelf(b.queue.offset, b.markerOffset, b.numToConsume, markers)
    && (b.nMarkers == 0 ==> b.numToConsume <= b.queue.Entries())
  }

  /** The markers a client holds stand for the cursor's open marks. */
  ghost predicate Stand(base: nat, markers: seq<nat>, marks: seq<Saved>) {
    && |markers| == |marks|
    && (forall j :: 0 <= j < |markers| ==> base + markers[j] == marks[j].pos && markers[j] <= marks[j].held)
  }

  lemma StandOpen(base: nat, markers: seq<nat>, marks: seq<Saved>, m: nat, saved: Saved)
    requires Stand(base, markers, marks) && base + m == saved.pos && m <= saved.held
    ensures Stand(base, markers + [m], marks + [saved])
  {
  }

  lemma StandClose(base: nat, markers: seq<nat>, marks: seq<Saved>, k: nat)
    requires Stand(base, markers, marks) && k < |marks|
    ensures Stand(base, Without(markers, k), Without(marks, k))
    ensures Stand(base, markers[..|markers| - 1], marks[..|marks| - 1])
  {
  }

  ghost predicate Agree<T>(b: Buffer<T>, c: Cursor, markers: seq<nat>)
    requires b.Valid()
    reads b, b.queue
  {
    && |c.marks| == b.nMarkers && OnShelf(b, c.shelf, markers)
    && b.Pos() == c.pos && b.taken == c.seen && b.Held() <= c.held
    && Stand(b.Base(), markers, c.marks)
  }

  /** A call that opens or closes a mark. */
  method PerformMark<T>(b: Buffer<T>, op: Op, markers: seq<nat>, ghost c: Cursor) returns (markers': seq<nat>)
    requires b.Valid() && Agree(b, c, markers) && Legal(c, op) && (op.Mark? || op.Rewind? || op.Commit?)
    modifies b, b.queue
    ensures b.Valid() && Agree(b, Step(c, op), markers')
  {
    ghost var base := b.Base();
    match op
    case Mark =>
      var m := b.Mark();
      markers' := markers + [m];
      if markers == [] {
        assert Stand(b.Base(), [], []);
      }
      StandOpen(b.Base(), markers, c.marks, m, Saved(c.pos, c.held));
    case Rewind(k) =>
      b.Rewind(markers[k]);
      markers' := Without(markers, k);
      StandClose(base, markers, c.marks, k);
    case Commit =>
      b.Commit();
      markers' := markers[..|markers| - 1];
      StandClose(base, markers, c.marks, 0);
  }

  /** One call on the buffer.  A client keeps the markers it was given. */
  method Perform<T>(b: Buffer<T>, op: Op, markers: seq<nat>, ghost c: Cursor)
    returns (answer: Option<T>, markers': seq<nat>)
    requires b.Valid() && Agree(b, c, markers) && Legal(c, op)
    modifies b, b.queue
    ensures b.Valid() && Agree(b, Step(c, op), markers')
    ensures answer == if op.Look? then Seen(b.input, c, op.i) else None
  {
    answer, markers' := None, markers;
    match op
    case Look(i) =>
      answer := b.LT(i);
    case Consume =>
      b.Consume();
    case Reset =>
      b.Reset();
      markers' := [];
    case _ =>
      markers' := PerformMark(b, op, markers, c);
  }

  /** Lazy fetching, deferred consumption, compaction and marker arithmetic never show, except in whether
      the item before the cursor is still there: any orderly script of calls gets the answers of the
      plain cursor. */
  method Play<T>(b: Buffer<T>, ops: seq<Op>, markers: seq<nat>, ghost c: Cursor) returns (answers: seq<Option<T>>)
    requires b.Valid() && Agree(b, c, markers) && Orderly(c, ops)
    modifies b, b.queue
    ensures answers == Answers(b.input, c, ops)
    ensures b.Valid() && b.Pos() == Run(c, ops).pos && b.taken == Run(c, ops).seen
  {
    answers := [];
    var rest, held := ops, markers;
    ghost var at := c;
    while rest != []
      invariant b.Valid() && Orderly(at, rest) && Agree(b, at, held)
      invariant Answers(b.input, c, ops) == answers + Answers(b.input, at, rest)
      invariant Run(c, ops) == Run(at, rest)
      decreases |rest|
    {
      var answer, now := Perform(b, rest[0], held, at);
      if rest[0].Look? {
        PushOne(answers, answer, Answers(b.input, Step(at, rest[0]), rest[1..]));
        answers := answers + [answer];
      }
      at := Step(at, rest[0]);
      rest, held := rest[1..], now;
    }
  }

  // Losing the item before the cursor.

  /** Look at an item and consume it, `n` times. */
  function Rounds(n: nat): seq<Op> {
    if n == 0 then [] else Rounds(n - 1) + [Look(1), Consume]
  }

  const START := Cursor(0, [], 0, 0, EMPTY_SHELF)

  /** The cursor after `n` rounds: the last consume is deferred, and the queue has been compacted each time
      the limit had been reached. */
  function AfterRounds(n: nat): Cursor {
    if n == 0 then START else Cursor(n, [], n, 0, Shelf((n - 1) % (OFFSET_MAX_RESIZE + 1), 0, 1, []))
  }

  lemma NextRound<T>(input: nat -> T, n: nat)
    ensures Orderly(AfterRounds(n), [Look(1), Consume])
    ensures Run(AfterRounds(n), [Look(1), Consume]) == AfterRounds(n + 1)
    ensures Answers(input, AfterRounds(n), [Look(1), Consume]) == [Some(input(n))]
  {
    var c := AfterRounds(n);
    var looked := Step(c, Look(1));
    assert [Look(1), Consume][1..] == [Consume] && [Consume][1..] == [];
    if n > 0 {
      NextDead(n);
    }
    assert Step(looked, Consume) == AfterRounds(n + 1);
  }

  lemma NextDead(n: nat)
    requires n > 0
    ensures n % (OFFSET_MAX_RESIZE + 1) == AfterRemoval((n - 1) % (OFFSET_MAX_RESIZE + 1), 1)
  {
  }

  function Firsts<T>(input: nat -> T, n: nat): (r: seq<Option<T>>)
    ensures |r| == n && forall i :: 0 <= i < n ==> r[i] == Some(input(i))
  {
    if n == 0 then [] else Firsts(input, n - 1) + [Some(input(n - 1))]
  }

  lemma {:induction false} RoundsRun<T>(input: nat -> T, n: nat)
    ensures Orderly(START, Rounds(n)) && Run(START, Rounds(n)) == AfterRounds(n)
    ensures Answers(input, START, Rounds(n)) == Firsts(input, n)
  {
    if n > 0 {
      RoundsRun(input, n - 1);
      NextRound(input, n - 1);
      RunAppend(input, START, Rounds(n - 1), [Look(1), Consume]);
    }
  }

  lemma LookOnce<T>(input: nat -> T, c: Cursor, i: nat)
    requires Legal(c, Look(i))
    ensures Orderly(c, [Look(i)]) && Answers(input, c, [Look(i)]) == [Seen(input, c, i)]
  {
    assert [Look(i)][1..] == [];
  }

  /** Each time one more than the limit has gone by, the item just consumed is gone. */
  predicate IsLost(n: nat) {
    n % (OFFSET_MAX_RESIZE + 1) == 0
  }

  lemma SeenAfterRounds<T>(input: nat -> T, n: nat)
    ensures Seen(input, AfterRounds(n), 0) == if IsLost(n) then None else Some(input(n - 1))
  {
    if n > 0 {
      NextDead(n);
    }
  }

  /** What a client sees that consumes item by item and then asks for the one it has just consumed. */
  lemma LookBack<T>(input: nat -> T, n: nat)
    ensures Orderly(START, Rounds(n) + [Look(0)])
    ensures Answers(input, START, Rounds(n) + [Look(0)]) ==
            Firsts(input, n) + [if IsLost(n) then None else Some(input(n - 1))]
  {
    RoundsRun(input, n);
    LookOnce(input, AfterRounds(n), 0);
    RunAppend(input, START, Rounds(n), [Look(0)]);
    SeenAfterRounds(input, n);
  }

  /** It loses the item exactly after so many. */
  method LookBackAfter<T>(source: nat -> T, n: nat) returns (answers: seq<Option<T>>)
    ensures |answers| == n + 1 && forall i :: 0 <= i < n ==> answers[i] == Some(source(i))
    ensures answers[n] == if IsLost(n) then None else Some(source(n - 1))
  {
    var b := new Buffer(source);
    LookBack(source, n);
    answers := Play(b, Rounds(n) + [Look(0)], [], START);
  }

  // Guessing: a mark, any calls that leave the older marks alone, and a rewind.

  /** The script keeps the first `n` marks open throughout. */
  predicate Keeps(c: Cursor, ops: seq<Op>, n: nat)
    requires Orderly(c, ops)
    decreases |ops|
  {
    n <= |c.marks| && (ops == [] || Keeps(Step(c, ops[0]), ops[1..], n)) &&
    (ops != [] && ops[0].Rewind? ==> n <= ops[0].k)
  }

  /** A mark that is not closed remembers its position, whatever happens in between. */
  lemma {:induction false} OpenMarksStay(c: Cursor, ops: seq<Op>, n: nat)
    requires Orderly(c, ops) && Keeps(c, ops, n)
    ensures n <= |Run(c, ops).marks| && Run(c, ops).marks[..n] == c.marks[..n]
    decreases |ops|
  {
    if ops != [] {
      OpenMarksStay(Step(c, ops[0]), ops[1..], n);
      assert Step(c, ops[0]).marks[..n] == c.marks[..n];
    }
  }

  lemma {:induction false} RunAppend<T>(input: nat -> T, c: Cursor, a: seq<Op>, b: seq<Op>)
    requires Orderly(c, a)
    ensures Orderly(c, a + b) <==> Orderly(Run(c, a), b)
    ensures Orderly(c, a + b) ==> Run(c, a + b) == Run(Run(c, a), b)
    ensures Orderly(c, a + b) ==> Answers(input, c, a + b) == Answers(input, c, a) + Answers(input, Run(c, a), b)
    decreases |a|
  {
    if a == [] {
      assert a + b == b;
    } else {
      assert (a + b)[0] == a[0] && (a + b)[1..] == a[1..] + b;
      RunAppend(input, Step(c, a[0]), a[1..], b);
    }
  }

  /** A failed guess: a mark, calls that end with that mark innermost, and a rewind to it. */
  predicate IsGuess(c: Cursor, guess: seq<Op>) {
    Legal(c, Mark) &&
    var marked := Step(c, Mark);
    Orderly(marked, guess) && Keeps(marked, guess, |c.marks| + 1) && |Run(marked, guess).marks| == |c.marks| + 1
  }

  function Script(c: Cursor, guess: seq<Op>): seq<Op> {
    [Mark] + guess + [Rewind(|c.marks|)]
  }

  /** While a mark stays open nothing in front of the queue is erased, and its marker is kept. */
  lemma {:induction false} ShelfStays(c: Cursor, ops: seq<Op>, n: nat)
    requires Orderly(c, ops) && Keeps(c, ops, n) && n > 0 && |c.shelf.markers| == |c.marks|
    ensures var s := Run(c, ops).shelf;
            && |s.markers| == |Run(c, ops).marks| && n <= |s.markers|
            && s.markers[..n] == c.shelf.markers[..n] && s.dead == c.shelf.dead
    decreases |ops|
  {
    if ops != [] {
      ShelfStays(Step(c, ops[0]), ops[1..], n);
      assert Step(c, ops[0]).shelf.markers[..n] == c.shelf.markers[..n];
    }
  }

  lemma {:induction false} SeenGrows(c: Cursor, ops: seq<Op>)
    requires Orderly(c, ops)
    ensures c.seen <= Run(c, ops).seen
    decreases |ops|
  {
    if ops != [] {
      SeenGrows(Step(c, ops[0]), ops[1..]);
    }
  }

  lemma BackToMark(c: Cursor, end: Cursor)
    requires Legal(c, Mark) && |end.marks| == |end.shelf.markers| == |c.marks| + 1
    requires end.marks == Step(c, Mark).marks && end.shelf.markers == Step(c, Mark).shelf.markers
    requires end.shelf.dead == Step(c, Mark).shelf.dead
    ensures Legal(end, Rewind(|c.marks|))
    ensures Step(end, Rewind(|c.marks|)) == c.(seen := end.seen, shelf := Settled(c.shelf))
  {
    assert Without(end.marks, |c.marks|) == c.marks;
    assert Without(end.shelf.markers, |c.marks|) == c.shelf.markers;
  }

  /** The guess ends where the rewind leads back. */
  lemma GuessEnds(c: Cursor, guess: seq<Op>) returns (end: Cursor)
    requires IsGuess(c, guess)
    ensures end == Run(Step(c, Mark), guess) && c.seen <= end.seen && Legal(end, Rewind(|c.marks|))
    ensures Step(end, Rewind(|c.marks|)) == c.(seen := end.seen, shelf := Settled(c.shelf))
  {
    var n := |c.marks|;
    var marked := Step(c, Mark);
    end := Run(marked, guess);
    OpenMarksStay(marked, guess, n + 1);
    ShelfStays(marked, guess, n + 1);
    SeenGrows(marked, guess);
    assert end.marks == end.marks[..n + 1] == marked.marks[..n + 1] == marked.marks;
    assert end.shelf.markers == end.shelf.markers[..n + 1] == marked.shelf.markers[..n + 1] == marked.shelf.markers;
    BackToMark(c, end);
  }

  lemma RunFirst(c: Cursor, op: Op, ops: seq<Op>)
    requires Legal(c, op) && Orderly(Step(c, op), ops)
    ensures Orderly(c, [op] + ops) && Run(c, [op] + ops) == Run(Step(c, op), ops)
  {
    assert ([op] + ops)[1..] == ops;
  }

  lemma ThenOne(c: Cursor, ops: seq<Op>, op: Op)
    requires Orderly(c, ops) && Legal(Run(c, ops), op)
    ensures Orderly(c, ops + [op]) && Run(c, ops + [op]) == Step(Run(c, ops), op)
  {
    assert [op][1..] == [];
    RunAppend((n: nat) => 0, c, ops, [op]);
  }

  /** It leaves the position and the open marks as they were, and as much behind the cursor: only more has
      been seen, and what was deferred has been applied. */
  lemma GuessLeavesNoTrace(c: Cursor, guess: seq<Op>)
    requires IsGuess(c, guess)
    ensures Orderly(c, Script(c, guess))
    ensures var end := Run(c, Script(c, guess));
            && end == c.(seen := end.seen, shelf := Settled(c.shelf)) && c.seen <= end.seen
            && LeftBehind(end.shelf) == LeftBehind(c.shelf)
  {
    var back := Rewind(|c.marks|);
    var end := GuessEnds(c, guess);
    ThenOne(Step(c, Mark), guess, back);
    RunFirst(c, Mark, guess + [back]);
    assert Script(c, guess) == [Mark] + (guess + [back]);
  }

  /** What was seen before does not matter to later answers, unless a reset skips it; and what is kept
      behind the cursor matters only to looks at the item before it. */
  lemma {:induction false} AnswersAlike<T>(input: nat -> T, c: Cursor, d: Cursor, ops: seq<Op>)
    requires Orderly(c, ops) && Reset !in ops && c.seen <= d.seen && d == c.(seen := d.seen, shelf := d.shelf)
    requires |d.shelf.markers| == |c.marks| && (Look(0) !in ops || d.shelf == c.shelf)
    ensures Orderly(d, ops) && Answers(input, d, ops) == Answers(input, c, ops)
    decreases |ops|
  {
    if ops != [] {
      assert ops[0] in ops;
      AnswersAlike(input, Step(c, ops[0]), Step(d, ops[0]), ops[1..]);
    }
  }

  /** Guessing is invisible: whatever a parser looked at and consumed under a mark it went back to, it goes
      on reading as if it had not.  That is so of the item before the cursor, too, if nothing was deferred
      when the guess began. */
  lemma GuessingIsInvisible<T>(input: nat -> T, c: Cursor, guess: seq<Op>, rest: seq<Op>)
    requires IsGuess(c, guess) && Orderly(c, rest) && Reset !in rest
    requires Look(0) !in rest || c.shelf.late == 0
    ensures Orderly(c, Script(c, guess)) && Orderly(c, Script(c, guess) + rest)
    ensures Answers(input, c, Script(c, guess) + rest) ==
            Answers(input, c, Script(c, guess)) + Answers(input, c, rest)
  {
    GuessLeavesNoTrace(c, guess);
    AnswersAlike(input, c, Run(c, Script(c, guess)), rest);
    RunAppend(input, c, Script(c, guess), rest);
  }
}
