/** The ring buffer between two descriptors, against the sequence of bytes it holds. */
module ByteStreamQueues {
  import opened Arithmetic
  import opened Packets

  // ---------- size_t arithmetic ----------

  /** Bytes that can be popped, in unsigned arithmetic modulo 2^64. */
  function AvailableToPop(push: nat, pop: nat, size: nat): nat
  {
    (push - pop + (if pop > push then size else 0)) % TWO64
  }

  /** Bytes that can be pushed; one byte always stays free. */
  function AvailableToPush(push: nat, pop: nat, size: nat): nat
  {
    (pop - push - 1 + (if pop > push then 0 else size)) % TWO64
  }

  /** An index after n more bytes, none of them past the end of the buffer. */
  function Advance(i: nat, n: nat, size: nat): nat
  {
    if i + n == size then 0 else i + n
  }

  /** Bytes from index i on, up to the end of the buffer at most. */
  function Contiguous(i: nat, available: nat, size: nat): nat
    requires i <= size
  {
    if i + available >= size then size - i else available
  }

  // ---------- The bytes held ----------

  predicate Indices(b: string, push: nat, pop: nat)
  {
    1 < |b| < TWO64 && push < |b| && pop < |b|
  }

  function Held(b: string, push: nat, pop: nat): string
    requires Indices(b, push, pop)
  {
    if pop <= push then b[pop..push] else b[pop..] + b[..push]
  }

  /** The wrapped counts are the true ones, and together they are the capacity. */
  lemma AvailableIsExact(b: string, push: nat, pop: nat)
    requires Indices(b, push, pop)
    ensures AvailableToPop(push, pop, |b|) == |Held(b, push, pop)|
    ensures AvailableToPush(push, pop, |b|) == |b| - 1 - |Held(b, push, pop)|
  {
    var n := if pop > push then push - pop + |b| else push - pop;
    DivModUnique(n, TWO64, 0, n);
    DivModUnique(|b| - 1 - n, TWO64, 0, |b| - 1 - n);
  }

  /** The buffer with a chunk copied in at index i. */
  function Overwritten(b: string, i: nat, chunk: string): string
    requires i + |chunk| <= |b|
  {
    b[..i] + chunk + b[i + |chunk|..]
  }

  /** Copying into free space appends to the bytes held and overwrites none of them. */
  lemma PushAppends(b: string, push: nat, pop: nat, chunk: string)
    requires Indices(b, push, pop)
    requires |chunk| <= Contiguous(push, AvailableToPush(push, pop, |b|), |b|)
    ensures var b' := Overwritten(b, push, chunk);
            Indices(b', Advance(push, |chunk|, |b|), pop) &&
            Held(b', Advance(push, |chunk|, |b|), pop) == Held(b, push, pop) + chunk
  {
    AvailableIsExact(b, push, pop);
    if pop <= push {
      PushBehind(b, push, pop, chunk);
    } else {
      PushBefore(b, push, pop, chunk);
    }
  }

  /** The bytes held do not wrap around; the chunk goes behind them. */
  lemma PushBehind(b: string, push: nat, pop: nat, chunk: string)
    requires Indices(b, push, pop) && pop <= push && push + |chunk| <= |b|
    requires |chunk| + push - pop < |b|
    ensures var b', end := Overwritten(b, push, chunk), Advance(push, |chunk|, |b|);
            Indices(b', end, pop) && Held(b', end, pop) == Held(b, push, pop) + chunk
  {
    var b', end := Overwritten(b, push, chunk), push + |chunk|;
    assert b'[pop..end] == b[pop..push] + chunk;
    if end == |b| {
      assert b'[pop..] == b'[pop..end];
    }
  }

  /** The bytes held wrap around; the chunk goes between their two parts. */
  lemma PushBefore(b: string, push: nat, pop: nat, chunk: string)
    requires Indices(b, push, pop) && push + |chunk| < pop
    ensures var b', end := Overwritten(b, push, chunk), Advance(push, |chunk|, |b|);
            Indices(b', end, pop) && Held(b', end, pop) == Held(b, push, pop) + chunk
  {
    var b', end := Overwritten(b, push, chunk), push + |chunk|;
    assert b'[..end] == b[..push] + chunk && b'[pop..] == b[pop..];
    Regroup(b[pop..], b[..push], chunk);
  }

  /** The bytes offered to the descriptor are the first ones held, and taking n of them leaves the rest. */
  lemma PopTakesFirst(b: string, push: nat, pop: nat, n: nat)
    requires Indices(b, push, pop)
    requires n <= Contiguous(pop, AvailableToPop(push, pop, |b|), |b|)
    ensures pop + n <= |b| && Indices(b, push, Advance(pop, n, |b|))
    ensures n <= |Held(b, push, pop)| && b[pop..pop + n] == Held(b, push, pop)[..n]
    ensures Held(b, push, Advance(pop, n, |b|)) == Held(b, push, pop)[n..]
  {
    AvailableIsExact(b, push, pop);
  }

  /** The region asked of the descriptor is all the free space up to the end of the buffer. */
  lemma PushFits(b: string, push: nat, pop: nat)
    requires Indices(b, push, pop)
    ensures var n := Contiguous(push, AvailableToPush(push, pop, |b|), |b|);
            && n == Min(|b| - 1 - |Held(b, push, pop)|, |b| - push)
            && push + n <= |b| && (AvailableToPush(push, pop, |b|) > 0 ==> n > 0)
  {
    AvailableIsExact(b, push, pop);
  }

  /** The region handed to the descriptor is all that is held up to the end of the buffer. */
  lemma PopRegion(b: string, push: nat, pop: nat)
    requires Indices(b, push, pop)
    ensures var n := Contiguous(pop, AvailableToPop(push, pop, |b|), |b|);
            && n == Min(|Held(b, push, pop)|, |b| - pop)
            && pop + n <= |b| && (AvailableToPop(push, pop, |b|) > 0 ==> n > 0)
  {
    AvailableIsExact(b, push, pop);
  }

  // ---------- Runs ----------

  datatype Operation = Push(chunk: string) | Pop(n: nat)

  datatype Ring = Ring(buffer: string, push: nat, pop: nat, pushed: string, popped: string)

  predicate Allowed(r: Ring, op: Operation)
    requires Indices(r.buffer, r.push, r.pop)
  {
    var size := |r.buffer|;
    match op
    case Push(chunk) => |chunk| <= Contiguous(r.push, AvailableToPush(r.push, r.pop, size), size)
    case Pop(n) => n <= Contiguous(r.pop, AvailableToPop(r.push, r.pop, size), size)
  }

  function Apply(r: Ring, op: Operation): Ring
    requires Indices(r.buffer, r.push, r.pop) && Allowed(r, op)
  {
    var size := |r.buffer|;
    match op
    case Push(chunk) =>
      PushAppends(r.buffer, r.push, r.pop, chunk);
      r.(buffer := Overwritten(r.buffer, r.push, chunk), push := Advance(r.push, |chunk|, size), pushed := r.pushed + chunk)
    case Pop(n) =>
      PopTakesFirst(r.buffer, r.push, r.pop, n);
      r.(pop := Advance(r.pop, n, size), popped := r.popped + r.buffer[r.pop..r.pop + n])
  }

  /** Everything pushed is what was popped followed by what is held. */
  predicate RingInv(r: Ring)
  {
    Indices(r.buffer, r.push, r.pop) && r.pushed == r.popped + Held(r.buffer, r.push, r.pop)
  }

  lemma PushKeepsInv(r: Ring, chunk: string)
    requires RingInv(r) && Allowed(r, Push(chunk))
    ensures RingInv(Apply(r, Push(chunk))) && |Apply(r, Push(chunk)).buffer| == |r.buffer|
  {
    PushAppends(r.buffer, r.push, r.pop, chunk);
    hide Held, Advance, Contiguous, AvailableToPush;
    Regroup(r.popped, Held(r.buffer, r.push, r.pop), chunk);
  }

  lemma PopKeepsInv(r: Ring, n: nat)
    requires RingInv(r) && Allowed(r, Pop(n))
    ensures RingInv(Apply(r, Pop(n))) && |Apply(r, Pop(n)).buffer| == |r.buffer|
  {
    PopTakesFirst(r.buffer, r.push, r.pop, n);
    hide Held, Advance, Contiguous, AvailableToPop;
    var held := Held(r.buffer, r.push, r.pop);
    assert held == held[..n] + held[n..];
    Regroup(r.popped, held[..n], held[n..]);
  }

  lemma ApplyKeepsInv(r: Ring, op: Operation)
    requires RingInv(r) && Allowed(r, op)
    ensures RingInv(Apply(r, op)) && |Apply(r, op).buffer| == |r.buffer|
  {
    hide RingInv, Apply, Allowed;
    match op
    case Push(chunk) => PushKeepsInv(r, chunk);
    case Pop(n) => PopKeepsInv(r, n);
  }

  predicate RunAllowed(r: Ring, ops: seq<Operation>)
    requires RingInv(r)
    decreases |ops|
  {
    ops == [] ||
    (Allowed(r, ops[0]) && (ApplyKeepsInv(r, ops[0]); RunAllowed(Apply(r, ops[0]), ops[1..])))
  }

  function RingRun(r: Ring, ops: seq<Operation>): (end: Ring)
    requires RingInv(r) && RunAllowed(r, ops)
    ensures RingInv(end)
    decreases |ops|
  {
    if ops == [] then r
    else
      ApplyKeepsInv(r, ops[0]);
      RingRun(Apply(r, ops[0]), ops[1..])
  }

  function PushedBy(ops: seq<Operation>): string
  {
    if ops == [] then "" else (if ops[0].Push? then ops[0].chunk else "") + PushedBy(ops[1..])
  }

  /** Any interleaving of partial pushes and pops, from an empty ring: what was popped is a prefix of
      what was pushed, and the ring holds the rest. */
  lemma {:induction false} PoppedIsPrefixOfPushed(r: Ring, ops: seq<Operation>)
    requires RingInv(r) && RunAllowed(r, ops)
    ensures var end := RingRun(r, ops);
            && end.popped + Held(end.buffer, end.push, end.pop) == r.pushed + PushedBy(ops)
            && end.pushed == r.pushed + PushedBy(ops)
            && end.popped <= r.pushed + PushedBy(ops)
    decreases |ops|
  {
    if ops != [] {
      ApplyKeepsInv(r, ops[0]);
      var m := Apply(r, ops[0]);
      PoppedIsPrefixOfPushed(m, ops[1..]);
      var chunk := if ops[0].Push? then ops[0].chunk else "";
      assert m.pushed == r.pushed + chunk;
      Regroup(r.pushed, chunk, PushedBy(ops[1..]));
    }
  }

  // ---------- The objects ----------

  /** A descriptor: reads may be short (an empty read is the end of file), writes may be partial. */
  class FileDescriptor {
    var incoming: string
    var outgoing: string
    ghost var request: nat   // bytes last asked for or offered

    constructor (incoming: string)
      ensures this.incoming == incoming && outgoing == ""
    {
      this.incoming, outgoing, request := incoming, "", 0;
    }

    method Read(limit: nat) returns (chunk: string)
      modifies `incoming, `request
      ensures |chunk| <= limit && old(incoming) == chunk + incoming && request == limit
    {
      request := limit;
      var n: nat :| n <= limit && n <= |incoming|;
      chunk := incoming[..n];
      incoming := incoming[n..];
    }

    method Write(data: string) returns (n: nat)
      requires data != ""
      modifies `outgoing, `request
      ensures 0 < n <= |data| && outgoing == old(outgoing) + data[..n] && request == |data|
    {
      request := |data|;
      n :| 0 < n <= |data|;
      outgoing := outgoing + data[..n];
    }
  }

  datatype PushResult = Success | EndOfFile

  class ByteStreamQueue {
    const buffer: array<char>
    var nextByteToPush: nat
    var nextByteToPop: nat
    ghost var pushed: string
    ghost var popped: string

    ghost predicate Valid()
      reads this, buffer
    {
      RingInv(Ring(buffer[..], nextByteToPush, nextByteToPop, pushed, popped))
    }

    ghost function Contents(): string
      requires Valid()
      reads this, buffer
    {
      Held(buffer[..], nextByteToPush, nextByteToPop)
    }

    constructor (size: nat)
      requires 1 < size < TWO64
      ensures Valid() && fresh(buffer) && buffer.Length == size && Contents() == "" && pushed == popped == ""
    {
      buffer := new char[size](_ => '\0');
      nextByteToPush, nextByteToPop, pushed, popped := 0, 0, "", "";
    }

    function SpaceToPush(): nat
      reads this
    {
      AvailableToPush(nextByteToPush, nextByteToPop, buffer.Length)
    }

    function BytesToPop(): nat
      reads this
    {
      AvailableToPop(nextByteToPush, nextByteToPop, buffer.Length)
    }

    /** Copy a chunk in at the push index. */
    method CopyIn(chunk: string)
      requires nextByteToPush + |chunk| <= buffer.Length
      modifies buffer
      ensures buffer[..] == Overwritten(old(buffer[..]), nextByteToPush, chunk)
    {
      forall i | 0 <= i < |chunk| {
        buffer[nextByteToPush + i] := chunk[i];
      }
    }

    /** Copy a chunk in and move the push index past it. */
    method Append(chunk: string)
      requires Valid() && 0 < |chunk| <= Contiguous(nextByteToPush, SpaceToPush(), buffer.Length)
      modifies buffer, `nextByteToPush, `pushed
      ensures Valid() && Contents() == old(Contents()) + chunk && pushed == old(pushed) + chunk
    {
      hide Held, Contiguous, AvailableToPush, Overwritten;
      ghost var b := buffer[..];
      PushFits(b, nextByteToPush, nextByteToPop);
      PushAppends(b, nextByteToPush, nextByteToPop, chunk);
      ApplyKeepsInv(Ring(b, nextByteToPush, nextByteToPop, pushed, popped), Operation.Push(chunk));
      CopyIn(chunk);
      nextByteToPush := nextByteToPush + |chunk|;
      if nextByteToPush == buffer.Length {
        nextByteToPush := 0;
      }
      pushed := pushed + chunk;
    }

    /** `taken` is what the descriptor delivered; nothing at the end of the file. */
    method Push(fd: FileDescriptor) returns (r: PushResult, ghost taken: string)
      requires Valid() && SpaceToPush() > 0
      modifies buffer, `nextByteToPush, `pushed, fd`incoming, fd`request
      ensures Valid() && popped == old(popped)
      ensures old(fd.incoming) == taken + fd.incoming && Contents() == old(Contents()) + taken
      ensures pushed == old(pushed) + taken && (r.EndOfFile? <==> taken == "")
      ensures r.Success? ==> BytesToPop() > 0
      ensures fd.request == Min(buffer.Length - 1 - |old(Contents())|, buffer.Length - old(nextByteToPush))
    {
      hide Held, Contiguous, AvailableToPush, AvailableToPop;
      PushFits(buffer[..], nextByteToPush, nextByteToPop);
      var space := Contiguous(nextByteToPush, SpaceToPush(), buffer.Length);
      assert space > 0;
      var chunk := fd.Read(space);
      taken := chunk;
      if chunk == "" {
        r := EndOfFile;
      } else {
        Append(chunk);
        AvailableIsExact(buffer[..], nextByteToPush, nextByteToPop);
        r := Success;
      }
    }

    /** Move the pop index past the first n bytes. */
    method Discard(n: nat)
      requires Valid() && n <= Contiguous(nextByteToPop, BytesToPop(), buffer.Length)
      modifies `nextByteToPop, `popped
      ensures Valid() && n <= |old(Contents())| && Contents() == old(Contents())[n..]
      ensures popped == old(popped) + old(Contents())[..n]
    {
      hide Held, Contiguous, AvailableToPop;
      ghost var b := buffer[..];
      PopRegion(b, nextByteToPush, nextByteToPop);
      PopTakesFirst(b, nextByteToPush, nextByteToPop, n);
      ApplyKeepsInv(Ring(b, nextByteToPush, nextByteToPop, pushed, popped), Operation.Pop(n));
      popped := popped + b[nextByteToPop..nextByteToPop + n];
      nextByteToPop := nextByteToPop + n;
      if nextByteToPop == buffer.Length {
        nextByteToPop := 0;
      }
    }

    /** `given` is how many bytes the descriptor took. */
    method Pop(fd: FileDescriptor) returns (ghost given: nat)
      requires Valid() && BytesToPop() > 0
      modifies `nextByteToPop, `popped, fd`outgoing, fd`request
      ensures Valid() && pushed == old(pushed)
      ensures 0 < given <= |old(Contents())| && Contents() == old(Contents())[given..]
      ensures fd.outgoing == old(fd.outgoing) + old(Contents())[..given]
      ensures popped == old(popped) + old(Contents())[..given]
      ensures fd.request == Min(|old(Contents())|, buffer.Length - old(nextByteToPop))
    {
      hide Held, Contiguous, AvailableToPop, RingInv;
      ghost var b := buffer[..];
      ValidIndices();
      PopRegion(b, nextByteToPush, nextByteToPop);
      var count := Contiguous(nextByteToPop, BytesToPop(), buffer.Length);
      AvailableIsExact(b, nextByteToPush, nextByteToPop);
      var n := fd.Write(buffer[nextByteToPop..nextByteToPop + count]);
      assert buffer[nextByteToPop..nextByteToPop + count][..n] == b[nextByteToPop..nextByteToPop + n];
      PopTakesFirst(b, nextByteToPush, nextByteToPop, n);
      given := n;
      Discard(n);
    }

    lemma ValidIndices()
      requires Valid()
      ensures Indices(buffer[..], nextByteToPush, nextByteToPop)
    {
    }
  }
}
