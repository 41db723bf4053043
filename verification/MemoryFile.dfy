/** File access through a BFD that lives in memory: the growable buffer behind it, archive elements
    that share their archive's stream, and the order of the calls that reach the buffer. */
module MemoryFile {
  import opened Basics

  // ---------- the stream the buffer stands for ----------

  /** A byte sequence with a position in it. */
  datatype Stream = Stream(data: seq<Byte>, pos: nat)

  predicate StreamOk(s: Stream) {
    s.pos <= |s.data|
  }

  function Min(a: nat, b: nat): nat {
    if a < b then a else b
  }

  function Zeros(n: nat): (r: seq<Byte>)
    ensures |r| == n && forall i :: 0 <= i < n ==> r[i] == 0
  {
    seq(n, _ => 0)
  }

  /** The next n bytes, or as many as there are. */
  function Available(s: Stream, n: nat): seq<Byte>
    requires StreamOk(s)
  {
    s.data[s.pos..Min(s.pos + n, |s.data|)]
  }

  function Reading(s: Stream, n: nat): (r: Stream)
    requires StreamOk(s)
    ensures StreamOk(r)
  {
    s.(pos := s.pos + |Available(s, n)|)
  }

  /** Write bs over what is at the position, and on past the end. */
  function Writing(s: Stream, bs: seq<Byte>): (r: Stream)
    requires StreamOk(s)
    ensures StreamOk(r)
  {
    var end := s.pos + |bs|;
    Stream(s.data[..s.pos] + bs + (if end < |s.data| then s.data[end..] else []), end)
  }

  /** Move to p. Past the end, a writable stream grows by zeros and any other stops at its end;
      before the start, the position becomes 0. */
  function Seeking(s: Stream, writable: bool, p: int): (r: (bool, Stream))
    requires StreamOk(s)
    ensures StreamOk(r.1)
  {
    if p < 0 then (false, s.(pos := 0))
    else if p <= |s.data| then (true, s.(pos := p))
    else if writable then (true, Stream(s.data + Zeros(p - |s.data|), p))
    else (false, s.(pos := |s.data|))
  }

  /** When a seek succeeds, where it ends, and what it leaves in the stream. */
  lemma SeekLeaves(s: Stream, writable: bool, p: int)
    requires StreamOk(s)
    ensures var (ok, r) := Seeking(s, writable, p);
            && (ok <==> p >= 0 && (writable || p <= |s.data|))
            && (ok ==> r.pos == p) && (p < 0 ==> r.pos == 0) && (!ok && p >= 0 ==> r.pos == |s.data|)
            && s.data <= r.data && (forall i :: |s.data| <= i < |r.data| ==> r.data[i] == 0)
            && (|r.data| > |s.data| <==> writable && p > |s.data|) && (|r.data| > |s.data| ==> |r.data| == p)
  {
  }

  /** How far an element may still read: nothing before its start or from its end on. */
  function Limit(s: Stream, offset: nat, bound: Option<nat>, n: nat): Option<nat> {
    match bound
    case None => Some(n)
    case Some(max) =>
      if s.pos < offset || s.pos - offset >= max then None
      else Some(Min(n, max - (s.pos - offset)))
  }

  function ReadStep(s: Stream, offset: nat, bound: Option<nat>, n: nat): (r: (Option<seq<Byte>>, Stream))
    requires StreamOk(s)
    ensures StreamOk(r.1)
  {
    match Limit(s, offset, bound, n)
    case None => (None, s)
    case Some(k) => (Some(Available(s, k)), Reading(s, k))
  }

  // ---------- the calls that reach the buffer ----------

  datatype Call = BRead | BWrite | BSeek

  /** A read and a write never follow one another directly. */
  predicate Separated(trace: seq<Call>) {
    forall i :: 0 <= i < |trace| - 1 ==>
      !(trace[i] == BRead && trace[i + 1] == BWrite) && !(trace[i] == BWrite && trace[i + 1] == BRead)
  }

  datatype LastIo = IoSeek | IoRead | IoWrite | IoForce

  datatype Iovec = NoIovec | MemoryIovec | OtherIovec(id: nat)

  datatype Direction = NoDirection | ReadDirection | WriteDirection | BothDirection

  /** Sizes are rounded up to 128 bytes for the buffer. */
  function Rounded(n: nat): (r: nat)
    ensures n <= r < n + 128 && r % 128 == 0
  {
    (n + 127) / 128 * 128
  }

  /** memset to zero of a part of a buffer. */
  method Fill(a: array<Byte>, from: nat, to: nat)
    requires from <= to <= a.Length
    modifies a
    ensures a[..from] == old(a[..from]) && a[to..] == old(a[to..])
    ensures forall i :: from <= i < to ==> a[i] == 0
  {
    for i := from to to
      invariant a[..from] == old(a[..from]) && a[to..] == old(a[to..])
      invariant forall j :: from <= j < i ==> a[j] == 0
    {
      a[i] := 0;
    }
  }

  /** memcpy into a buffer. */
  method Copy(a: array<Byte>, at: nat, bs: seq<Byte>)
    requires at + |bs| <= a.Length
    modifies a
    ensures a[..] == old(a[..at]) + bs + old(a[at + |bs|..])
  {
    for i := 0 to |bs|
      invariant a[..at] == old(a[..at]) && a[at + |bs|..] == old(a[at + |bs|..])
      invariant a[at..at + i] == bs[..i]
    {
      a[at + i] := bs[i];
    }
  }

  /** A buffer that holds the stream was and has room up to size, after a copy. */
  lemma Overwrites(was: seq<Byte>, now: seq<Byte>, at: nat, bs: seq<Byte>, size: nat)
    requires at <= |was| && size <= |now| && size == (if at + |bs| > |was| then at + |bs| else |was|) && now[..|was|] == was
    ensures var after := now[..at] + bs + now[at + |bs|..];
            && after[..size] == Writing(Stream(was, at), bs).data
            && forall i :: size <= i < |now| ==> after[i] == now[i]
  {
    assert now[..at] == now[..|was|][..at] == was[..at];
    assert at + |bs| < |was| ==> now[at + |bs|..size] == now[..|was|][at + |bs|..];
  }

  class Bfd {
    const myArchive: Bfd?
    const thin: bool
    const iovec: Iovec
    const direction: Direction
    const origin: nat
    const areltSize: Option<nat>

    // How deep this BFD is nested, the BFD whose stream it uses, and where its position 0 is there.
    ghost const depth: nat
    ghost const root: Bfd
    ghost const start: nat

    // The stream, used only where this BFD has no archive to share one with.
    var where: int
    var lastIo: LastIo
    var size: nat
    var buffer: array<Byte>
    ghost var trace: seq<Call>

    /** The element reads and writes through its archive's stream. */
    predicate Shares() {
      myArchive != null && myArchive.iovec == iovec && !myArchive.thin
    }

    /** An element is deeper than its archive, and reaches the same stream at its own origin. */
    ghost predicate ChainOk()
      ensures ChainOk() ==> !root.Shares()
      decreases depth
    {
      && (myArchive != null ==> myArchive.depth < depth && myArchive.ChainOk())
      && root == (if Shares() then myArchive.root else this)
      && start == (if Shares() then origin + myArchive.start else origin)
    }

    predicate Writable() {
      direction == WriteDirection || direction == BothDirection
    }

    /** lastIo tells the last call apart, unless the next access has to seek whatever came before. */
    ghost predicate LastIoOk()
      reads this
    {
      && Separated(trace)
      && (lastIo != IoForce && trace != [] && trace[|trace| - 1] == BRead ==> lastIo == IoRead)
      && (lastIo != IoForce && trace != [] && trace[|trace| - 1] == BWrite ==> lastIo == IoWrite)
    }

    ghost predicate BufferOk()
      reads this, buffer
    {
      && size <= buffer.Length
      && (Writable() ==> buffer.Length == Rounded(size) && forall i :: size <= i < buffer.Length ==> buffer[i] == 0)
    }

    /** A write up to this place stays within the buffer, or enlarges it. The buffer of a BFD that is not
        writable may be anyone's, and of any capacity. */
    ghost predicate CanHold(end: int)
      reads this`size, this`buffer
      ensures Writable() && buffer.Length == Rounded(size) ==> CanHold(end)
    {
      end <= buffer.Length || Rounded(end) > Rounded(size)
    }

    ghost predicate Ready()
      reads this, buffer
    {
      && iovec == MemoryIovec
      && 0 <= where <= size
      && BufferOk()
      && LastIoOk()
    }

    ghost predicate Valid()
      reads this, buffer
    {
      Ready() && lastIo != IoForce
    }

    ghost function Contents(): (s: Stream)
      requires Ready()
      reads this, buffer
      ensures StreamOk(s)
    {
      Stream(buffer[..size], where)
    }

    /** An empty BFD to write to. */
    constructor (direction: Direction)
      ensures Valid() && ChainOk() && root == this && start == 0 && fresh(buffer)
      ensures this.direction == direction && Contents() == Stream([], 0) && trace == []
    {
      myArchive, thin, iovec, this.direction, origin, areltSize := null, false, MemoryIovec, direction, 0, None;
      depth, root, start := 0, this, 0;
      where, lastIo, size, trace := 0, IoSeek, 0, [];
      buffer := new Byte[0];
    }

    /** An element of an archive, at a place in it and with a size. */
    constructor Element(archive: Bfd, thin: bool, iovec: Iovec, origin: nat, size: nat)
      requires archive.ChainOk()
      ensures ChainOk() && myArchive == archive && this.thin == thin && this.iovec == iovec
      ensures this.origin == origin && areltSize == Some(size)
    {
      myArchive, this.thin, this.iovec, direction := archive, thin, iovec, archive.direction;
      this.origin, areltSize, depth := origin, Some(size), archive.depth + 1;
      if archive.iovec == iovec && !archive.thin {
        root, start := archive.root, origin + archive.start;
      } else {
        root, start := this, origin;
      }
      where, lastIo, this.size, trace := 0, IoSeek, 0, [];
      buffer := new Byte[0];
    }

    /** The walk up to the stream that every access starts with. */
    method Outermost() returns (r: Bfd, offset: nat)
      requires ChainOk()
      ensures r == root && offset == start
    {
      r, offset := this, 0;
      while r.Shares()
        invariant r.ChainOk() && r.root == root && offset + r.start == start
        decreases r.depth
      {
        offset := offset + r.origin;
        r := r.myArchive;
      }
      offset := offset + r.origin;
    }

    // ---------- the memory stream ----------

    /** A buffer of another capacity that holds what fits of the old one; the new bytes are anything. */
    method Reallocate(capacity: nat)
      modifies this`buffer
      ensures fresh(buffer) && buffer.Length == capacity
      ensures buffer[..Min(old(buffer.Length), capacity)] == old(buffer[..Min(buffer.Length, capacity)])
    {
      var was := buffer;
      var other := new Byte[capacity];
      for i := 0 to Min(was.Length, capacity)
        invariant other[..i] == was[..i] && buffer == was
      {
        other[i] := was[i];
      }
      buffer := other;
    }

    method MemoryRead(n: nat) returns (bs: seq<Byte>)
      requires Ready()
      ensures bs == Available(Contents(), n)
    {
      var get := n;
      if where + n > size {
        get := if size < where then 0 else size - where;
      }
      bs := buffer[where..where + get];
      assert bs == buffer[..size][where..where + get];
    }

    /** Make room for a write that ends at newSize: only what lies beyond it is cleared, since
        the write covers the rest. */
    method Extend(newSize: nat)
      requires iovec == MemoryIovec && BufferOk() && newSize > size && CanHold(newSize)
      modifies this`size, this`buffer
      ensures BufferOk() && size == newSize
      ensures buffer[..old(size)] == old(buffer[..size])
      ensures buffer == old(buffer) || fresh(buffer)
    {
      ghost var was := buffer[..size];
      var oldCapacity := Rounded(size);
      size := newSize;
      var capacity := Rounded(size);
      if capacity > oldCapacity {
        Reallocate(capacity);
        assert buffer[..|was|] == was by {
          assert forall i :: 0 <= i < |was| ==> buffer[i] == buffer[..oldCapacity][i];
        }
        Fill(buffer, size, capacity);
        assert forall i :: 0 <= i < |was| ==> buffer[i] == buffer[..newSize][i];
      }
    }

    method MemoryWrite(bs: seq<Byte>)
      requires iovec == MemoryIovec && BufferOk() && 0 <= where <= size && CanHold(where + |bs|)
      modifies this`size, this`buffer, buffer
      ensures BufferOk() && buffer[..size] == Writing(Stream(old(buffer[..size]), where), bs).data
      ensures where + |bs| <= size
      ensures buffer == old(buffer) || fresh(buffer)
    {
      hide Rounded, Writing;
      ghost var was := buffer[..size];
      if where + |bs| > size {
        Extend(where + |bs|);
      }
      assert buffer[..|was|] == was;
      ghost var now := buffer[..];
      Copy(buffer, where, bs);
      Overwrites(was, now, where, bs, size);
    }

    /** Check a position, and grow to it if that is allowed. The caller moves there. */
    method MemorySeek(position: int, cur: bool) returns (ok: bool)
      requires iovec == MemoryIovec && BufferOk() && 0 <= where <= size
      modifies this`where, this`size, this`buffer
      ensures BufferOk() && 0 <= where <= size
      ensures var target := if cur then old(where) + position else position;
              var (done, s) := Seeking(Stream(old(buffer[..size]), old(where)), Writable(), target);
              && ok == done && buffer[..size] == s.data
              && (if ok then where == old(where) && target <= size else where == s.pos)
      ensures buffer == old(buffer) || (fresh(buffer) && size > old(size))
    {
      var target := if cur then where + position else position;
      if target < 0 {
        where := 0;
        return false;
      }
      if target > size {
        if Writable() {
          ghost var was := buffer[..size];
          ghost var all := buffer[..];
          var oldCapacity := Rounded(size);
          size := target;
          var capacity := Rounded(size);
          if capacity > oldCapacity {
            Reallocate(capacity);
            Fill(buffer, oldCapacity, capacity);
            assert buffer[..oldCapacity] == all[..oldCapacity];
            assert forall i :: 0 <= i < oldCapacity ==> buffer[i] == all[i];
          }
          assert buffer[..size] == was + Zeros(size - |was|);
        } else {
          where := size;
          return false;
        }
      }
      ok := true;
    }

    // ---------- reading, writing, seeking ----------

    /** Whose reads stop at the end of the element. */
    function Bound(): Option<nat> {
      if Shares() then areltSize else None
    }

    /** The stream of an element is a memory stream, or there is none. */
    ghost predicate StreamValid()
      requires ChainOk()
      reads root, root.buffer
    {
      root.iovec == NoIovec || root.Valid()
    }

    /** Seek in a stream. Nothing is called when the position stays and no read or write asks for
        a seek before it. */
    method SeekStream(position: int, cur: bool) returns (ok: bool)
      requires Ready() && !Shares()
      modifies this
      ensures Valid()
      ensures var target := if cur then old(where) + position else position;
              (ok, Contents()) == Seeking(old(Contents()), Writable(), target)
      ensures trace == old(trace) || trace == old(trace) + [BSeek]
      ensures old(lastIo) == IoForce ==> trace == old(trace) + [BSeek] && lastIo == IoSeek
      ensures buffer == old(buffer) || (fresh(buffer) && size > old(size))
    {
      if (if cur then position == 0 else position == where) && lastIo != IoForce {
        return true;
      }
      lastIo := IoSeek;
      trace := trace + [BSeek];
      ok := MemorySeek(position, cur);
      if ok {
        where := if cur then where + position else position;
      }
    }

    method Seek(position: int, cur: bool) returns (ok: bool)
      requires ChainOk() && StreamValid()
      modifies root
      ensures StreamValid()
      ensures root.iovec == NoIovec ==> !ok
      ensures root.iovec != NoIovec ==>
                var was := old(root.Contents());
                var target := if cur then was.pos + position else position + start;
                (ok, root.Contents()) == Seeking(was, root.Writable(), target)
      ensures root.buffer == old(root.buffer) || fresh(root.buffer)
    {
      var file, offset := Outermost();
      if file.iovec == NoIovec {
        return false;
      }
      ok := file.SeekStream(if cur then position else position + offset, cur);
    }

    method Tell() returns (p: int)
      requires ChainOk() && StreamValid()
      modifies root`where
      ensures StreamValid() && p == if root.iovec == NoIovec then 0 else old(root.where) - start
      ensures root.where == old(root.where)
    {
      var file, offset := Outermost();
      if file.iovec == NoIovec {
        return 0;
      }
      var ptr := file.where;
      file.where := ptr;
      p := ptr - offset;
    }

    /** The seek that parts a read and a write, if the last access was the other one. */
    method SeekBetween(other: LastIo)
      requires Valid() && !Shares()
      modifies this
      ensures Valid() && Contents() == old(Contents()) && buffer == old(buffer) && size == old(size)
      ensures lastIo != other || other == IoSeek
      ensures trace == old(trace) + (if old(lastIo) == other then [BSeek] else [])
    {
      if lastIo == other {
        lastIo := IoForce;
        var ok := SeekStream(0, true);
        assert |Contents().data| == size;
      }
    }

    /** Read from a stream, after a seek if the last access was a write. */
    method ReadStream(n: nat) returns (bs: seq<Byte>)
      requires Valid() && !Shares()
      modifies this
      ensures Valid()
      ensures bs == Available(old(Contents()), n) && Contents() == Reading(old(Contents()), n)
      ensures trace == old(trace) + (if old(lastIo) == IoWrite then [BSeek, BRead] else [BRead])
      ensures buffer == old(buffer) || fresh(buffer)
    {
      SeekBetween(IoWrite);
      bs := MemoryRead(n);
      lastIo := IoRead;
      trace := trace + [BRead];
      where := where + |bs|;
    }

    /** Write to a stream, after a seek if the last access was a read. */
    method WriteStream(bs: seq<Byte>)
      requires Valid() && !Shares() && CanHold(where + |bs|)
      modifies this, buffer
      ensures Valid()
      ensures Contents() == Writing(old(Contents()), bs)
      ensures trace == old(trace) + (if old(lastIo) == IoRead then [BSeek, BWrite] else [BWrite])
      ensures buffer == old(buffer) || fresh(buffer)
    {
      SeekBetween(IoRead);
      hide CanHold;
      MemoryWrite(bs);
      lastIo := IoWrite;
      trace := trace + [BWrite];
      where := where + |bs|;
    }

    method Read(n: nat) returns (r: Option<seq<Byte>>)
      requires ChainOk() && StreamValid() && root.where >= 0
      modifies root
      ensures StreamValid()
      ensures root.iovec == NoIovec ==> r == None
      ensures root.iovec != NoIovec ==>
                (r, root.Contents()) == ReadStep(old(root.Contents()), start, Bound(), n)
      ensures root.buffer == old(root.buffer) || fresh(root.buffer)
    {
      var file, offset := Outermost();
      var size := n;
      if areltSize.Some? && Shares() {
        var maxBytes := areltSize.value;
        if file.where < offset || file.where - offset >= maxBytes {
          return None;
        }
        if file.where - offset + size > maxBytes {
          size := maxBytes - (file.where - offset);
        }
      }
      if file.iovec == NoIovec {
        return None;
      }
      var bs := file.ReadStream(size);
      r := Some(bs);
    }

    method Write(bs: seq<Byte>) returns (n: int)
      requires ChainOk() && StreamValid() && (root.iovec != NoIovec ==> root.CanHold(root.where + |bs|))
      modifies root, root.buffer
      ensures StreamValid()
      ensures root.iovec == NoIovec ==> n == -1
      ensures root.iovec != NoIovec ==> n == |bs| && root.Contents() == Writing(old(root.Contents()), bs)
      ensures root.buffer == old(root.buffer) || fresh(root.buffer)
    {
      var file, offset := Outermost();
      if file.iovec == NoIovec {
        return -1;
      }
      file.WriteStream(bs);
      n := |bs|;
    }
  }

  /** At any depth of nesting, a seek from the start that succeeds is told back. */
  method SeekThenTell(b: Bfd, p: int) returns (ok: bool, told: int)
    requires b.ChainOk() && b.StreamValid() && b.root.iovec == MemoryIovec
    modifies b.root
    ensures ok ==> told == p
    ensures ok <==> 0 <= p + b.start && (b.root.Writable() || p + b.start <= |old(b.root.Contents()).data|)
  {
    ok := b.Seek(p, false);
    told := b.Tell();
  }

  // ---------- whole runs ----------

  /** An access through the archive, or through an element that begins at offset. */
  datatype Op =
    | SeekTo(offset: nat, position: int, cur: bool)
    | ReadN(offset: nat, bound: Option<nat>, n: nat)
    | WriteBytes(bs: seq<Byte>)

  function Apply(s: Stream, op: Op): (r: Stream)
    requires StreamOk(s)
    ensures StreamOk(r)
  {
    match op
    case SeekTo(offset, position, cur) => Seeking(s, true, if cur then s.pos + position else position + offset).1
    case ReadN(offset, bound, n) => ReadStep(s, offset, bound, n).1
    case WriteBytes(bs) => Writing(s, bs)
  }

  /** The stream after a run on a writable BFD that began empty. */
  function Run(ops: seq<Op>): (s: Stream)
    ensures StreamOk(s)
  {
    if ops == [] then Stream([], 0) else Apply(Run(ops[..|ops| - 1]), ops[|ops| - 1])
  }

  /** The furthest position a run has been at. */
  function Furthest(ops: seq<Op>): nat {
    if ops == [] then 0
    else
      var before := Furthest(ops[..|ops| - 1]);
      if Run(ops).pos > before then Run(ops).pos else before
  }

  /** The byte the last write at place i put there; zero if there was none. */
  function LastWritten(ops: seq<Op>, i: nat): Byte {
    if ops == [] then 0
    else
      var op := ops[|ops| - 1];
      var pos := Run(ops[..|ops| - 1]).pos;
      if op.WriteBytes? && pos <= i < pos + |op.bs| then op.bs[i - pos]
      else LastWritten(ops[..|ops| - 1], i)
  }

  /** After every run the stream reaches to the furthest position ever held, and holds at each place
      the last byte written there, with zeros in the holes. */
  lemma {:induction false} StreamIsLastWrites(ops: seq<Op>)
    ensures |Run(ops).data| == Furthest(ops)
    ensures forall i :: 0 <= i < |Run(ops).data| ==> Run(ops).data[i] == LastWritten(ops, i)
    ensures forall i :: i >= Furthest(ops) ==> LastWritten(ops, i) == 0
  {
    if ops == [] {
    } else {
      StreamIsLastWrites(ops[..|ops| - 1]);
    }
  }

  /** So a read returns the last bytes written, up to its element's end or the furthest position; and it fails exactly if
      the position is not inside its element. */
  lemma ReadsLastWrites(ops: seq<Op>, offset: nat, bound: Option<nat>, n: nat)
    ensures var s, last := Run(ops), Furthest(ops);
            match ReadStep(s, offset, bound, n).0
            case None => bound.Some? && !(offset <= s.pos < offset + bound.value)
            case Some(bs) =>
              && (bound.Some? ==> offset <= s.pos < offset + bound.value)
              && s.pos <= last
              && |bs| <= n && s.pos + |bs| <= last && (bound.Some? ==> s.pos + |bs| <= offset + bound.value)
              && (|bs| == n || s.pos + |bs| == last || (bound.Some? && s.pos + |bs| == offset + bound.value))
              && forall k :: 0 <= k < |bs| ==> bs[k] == LastWritten(ops, s.pos + k)
  {
    hide Run, LastWritten, Furthest;
    StreamIsLastWrites(ops);
  }

  /** The position moves by what was read. */
  lemma ReadMoves(ops: seq<Op>, offset: nat, bound: Option<nat>, n: nat)
    ensures Run(ops + [ReadN(offset, bound, n)]).pos
         == Run(ops).pos + (match ReadStep(Run(ops), offset, bound, n).0 case None => 0 case Some(bs) => |bs|)
  {
    assert (ops + [ReadN(offset, bound, n)])[..|ops|] == ops;
  }

  /** A seek in a run ends at the place it names, from the position or from the start of its element; or at 0, if that is
      before the start. */
  lemma SeeksInRun(ops: seq<Op>, offset: nat, position: int, cur: bool)
    ensures var was, now := Run(ops).pos, Run(ops + [SeekTo(offset, position, cur)]).pos;
            && (cur ==> now == was + position || (was + position < 0 && now == 0))
            && (!cur ==> now == offset + position || (offset + position < 0 && now == 0))
  {
    assert (ops + [SeekTo(offset, position, cur)])[..|ops|] == ops;
  }

  /** Whose stream a BFD uses: its archive's, if that is not a thin one and is accessed the same way, and otherwise its
      own, with reads that nothing bounds. */
  lemma StreamOf(b: Bfd)
    requires b.ChainOk()
    ensures b.myArchive == null || b.myArchive.thin || b.myArchive.iovec != b.iovec ==>
              b.root == b && b.start == b.origin && b.Bound() == None
    ensures b.myArchive != null && !b.myArchive.thin && b.myArchive.iovec == b.iovec ==>
              b.root == b.myArchive.root && b.start == b.origin + b.myArchive.start && b.Bound() == b.areltSize
  {
  }

  // ---------- runs that are carried out ----------

  /** A call on a BFD or on an element nested to any depth in it. */
  datatype Access =
    | SeekOn(file: Bfd, position: int, cur: bool)
    | ReadOn(file: Bfd, n: nat)
    | WriteOn(file: Bfd, bs: seq<Byte>)

  ghost function OpOf(a: Access): Op {
    match a
    case SeekOn(file, position, cur) => SeekTo(file.start, position, cur)
    case ReadOn(file, n) => ReadN(file.start, file.Bound(), n)
    case WriteOn(_, bs) => WriteBytes(bs)
  }

  ghost function Ops(accesses: seq<Access>): (r: seq<Op>)
    ensures |r| == |accesses|
  {
    seq(|accesses|, i requires 0 <= i < |accesses| => OpOf(accesses[i]))
  }

  /** What a read gives; the other calls give nothing. */
  function Given(s: Stream, op: Op): Option<seq<Byte>>
    requires StreamOk(s)
  {
    if op.ReadN? then ReadStep(s, op.offset, op.bound, op.n).0 else None
  }

  lemma OpsGrow(accesses: seq<Access>, i: nat)
    requires i < |accesses|
    ensures Ops(accesses[..i + 1])[..i] == Ops(accesses[..i]) && Ops(accesses[..i + 1])[i] == OpOf(accesses[i])
    ensures Run(Ops(accesses[..i + 1])) == Apply(Run(Ops(accesses[..i])), OpOf(accesses[i]))
  {
    assert Ops(accesses[..i + 1])[..i] == Ops(accesses[..i]);
  }

  lemma NothingRun(accesses: seq<Access>)
    ensures Run(Ops(accesses[..0])) == Stream([], 0)
  {
  }

  /** One call on an element of a writable BFD. */
  method Carry(root: Bfd, a: Access) returns (r: Option<seq<Byte>>)
    requires root.Valid() && root.Writable() && a.file.ChainOk() && a.file.root == root
    modifies root, root.buffer
    ensures root.Valid() && (root.buffer == old(root.buffer) || fresh(root.buffer))
    ensures root.Contents() == Apply(old(root.Contents()), OpOf(a)) && r == Given(old(root.Contents()), OpOf(a))
  {
    hide Separated, Seeking, Writing, ReadStep;
    r := None;
    match a {
      case SeekOn(file, position, cur) =>
        var ok := file.Seek(position, cur);
      case ReadOn(file, n) =>
        r := file.Read(n);
      case WriteOn(file, bs) =>
        var n := file.Write(bs);
    }
  }

  /** Any calls, on any elements of one writable BFD that begins empty. */
  method Perform(root: Bfd, accesses: seq<Access>) returns (given: seq<Option<seq<Byte>>>)
    requires root.Valid() && root.Writable() && root.Contents() == Stream([], 0)
    requires forall i :: 0 <= i < |accesses| ==> accesses[i].file.ChainOk() && accesses[i].file.root == root
    modifies root, root.buffer
    ensures root.Valid() && Separated(root.trace) && root.Contents() == Run(Ops(accesses))
    ensures |given| == |accesses|
    ensures forall i :: 0 <= i < |given| ==> given[i] == Given(Run(Ops(accesses[..i])), OpOf(accesses[i]))
  {
    NothingRun(accesses);
    hide Run, Separated, Apply, Given, OpOf;
    given := [];
    for i := 0 to |accesses|
      invariant root.Valid() && (root.buffer == old(root.buffer) || fresh(root.buffer))
      invariant root.Contents() == Run(Ops(accesses[..i])) && |given| == i
      invariant forall j :: 0 <= j < i ==> given[j] == Given(Run(Ops(accesses[..j])), OpOf(accesses[j]))
    {
      OpsGrow(accesses, i);
      var r := Carry(root, accesses[i]);
      given := given + [r];
    }
    assert accesses[..|accesses|] == accesses;
  }
}
