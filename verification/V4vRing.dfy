/** The v4v receive routines on a ring in memory (inc/v4v.h:295-520). */
module V4vRing {
  import opened Word32
  import opened V4vSpec

  datatype Outcome =
    | NothingToRead
    | Message(length: nat, source: Addr, protocol: Word)

  /** The n bytes after the first header. */
  function PayloadOf(unread: seq<Byte>, n: nat): seq<Byte> {
    if HEADER + n <= |unread| then unread[HEADER..HEADER + n] else []
  }

  /** What a copy routine reports: nothing while the header or the message is incomplete. The
      header's length counts the header itself. */
  function Head(unread: seq<Byte>, header: seq<Byte>): Outcome
    requires |header| == HEADER
  {
    if |unread| < HEADER || |unread| < HeaderLength(header) || HeaderLength(header) < HEADER then NothingToRead
    else Message(HeaderLength(header) - HEADER, HeaderSource(header), HeaderProtocol(header))
  }

  lemma NothingWritten(ring: seq<Byte>, at: nat)
    requires at < |ring|
    ensures Circ(ring, at, 0) == []
  {}

  /** A slot past the write pointer, before the ring is full, is not among the unread ones. */
  lemma FreeSlot(tx: nat, rx: nat, len: nat, i: nat)
    requires tx < len && rx < len && Distance(tx, rx, len) + i < len
    ensures forall j :: 0 <= j < Distance(tx, rx, len) ==> Advance(rx, j, len) != Advance(tx, i, len)
  {}

  lemma AdvanceTwice(rx: nat, a: nat, b: nat, len: nat)
    requires rx < len && a + b <= len
    ensures Advance(Advance(rx, a, len), b, len) == Advance(rx, a + b, len)
  {}

  lemma DistanceGrows(tx: nat, rx: nat, len: nat, n: nat)
    requires tx < len && rx < len && Distance(tx, rx, len) + n < len
    ensures Distance(Advance(tx, n, len), rx, len) == Distance(tx, rx, len) + n
    ensures tx == Advance(rx, Distance(tx, rx, len), len)
  {}

  /** A frame lying just past the unread bytes joins the queue when the write pointer moves. */
  lemma SendRepresents(ring: seq<Byte>, tx: nat, rx: nat, q: seq<Packet>, p: Packet, frame: seq<Byte>)
    requires tx < |ring| && rx < |ring| < 0x8000_0000
    requires var left := Distance(tx, rx, |ring|);
             && left + |frame| < |ring| && Represents(Circ(ring, rx, left), q)
    requires Circ(ring, tx, |frame|) == frame && StartsWith(frame, p) && |frame| == FrameSize(p)
    ensures var tx' := Advance(tx, |frame|, |ring|);
            && Distance(tx', rx, |ring|) == Distance(tx, rx, |ring|) + |frame|
            && Represents(Circ(ring, rx, Distance(tx', rx, |ring|)), q + [p])
  {
    hide Distance, Circ, Represents, StartsWith, FrameSize;
    var left := Distance(tx, rx, |ring|);
    DistanceGrows(tx, rx, |ring|, |frame|);
    CircSplit(ring, rx, left + |frame|, left);
    var all := Circ(ring, rx, left + |frame|);
    assert all == all[..left] + all[left..];
    RepresentsAppend(Circ(ring, rx, left), q, frame, p);
  }

  function Frame(p: Packet): (f: seq<Byte>)
    requires |p.payload| + HEADER < TWO32 && p.source.domain < 0x1_0000
    ensures |f| == FrameSize(p)
  {
    RoundupAligned(|p.payload|);
    Field(HEADER + |p.payload|, 4) + Field(p.source.port, 4) + Field(p.source.domain, 2) + Field(0, 2)
    + Field(p.protocol, 4) + p.payload + seq(Roundup(|p.payload|) - |p.payload|, i => 0)
  }

  lemma RoundupAligned(n: nat)
    ensures n <= Roundup(n) && Roundup(n) % 16 == 0
  {}

  lemma FrameStarts(p: Packet)
    requires |p.payload| + HEADER < TWO32 && p.source.domain < 0x1_0000
    ensures StartsWith(Frame(p), p)
  {
    hide Number, Field, Roundup;
    RoundupAligned(|p.payload|);
    FieldsAt(Field(HEADER + |p.payload|, 4), Field(p.source.port, 4), Field(p.source.domain, 2), Field(0, 2),
             Field(p.protocol, 4), p.payload, seq(Roundup(|p.payload|) - |p.payload|, i => 0));
    NumberOfField(HEADER + |p.payload|, 4);
    NumberOfField(p.source.port, 4);
    NumberOfField(p.source.domain, 2);
    NumberOfField(p.protocol, 4);
  }

  lemma FieldsAt(a: seq<Byte>, b: seq<Byte>, c: seq<Byte>, d: seq<Byte>, e: seq<Byte>, payload: seq<Byte>,
                 rest: seq<Byte>)
    requires |a| == 4 && |b| == 4 && |c| == 2 && |d| == 2 && |e| == 4
    ensures var f := a + b + c + d + e + payload + rest;
            && f[..16][0..4] == a && f[..16][4..8] == b && f[..16][8..10] == c && f[..16][12..16] == e
            && f[16..16 + |payload|] == payload
  {
    var h := a + b + c + d + e;
    assert h[0..4] == a && h[4..8] == b && h[8..10] == c && h[12..16] == e;
    assert (h + payload + rest)[..16] == h;
    assert (h + payload + rest)[16..16 + |payload|] == payload;
  }

  /** Writing just past a circular slice extends it. */
  lemma CircWrite(ring: seq<Byte>, start: nat, n: nat, b: Byte)
    requires start < |ring| && n < |ring|
    ensures var at := Advance(start, n, |ring|);
            Circ(ring[at := b], start, n + 1) == Circ(ring, start, n) + [b]
  {}

  /** Writing outside a circular slice leaves it alone. */
  lemma CircFar(ring: seq<Byte>, start: nat, n: nat, at: nat, b: Byte)
    requires start < |ring| && n <= |ring| && at < |ring|
    requires forall i :: 0 <= i < n ==> Advance(start, i, |ring|) != at
    ensures Circ(ring[at := b], start, n) == Circ(ring, start, n)
  {
    var a, c := Circ(ring[at := b], start, n), Circ(ring, start, n);
    forall i | 0 <= i < n ensures a[i] == c[i] {
      assert Advance(start, i, |ring|) != at;
    }
  }

  lemma HeaderAt(ring: seq<Byte>, rx: nat)
    requires rx + HEADER <= |ring| && rx < |ring|
    ensures Circ(ring, rx, HEADER) == ring[rx..rx + HEADER]
  {}

  lemma PayloadAt(ring: seq<Byte>, rx: nat, left: nat, n: nat)
    requires rx < |ring| && HEADER + n <= left <= |ring|
    ensures PayloadOf(Circ(ring, rx, left), n) == Circ(ring, Advance(rx, HEADER, |ring|), n)
  {}

  lemma NothingOverwritten(first: seq<Byte>)
    ensures Overwritten(first, []) == first
  {}

  /** The n bytes of the ring at `at`, less the first `left`. */
  function Piece(ring: seq<Byte>, at: nat, n: nat, left: nat): (s: seq<Byte>)
    ensures |s| == if left >= n || at + n > |ring| then 0 else n - left
  {
    if left >= n || at + n > |ring| then [] else ring[at + left..at + n]
  }

  /** One piece of the ring lengthens what has been copied of the payload, from position skip
      on, by the bytes up to the piece's end. */
  lemma NextPiece(ring: seq<Byte>, start: nat, length: nat, skip: nat, done: nat, n: nat)
    requires start < |ring| && done + n <= length <= |ring|
    requires n > 0 ==> Advance(start, done, |ring|) + n <= |ring|
    ensures var payload, at, left := Circ(ring, start, length), Advance(start, done, |ring|),
                                     if skip < done then 0 else skip - done;
            && (n > 0 ==> at + n <= |ring|)
            && Slice(payload, skip, done + n) == Slice(payload, skip, done) + Piece(ring, at, n, left)
  {
    hide Slice, Circ;
    SliceSplits(Circ(ring, start, length), skip, done, done + n);
    var from := if skip < done then done else skip;
    if from < done + n {
      PieceAt(ring, start, length, done, n, from - done);
    }
  }

  lemma SliceSplits(payload: seq<Byte>, skip: nat, done: nat, end: nat)
    requires done <= end <= |payload|
    ensures var from := if skip < done then done else skip;
            Slice(payload, skip, end)
            == Slice(payload, skip, done) + if from >= end then [] else payload[from..end]
  {}

  lemma PieceAt(ring: seq<Byte>, start: nat, length: nat, done: nat, n: nat, left: nat)
    requires start < |ring| && done + n <= length <= |ring| && left < n
    requires Advance(start, done, |ring|) + n <= |ring|
    ensures var at := Advance(start, done, |ring|);
            Circ(ring, start, length)[done + left..done + n] == ring[at + left..at + n]
  {
    var payload, at := Circ(ring, start, length), Advance(start, done, |ring|);
    hide Circ;
    var a, b := payload[done + left..done + n], ring[at + left..at + n];
    forall i | 0 <= i < n - left ensures a[i] == b[i] {
      assert payload[done + left + i] == ring[at + left + i];
    }
  }

  /** The copy routines' variables past the first copy: `done` bytes were gone through, `len`
      bytes of payload start at rxp and do not wrap, and `t` may still be gone through. */
  predicate StateAfterFirst(bte: nat, size: nat, start: nat, length: nat, done: nat, rxp: nat, len: nat, t: nat) {
    if bte >= length then done == 0 && rxp == start && len == length && t == size
    else
      && rxp == 0 && len == length - bte
      && if size < bte then done == size && t == 0 else done == bte && t == size - bte
  }

  lemma EndOfPayload(total: nat, size: nat, start: nat, length: nat, done: nat, rxp: nat, len: nat, t: nat)
    requires start < total && length <= total && start % 16 == 0 && total % 16 == 0
    requires StateAfterFirst(total - start, size, start, length, done, rxp, len, t)
    ensures rxp < total && rxp + Roundup(len) <= total && len <= Roundup(len) && Roundup(length) <= total
    ensures (if rxp + Roundup(len) == total then 0 else rxp + Roundup(len))
            == Advance(start, Roundup(length), total)
    ensures t > 0 ==> rxp == Advance(start, done, total) && done + len == length
    ensures done + (if t < len then t else len) == (if size < length then size else length)
            || (t == 0 && done == if size < length then size else length)
  {
    hide Roundup;
    RoundupFits(length, total);
    RoundupFits(len, total - rxp);
    if len != length {
      RoundupShift(length, total - start);
    }
  }

  lemma AllOfIt(payload: seq<Byte>, skip: nat, size: nat, done: nat)
    requires done == if size < |payload| then size else |payload|
    ensures Slice(payload, skip, done) == Slice(payload, skip, size)
  {}

  lemma LeftIsAligned(tx: nat, rx: nat, len: nat)
    requires tx < len && rx < len < 0x8000_0000
    requires tx % 16 == 0 && rx % 16 == 0 && len % 16 == 0
    ensures Distance(tx, rx, len) % 16 == 0
  {}

  lemma OverwrittenStart(buf: seq<Byte>, data: seq<Byte>)
    requires |data| <= |buf|
    ensures |Overwritten(buf, data)| == |buf| && Overwritten(buf, data)[..|data|] == data
  {}

  class Ring {
    const ring: array<Byte>
    var rxPtr: nat
    var txPtr: nat

    /** A ring whose length and pointers are multiples of 16, and shorter than 2^31. */
    ghost predicate Valid()
      reads this
    {
      && HEADER <= ring.Length < 0x8000_0000 && ring.Length % 16 == 0
      && rxPtr < ring.Length && rxPtr % 16 == 0
      && txPtr < ring.Length && txPtr % 16 == 0
    }

    constructor (len: nat)
      requires HEADER <= len < 0x8000_0000 && len % 16 == 0
      ensures Valid() && fresh(ring) && ring.Length == len && rxPtr == txPtr == 0
      ensures Represents(Unread(), [])
    {
      ring := new Byte[len](i => 0);
      rxPtr, txPtr := 0, 0;
    }

    function BytesLeft(): nat
      requires Valid()
      reads this
    {
      Distance(txPtr, rxPtr, ring.Length)
    }

    /** The bytes between the read and the write pointer, in reading order. */
    ghost function Unread(): (u: seq<Byte>)
      requires Valid()
      reads this, ring
      ensures |u| == BytesLeft()
    {
      Circ(ring[..], rxPtr, BytesLeft())
    }

    /** The first header of the unread bytes. The code reads it without wrapping: both the
        ring and the read pointer are 16-byte aligned. */
    ghost function FirstHeader(): seq<Byte>
      requires Valid()
      reads this, ring
    {
      Circ(ring[..], rxPtr, HEADER)
    }

    /** Bytes written past the write pointer, in the free part of the ring. */
    method WriteFree(bytes: seq<Byte>)
      requires Valid() && BytesLeft() + |bytes| < ring.Length
      modifies ring
      ensures Circ(ring[..], txPtr, |bytes|) == bytes && Unread() == old(Unread())
    {
      hide Distance, Advance, Circ;
      NothingWritten(ring[..], txPtr);
      var i := 0;
      while i < |bytes|
        invariant i <= |bytes|
        invariant Circ(ring[..], txPtr, i) == bytes[..i]
        invariant Unread() == old(Unread())
      {
        var at := Advance(txPtr, i, ring.Length);
        ghost var was := ring[..];
        ring[at] := bytes[i];
        CircWrite(was, txPtr, i, bytes[i]);
        FreeSlot(txPtr, rxPtr, ring.Length, i);
        CircFar(was, rxPtr, BytesLeft(), at, bytes[i]);
        assert ring[..] == was[at := bytes[i]];
        assert bytes[..i] + [bytes[i]] == bytes[..i + 1];
        i := i + 1;
      }
      assert bytes[..|bytes|] == bytes;
    }

    /** The sender, inside the hypervisor: a header, the payload, padding to 16 bytes. It
        refuses to fill the ring, since equal pointers mean empty. */
    method Send(p: Packet, ghost q: seq<Packet>) returns (sent: bool)
      requires Valid() && Represents(Unread(), q)
      requires |p.payload| + HEADER < TWO32 && p.source.domain < 0x1_0000
      modifies this`txPtr, ring
      ensures Valid() && rxPtr == old(rxPtr)
      ensures sent <==> old(BytesLeft()) + FrameSize(p) < ring.Length
      ensures Represents(Unread(), if sent then q + [p] else q)
    {
      hide Roundup, Represents, StartsWith, Field, Frame, Number, Circ, Distance, Advance;
      RoundupAligned(|p.payload|);
      if BytesLeft() + FrameSize(p) >= ring.Length {
        return false;
      }
      var frame := Frame(p);
      WriteFree(frame);
      FrameStarts(p);
      SendRepresents(ring[..], txPtr, rxPtr, q, p, frame);
      AdvanceAligned(txPtr, |frame|, ring.Length);
      txPtr := Advance(txPtr, |frame|, ring.Length);
      return true;
    }

    /** memcpy from the ring into the buffer, if there is a buffer. `data` is what the buffer's
        beginning `first` was overwritten with so far. */
    method Copy(buf: array?<Byte>, at: nat, from: nat, n: nat, ghost first: seq<Byte>, ghost data: seq<Byte>)
      requires from + n <= ring.Length && buf != ring && at == |data|
      requires buf != null ==>
                 at + n <= buf.Length == |first| && buf[..] == Overwritten(first, data)
      modifies if buf == null then {} else {buf}
      ensures buf != null ==> buf[..] == Overwritten(first, data + Piece(ring[..], from, n, 0))
    {
      if buf == null {
        return;
      }
      var i := 0;
      while i < n
        invariant i <= n
        invariant buf[..] == Overwritten(first, data + ring[from..from + i])
      {
        assert ring[from..from + i] + [ring[from + i]] == ring[from..from + i + 1];
        buf[at + i] := ring[from + i];
        i := i + 1;
      }
    }

    /** The first memcpy of v4v_copy_out: the part of a wrapping payload before the end of the
        ring. `at` counts what was copied. */
    method CopyBeforeEnd(buf: array?<Byte>, size: nat, start: nat, length: nat)
      returns (at: nat, rxp: nat, len: nat, t: nat)
      requires start < ring.Length && length <= ring.Length
      requires buf != null ==> buf != ring && size <= buf.Length
      modifies if buf == null then {} else {buf}
      ensures StateAfterFirst(ring.Length - start, size, start, length, at, rxp, len, t)
      ensures buf != null ==>
                buf[..] == Overwritten(old(buf[..]), Slice(Circ(ring[..], start, length), 0, at))
    {
      hide Circ, Overwritten, Slice, Piece;
      ghost var first := if buf == null then [] else buf[..];
      NothingOverwritten(first);
      ghost var none := Slice(Circ(ring[..], start, length), 0, 0);
      at, rxp, len, t := 0, start, length, size;
      var bte := ring.Length - rxp;
      if bte < len {
        if t < bte {
          NextPiece(ring[..], start, length, 0, 0, t);
          Copy(buf, at, rxp, t, first, none);
          at, rxp, len, t := at + t, 0, len - bte, 0;
        } else {
          NextPiece(ring[..], start, length, 0, 0, bte);
          Copy(buf, at, rxp, bte, first, none);
          at, rxp, len, t := at + bte, 0, len - bte, t - bte;
        }
      }
    }

    /** The copying part of v4v_copy_out, from the start of the payload on; returns where the
        next message starts. */
    method CopyPayload(buf: array?<Byte>, size: nat, start: nat, length: nat) returns (rxp: nat)
      requires start < ring.Length && start % 16 == 0 && ring.Length % 16 == 0 && length <= ring.Length
      requires buf != null ==> buf != ring && size <= buf.Length
      modifies if buf == null then {} else {buf}
      ensures Roundup(length) <= ring.Length && rxp == Advance(start, Roundup(length), ring.Length)
      ensures buf != null ==>
                var data := Slice(Circ(ring[..], start, length), 0, size);
                |data| <= |old(buf[..])| && buf[..] == Overwritten(old(buf[..]), data)
    {
      hide Roundup, Circ, Overwritten, Slice, Piece;
      ghost var first := if buf == null then [] else buf[..];
      ghost var payload := Circ(ring[..], start, length);
      var at, len, t;
      at, rxp, len, t := CopyBeforeEnd(buf, size, start, length);
      EndOfPayload(ring.Length, size, start, length, at, rxp, len, t);
      if buf != null {
        if t > 0 {
          var n := if t < len then t else len;
          NextPiece(ring[..], start, length, 0, at, n);
          Copy(buf, at, rxp, n, first, Slice(payload, 0, at));
          at := at + n;
        }
        AllOfIt(payload, 0, size, at);
      }
      rxp := rxp + Roundup(len);
      if rxp == ring.Length {
        rxp := 0;
      }
    }

    /** v4v_ring_bytes_to_read */
    method RingBytesToRead() returns (n: nat)
      requires Valid()
      ensures n == BytesLeft()
    {
      BytesToReadIsDistance(txPtr, rxPtr, ring.Length);
      return BytesToRead(txPtr, rxPtr, ring.Length);
    }

    /** The prologue both copy routines share: what is next, if anything is complete, and where
        its payload starts. */
    method NextMessage() returns (out: Outcome, rxp: nat)
      requires Valid() && (BytesLeft() >= HEADER ==> HeaderLength(FirstHeader()) >= HEADER)
      ensures out == Head(Unread(), FirstHeader())
      ensures out.Message? ==>
                && HEADER + Roundup(out.length) <= BytesLeft()
                && rxp == Advance(rxPtr, HEADER, ring.Length) && rxp % 16 == 0
                && out.length <= ring.Length && Circ(ring[..], rxp, out.length) == PayloadOf(Unread(), out.length)
    {
      hide Number, Roundup, BytesToRead, HeaderLength, HeaderSource, HeaderProtocol, Circ, PayloadOf, Distance;
      var btr := RingBytesToRead();
      rxp := rxPtr;
      LeftIsAligned(txPtr, rxPtr, ring.Length);
      if btr < HEADER {
        return NothingToRead, rxp;
      }
      var h := ring[rxp..rxp + HEADER];
      HeaderAt(ring[..], rxPtr);
      assert h == ring[..][rxp..rxp + HEADER];
      var len := HeaderLength(h);
      if btr < len {
        return NothingToRead, rxp;
      }
      rxp := rxp + HEADER;
      if rxp == ring.Length {
        rxp := 0;
      }
      len := len - HEADER;
      out := Message(len, HeaderSource(h), HeaderProtocol(h));
      RoundupFits(len, btr - HEADER);
      PayloadAt(ring[..], rxPtr, btr, len);
    }

    /** v4v_copy_out: the next message into the buffer, at most size bytes of it. A null buffer
        takes nothing. */
    method CopyOut(buf: array?<Byte>, size: nat, consume: bool) returns (out: Outcome)
      requires Valid() && (buf != null ==> buf != ring && size <= buf.Length)
      requires BytesLeft() >= HEADER ==> HeaderLength(FirstHeader()) >= HEADER
      modifies this`rxPtr, if buf == null then {} else {buf}
      ensures Valid() && out == old(Head(Unread(), FirstHeader()))
      ensures out.NothingToRead? ==>
                rxPtr == old(rxPtr) && (buf != null ==> buf[..] == old(buf[..]))
      ensures out.Message? ==>
                && HEADER + Roundup(out.length) <= old(BytesLeft())
                && rxPtr == (if consume then Advance(old(rxPtr), HEADER + Roundup(out.length), ring.Length)
                             else old(rxPtr))
                && BytesLeft() == old(BytesLeft()) - if consume then HEADER + Roundup(out.length) else 0
      ensures out.Message? && buf != null ==>
                var data := Slice(PayloadOf(old(Unread()), out.length), 0, size);
                |data| <= |old(buf[..])| && buf[..] == Overwritten(old(buf[..]), data)
    {
      hide Roundup, Head, Circ, Slice, Overwritten, HeaderLength, PayloadOf, Distance, Advance;
      var rxp;
      out, rxp := NextMessage();
      if out.NothingToRead? {
        return;
      }
      LeftIsAligned(txPtr, rxPtr, ring.Length);
      RoundupAligned(out.length);
      AdvanceTwice(rxPtr, HEADER, Roundup(out.length), ring.Length);
      AdvanceAligned(rxPtr, HEADER + Roundup(out.length), ring.Length);
      AdvanceLowersDistance(txPtr, rxPtr, ring.Length, HEADER + Roundup(out.length));
      rxp := CopyPayload(buf, size, rxp, out.length);
      if consume {
        rxPtr := rxp;
      }
    }

    /** v4v_memcpy_skip: `at`, relative to the buffer's start, may lie before it by what is left
        to skip. Returns what is then left to skip. */
    method MemcpySkip(buf: array<Byte>, at: int, from: nat, len: nat, skip: nat,
                      ghost first: seq<Byte>, ghost data: seq<Byte>)
      returns (left: nat)
      requires from + len <= ring.Length && buf != ring && at + skip == |data|
      requires at + len <= buf.Length == |first| && |data| <= |first| && buf[..] == Overwritten(first, data)
      modifies buf
      ensures left == if skip >= len then skip - len else 0
      ensures |data| + (if skip >= len then 0 else len - skip) <= |first|
      ensures buf[..] == Overwritten(first, data + Piece(ring[..], from, len, skip))
    {
      hide Overwritten;
      assert data + [] == data;
      if skip == 0 {
        Copy(buf, at, from, len, first, data);
        return 0;
      }
      if skip >= len {
        return skip - len;
      }
      Copy(buf, at + skip, from + skip, len - skip, first, data);
      return 0;
    }

    /** The first copy of v4v_copy_out_offset. The buffer starts at position -offset. */
    method SkipBeforeEnd(buf: array<Byte>, size: nat, start: nat, length: nat, offset: nat)
      returns (at: int, rxp: nat, len: nat, t: nat, skip: nat)
      requires start < ring.Length && length <= ring.Length
      requires buf != ring && size <= buf.Length + offset
      modifies buf
      ensures at + offset >= 0
      ensures StateAfterFirst(ring.Length - start, size, start, length, at + offset, rxp, len, t)
      ensures skip == if offset < at + offset then 0 else 0 - at
      ensures buf[..] == Overwritten(old(buf[..]), Slice(Circ(ring[..], start, length), offset, at + offset))
    {
      hide Circ, Overwritten, Slice, Piece;
      ghost var first := buf[..];
      NothingOverwritten(first);
      ghost var none := Slice(Circ(ring[..], start, length), offset, 0);
      at, rxp, len, t, skip := 0 - offset, start, length, size, offset;
      var bte := ring.Length - rxp;
      if bte < len {
        if t < bte {
          NextPiece(ring[..], start, length, offset, 0, t);
          skip := MemcpySkip(buf, at, rxp, t, skip, first, none);
          at, rxp, len, t := at + t, 0, len - bte, 0;
        } else {
          NextPiece(ring[..], start, length, offset, 0, bte);
          skip := MemcpySkip(buf, at, rxp, bte, skip, first, none);
          at, rxp, len, t := at + bte, 0, len - bte, t - bte;
        }
      }
    }

    /** The copying part of v4v_copy_out_offset. */
    method CopyPayloadSkip(buf: array<Byte>, size: nat, start: nat, length: nat, offset: nat)
      returns (rxp: nat)
      requires start < ring.Length && start % 16 == 0 && ring.Length % 16 == 0 && length <= ring.Length
      requires buf != ring && size <= buf.Length + offset
      modifies buf
      ensures Roundup(length) <= ring.Length && rxp == Advance(start, Roundup(length), ring.Length)
      ensures var data := Slice(Circ(ring[..], start, length), offset, size);
              |data| <= |old(buf[..])| && buf[..] == Overwritten(old(buf[..]), data)
    {
      hide Roundup, Circ, Overwritten, Slice, Piece;
      ghost var first := buf[..];
      ghost var payload := Circ(ring[..], start, length);
      var at, len, t, skip;
      at, rxp, len, t, skip := SkipBeforeEnd(buf, size, start, length, offset);
      EndOfPayload(ring.Length, size, start, length, at + offset, rxp, len, t);
      if t > 0 {
        var n := if t < len then t else len;
        NextPiece(ring[..], start, length, offset, at + offset, n);
        skip := MemcpySkip(buf, at, rxp, n, skip, first, Slice(payload, offset, at + offset));
        at := at + n;
      }
      AllOfIt(payload, offset, size, at + offset);
      rxp := rxp + Roundup(len);
      if rxp == ring.Length {
        rxp := 0;
      }
    }

    /** v4v_copy_out_offset: payload bytes from position skip up to position size, to the start
        of the buffer. The code moves the buffer pointer back by skip before it tests it for
        null, so a null buffer goes with no skip. */
    method CopyOutOffset(buf: array?<Byte>, size: nat, consume: bool, skip: nat) returns (out: Outcome)
      requires Valid() && (buf != null ==> buf != ring && size <= buf.Length + skip)
      requires buf == null ==> skip == 0
      requires BytesLeft() >= HEADER ==> HeaderLength(FirstHeader()) >= HEADER
      modifies this`rxPtr, if buf == null then {} else {buf}
      ensures Valid() && out == old(Head(Unread(), FirstHeader()))
      ensures out.NothingToRead? ==>
                rxPtr == old(rxPtr) && (buf != null ==> buf[..] == old(buf[..]))
      ensures out.Message? ==>
                && HEADER + Roundup(out.length) <= old(BytesLeft())
                && rxPtr == (if consume then Advance(old(rxPtr), HEADER + Roundup(out.length), ring.Length)
                             else old(rxPtr))
                && BytesLeft() == old(BytesLeft()) - if consume then HEADER + Roundup(out.length) else 0
      ensures out.Message? && buf != null ==>
                var data := Slice(PayloadOf(old(Unread()), out.length), skip, size);
                |data| <= |old(buf[..])| && buf[..] == Overwritten(old(buf[..]), data)
    {
      hide Roundup, Head, Circ, Slice, Overwritten, HeaderLength, PayloadOf, Distance, Advance;
      var rxp;
      out, rxp := NextMessage();
      if out.NothingToRead? {
        return;
      }
      LeftIsAligned(txPtr, rxPtr, ring.Length);
      RoundupAligned(out.length);
      AdvanceTwice(rxPtr, HEADER, Roundup(out.length), ring.Length);
      AdvanceAligned(rxPtr, HEADER + Roundup(out.length), ring.Length);
      AdvanceLowersDistance(txPtr, rxPtr, ring.Length, HEADER + Roundup(out.length));
      if buf == null {
        rxp := CopyPayload(null, size, rxp, out.length);
      } else {
        rxp := CopyPayloadSkip(buf, size, rxp, out.length, skip);
      }
      if consume {
        rxPtr := rxp;
      }
    }
  }

  /** A copy routine finds the head of the queue the unread bytes represent, whole, and nothing
      only when the queue is empty. */
  lemma HeadOfQueue(r: Ring, q: seq<Packet>)
    requires r.Valid() && Represents(r.Unread(), q)
    ensures r.BytesLeft() >= HEADER ==> HeaderLength(r.FirstHeader()) >= HEADER
    ensures Head(r.Unread(), r.FirstHeader())
            == if q == [] then NothingToRead else Message(|q[0].payload|, q[0].source, q[0].protocol)
    ensures q != [] ==> PayloadOf(r.Unread(), |q[0].payload|) == q[0].payload
  {
    hide HeaderLength, HeaderSource, HeaderProtocol, Roundup, Circ, Distance;
    if q != [] {
      CircSplit(r.ring[..], r.rxPtr, r.BytesLeft(), HEADER);
    }
  }

  /** Moving the read pointer past the first message takes it off the queue. */
  lemma Dequeue(ring: seq<Byte>, rx: nat, tx: nat, q: seq<Packet>)
    requires rx < |ring| && tx < |ring| && q != []
    requires Represents(Circ(ring, rx, Distance(tx, rx, |ring|)), q)
    ensures FrameSize(q[0]) <= Distance(tx, rx, |ring|)
    ensures var rx' := Advance(rx, FrameSize(q[0]), |ring|);
            Represents(Circ(ring, rx', Distance(tx, rx', |ring|)), q[1..])
  {
    hide Distance, Circ, StartsWith, FrameSize, Advance;
    var left := Distance(tx, rx, |ring|);
    FrameFits(Circ(ring, rx, left), q[0]);
    CircSplit(ring, rx, left, FrameSize(q[0]));
    AdvanceLowersDistance(tx, rx, |ring|, FrameSize(q[0]));
  }

  /** Receiving with v4v_copy_out is taking the head of a queue of packets. */
  method Receive(r: Ring, buf: array<Byte>, ghost q: seq<Packet>) returns (out: Outcome)
    requires r.Valid() && r.ring != buf && Represents(r.Unread(), q)
    modifies r`rxPtr, buf
    ensures r.Valid() && (out == NothingToRead <==> q == [])
    ensures q == [] ==> Represents(r.Unread(), q) && buf[..] == old(buf[..])
    ensures q != [] ==>
              && out == Message(|q[0].payload|, q[0].source, q[0].protocol)
              && Represents(r.Unread(), q[1..])
              && var n := if buf.Length < |q[0].payload| then buf.Length else |q[0].payload|;
                 n <= |old(buf[..])| && buf[..] == q[0].payload[..n] + old(buf[..])[n..]
  {
    hide Represents, Head, Circ, Distance, Advance, Roundup, HeaderLength, PayloadOf;
    HeadOfQueue(r, q);
    if q != [] {
      Dequeue(r.ring[..], r.rxPtr, r.txPtr, q);
    }
    out := r.CopyOut(buf, buf.Length, true);
  }

  /** Reading the next message piece by piece without consuming it, each piece from where the last
      stopped: what the buffers get, one after the other, is the payload from the first cut to
      the last; so all of it exactly when the cuts run from 0 to its end. */
  method ReadInPieces(r: Ring, cuts: seq<nat>, ghost q: seq<Packet>) returns (all: seq<Byte>)
    requires r.Valid() && Represents(r.Unread(), q) && q != []
    requires |cuts| >= 1 && forall i, j :: 0 <= i < j < |cuts| ==> cuts[i] <= cuts[j]
    modifies r`rxPtr
    ensures r.rxPtr == old(r.rxPtr) && r.Valid() && Represents(r.Unread(), q)
    ensures all == Chain(q[0].payload, cuts)
    ensures var p := q[0].payload; all == p <==> p == [] || (cuts[0] == 0 && cuts[|cuts| - 1] >= |p|)
  {
    hide Represents, Head, Circ, Distance, Advance, Roundup, HeaderLength, PayloadOf, Slice, Chain, Overwritten;
    ghost var payload := q[0].payload;
    all := [];
    SlicesMeet(payload, cuts[0], cuts[0], cuts[0]);
    var i := 0;
    while i + 1 < |cuts|
      invariant i < |cuts| && r.rxPtr == old(r.rxPtr) && r.Valid() && Represents(r.Unread(), q)
      invariant all == Slice(payload, cuts[0], cuts[i])
    {
      var from, to := cuts[i], cuts[i + 1];
      var buf := new Byte[to - from](i => 0);
      ghost var first := buf[..];
      HeadOfQueue(r, q);
      var out := r.CopyOutOffset(buf, to, false, from);
      var end := if to < out.length then to else out.length;
      var n := if from < end then end - from else 0;
      ghost var data := Slice(payload, from, to);
      OverwrittenStart(first, data);
      assert buf[..n] == data;
      SlicesMeet(payload, cuts[0], from, to);
      all := all + buf[..n];
      i := i + 1;
    }
    ChainDelivers(payload, cuts);
    ChainReassemblesIff(payload, cuts);
  }
}
