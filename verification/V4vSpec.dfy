/** The v4v receive ring as a queue of packets laid out as bytes (inc/v4v.h:138-211, 295-303). */
module V4vSpec {
  import opened Word32

  const HEADER: nat := 16

  datatype Addr = Addr(port: Word, domain: nat)

  datatype Packet = Packet(source: Addr, protocol: Word, payload: seq<Byte>)

  /** V4V_ROUNDUP */
  function Roundup(n: nat): nat {
    (n + 15) / 16 * 16
  }

  lemma RoundupFits(n: nat, room: nat)
    requires n <= room && room % 16 == 0
    ensures n <= Roundup(n) <= room && Roundup(n) % 16 == 0
  {}

  lemma AdvanceAligned(at: nat, n: nat, len: nat)
    requires at < len && n <= len && at % 16 == 0 && n % 16 == 0 && len % 16 == 0
    ensures Advance(at, n, len) % 16 == 0
  {}

  lemma RoundupShift(n: nat, block: nat)
    requires block <= n && block % 16 == 0
    ensures Roundup(n) == block + Roundup(n - block)
  {}

  /** The number a little-endian field holds. */
  function Number(bytes: seq<Byte>): (n: nat)
    ensures |bytes| == 1 ==> n < 0x100
    ensures |bytes| == 2 ==> n < 0x1_0000
    ensures |bytes| == 3 ==> n < 0x100_0000
    ensures |bytes| == 4 ==> n < TWO32
  {
    if bytes == [] then 0
    else
      var low: nat := bytes[0];
      low + 256 * Number(bytes[1..])
  }

  /** A field of k bytes holding n. */
  function Field(n: nat, k: nat): (bytes: seq<Byte>)
    ensures |bytes| == k
    ensures n == 0 && k > 0 ==> bytes[0] == 0
  {
    if k == 0 then [] else [n % 256] + Field(n / 256, k - 1)
  }

  lemma {:induction false} NumberOfField(n: nat, k: nat)
    requires (k == 0 && n == 0) || (k == 1 && n < 0x100) || (k == 2 && n < 0x1_0000)
             || (k == 3 && n < 0x100_0000) || (k == 4 && n < TWO32)
    ensures Number(Field(n, k)) == n
  {
    if k == 0 {
    } else {
      assert Field(n, k)[1..] == Field(n / 256, k - 1);
      NumberOfField(n / 256, k - 1);
    }
  }

  /** A circular slice of the ring. */
  function Circ(ring: seq<Byte>, start: nat, n: nat): (s: seq<Byte>)
    requires start < |ring| && n <= |ring|
    ensures |s| == n
    ensures forall i :: 0 <= i < n ==>
              s[i] == ring[if start + i < |ring| then start + i else start + i - |ring|]
  {
    if start + n <= |ring| then ring[start..start + n]
    else ring[start..] + ring[..start + n - |ring|]
  }

  /** A position moved on round the ring. */
  function Advance(at: nat, n: nat, len: nat): (r: nat)
    requires at < len && n <= len
    ensures r < len
  {
    if at + n >= len then at + n - len else at + n
  }

  /** v4v_ring_bytes_to_read: the difference as a signed 32-bit number, made positive by len. */
  function BytesToRead(tx: Word, rx: Word, len: Word): Word {
    var d := Minus(tx, rx);
    if d < 0x8000_0000 then d else Plus(len, d - TWO32)
  }

  /** How far the write pointer is ahead of the read pointer, round the ring. */
  function Distance(tx: nat, rx: nat, len: nat): (n: nat)
    requires tx < len && rx < len
    ensures n < len
  {
    if tx >= rx then tx - rx else len + tx - rx
  }

  lemma BytesToReadIsDistance(tx: nat, rx: nat, len: nat)
    requires tx < len && rx < len < 0x8000_0000
    ensures BytesToRead(tx, rx, len) == Distance(tx, rx, len)
  {}

  /** The signed difference gives the distance exactly for rings of at most 2^31 bytes; beyond that
      some pair of pointers is misread. */
  lemma BytesToReadExactIff(len: nat)
    requires 0 < len < TWO32
    ensures (forall tx: nat, rx: nat | tx < len && rx < len :: BytesToRead(tx, rx, len) == Distance(tx, rx, len))
            <==> len <= 0x8000_0000
  {
    if len > 0x8000_0000 {
      assert BytesToRead(0x8000_0000, 0, len) != Distance(0x8000_0000, 0, len);
    }
  }

  lemma AdvanceLowersDistance(tx: nat, rx: nat, len: nat, n: nat)
    requires tx < len && rx < len && n <= Distance(tx, rx, len)
    ensures Distance(tx, Advance(rx, n, len), len) == Distance(tx, rx, len) - n
    ensures Advance(rx, Distance(tx, rx, len), len) == tx
  {}

  lemma CircSplit(ring: seq<Byte>, start: nat, n: nat, k: nat)
    requires start < |ring| && k <= n <= |ring|
    ensures Circ(ring, start, n)[..k] == Circ(ring, start, k)
    ensures Circ(ring, start, n)[k..] == Circ(ring, Advance(start, k, |ring|), n - k)
  {}

  function HeaderSource(h: seq<Byte>): Addr
    requires |h| == HEADER
  {
    Addr(Number(h[4..8]), Number(h[8..10]))
  }

  function HeaderProtocol(h: seq<Byte>): Word
    requires |h| == HEADER
  {
    Number(h[12..16])
  }

  /** The length field counts the header. */
  function HeaderLength(h: seq<Byte>): nat
    requires |h| == HEADER
  {
    Number(h[0..4])
  }

  function FrameSize(p: Packet): nat {
    HEADER + Roundup(|p.payload|)
  }

  /** The first bytes are the frame of p, whatever its pad field and padding hold. */
  predicate StartsWith(bytes: seq<Byte>, p: Packet) {
    && FrameSize(p) <= |bytes|
    && HeaderLength(bytes[..HEADER]) == HEADER + |p.payload|
    && HeaderSource(bytes[..HEADER]) == p.source
    && HeaderProtocol(bytes[..HEADER]) == p.protocol
    && HEADER + |p.payload| <= |bytes|
    && bytes[HEADER..HEADER + |p.payload|] == p.payload
  }

  /** The unread bytes are the frames of a queue of packets. */
  predicate Represents(bytes: seq<Byte>, q: seq<Packet>)
    decreases |q|
  {
    if q == [] then bytes == []
    else StartsWith(bytes, q[0]) && Represents(bytes[FrameSize(q[0])..], q[1..])
  }

  /** The part of a payload that a read from `skip` up to position t delivers. */
  function Slice(payload: seq<Byte>, skip: nat, t: nat): (s: seq<Byte>)
    ensures |s| == (var end := if t < |payload| then t else |payload|; if skip < end then end - skip else 0)
  {
    var end := if t < |payload| then t else |payload|;
    if skip < end then payload[skip..end] else []
  }

  /** A buffer after its beginning has been overwritten. */
  function Overwritten(buf: seq<Byte>, data: seq<Byte>): seq<Byte>
    requires |data| <= |buf|
  {
    data + buf[|data|..]
  }

  lemma StartsWithMore(bytes: seq<Byte>, more: seq<Byte>, p: Packet)
    requires StartsWith(bytes, p)
    ensures StartsWith(bytes + more, p)
  {
    hide Number, Roundup, HeaderSource, HeaderProtocol, HeaderLength;
    assert (bytes + more)[..HEADER] == bytes[..HEADER];
    assert (bytes + more)[HEADER..HEADER + |p.payload|] == bytes[HEADER..HEADER + |p.payload|];
  }

  lemma {:induction false} RepresentsAppend(bytes: seq<Byte>, q: seq<Packet>, more: seq<Byte>, p: Packet)
    requires Represents(bytes, q) && StartsWith(more, p) && |more| == FrameSize(p)
    ensures Represents(bytes + more, q + [p])
  {
    hide StartsWith, FrameSize;
    if q == [] {
      assert bytes + more == more && q + [p] == [p];
      assert more[FrameSize(p)..] == [] && [p][1..] == [];
      assert Represents([], []);
    } else {
      var n := FrameSize(q[0]);
      FrameFits(bytes, q[0]);
      RepresentsAppend(bytes[n..], q[1..], more, p);
      assert (bytes + more)[n..] == bytes[n..] + more && (q + [p])[1..] == q[1..] + [p];
      StartsWithMore(bytes, more, q[0]);
    }
  }

  lemma FrameFits(bytes: seq<Byte>, p: Packet)
    requires StartsWith(bytes, p)
    ensures FrameSize(p) <= |bytes|
  {}

  /** Where each read of a chain stops is where the next begins; together they deliver all. */
  function Chain(payload: seq<Byte>, cuts: seq<nat>): seq<Byte>
  {
    if |cuts| <= 1 then [] else Slice(payload, cuts[0], cuts[1]) + Chain(payload, cuts[1..])
  }

  lemma SlicesMeet(payload: seq<Byte>, a: nat, b: nat, c: nat)
    requires a <= b <= c
    ensures Slice(payload, a, b) + Slice(payload, b, c) == Slice(payload, a, c)
  {}

  lemma {:induction false} ChainDelivers(payload: seq<Byte>, cuts: seq<nat>)
    requires |cuts| >= 1 && forall i, j :: 0 <= i < j < |cuts| ==> cuts[i] <= cuts[j]
    ensures Chain(payload, cuts) == Slice(payload, cuts[0], cuts[|cuts| - 1])
  {
    hide Slice;
    SlicesMeet(payload, cuts[0], cuts[0], cuts[0]);
    if |cuts| <= 1 {
    } else {
      var rest := cuts[1..];
      assert rest[0] == cuts[1] && rest[|rest| - 1] == cuts[|cuts| - 1];
      ChainDelivers(payload, rest);
      SlicesMeet(payload, cuts[0], cuts[1], cuts[|cuts| - 1]);
    }
  }

  /** Reads from 0, each starting where the last stopped, up to the payload's end reassemble it;
      and only such chains do. */
  lemma ChainReassemblesIff(payload: seq<Byte>, cuts: seq<nat>)
    requires |cuts| >= 1 && forall i, j :: 0 <= i < j < |cuts| ==> cuts[i] <= cuts[j]
    ensures Chain(payload, cuts) == payload
            <==> payload == [] || (cuts[0] == 0 && cuts[|cuts| - 1] >= |payload|)
  {
    ChainDelivers(payload, cuts);
  }
}
