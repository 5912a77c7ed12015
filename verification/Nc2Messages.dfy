/** netchannel2 messages and the byte stream a sequence of them makes (inc/vring.h:175-186). */
module Nc2Messages {

  import opened Word32

  /** NETCHANNEL2_MSG_PAD. */
  const PAD: Byte := 255

  /** A message: its header fields and what follows the four header bytes. */
  datatype Msg = Msg(kind: Byte, flags: Byte, body: seq<Byte>)

  function Size(m: Msg): nat {
    4 + |m.body|
  }

  predicate WellSized(m: Msg) {
    Size(m) % 8 == 0 && Size(m) < 0x8000
  }

  /** The bytes of a message; the size field is 16 bits, low byte first. */
  function Encode(m: Msg): (e: seq<Byte>)
    requires Size(m) < 0x1_0000
    ensures |e| == Size(m)
  {
    [m.kind, m.flags, Size(m) % 256, Size(m) / 256] + m.body
  }

  /** The size a reader finds in the first four bytes. */
  function SizeField(bytes: seq<Byte>): nat
    requires |bytes| >= 4
  {
    var low: int, high: int := bytes[2], bytes[3];
    low + 256 * high
  }

  function Decode(bytes: seq<Byte>): Msg
    requires |bytes| >= 4
  {
    Msg(bytes[0], bytes[1], bytes[4..])
  }

  lemma DecodeEncode(m: Msg, k: nat)
    requires Size(m) < 0x1_0000
    requires 4 <= k <= Size(m)
    ensures SizeField(Encode(m)[..k]) == Size(m)
    ensures Decode(Encode(m)) == m
  {
    assert Encode(m)[4..] == m.body;
  }

  ghost predicate AllWellSized(log: seq<Msg>) {
    forall k :: 0 <= k < |log| ==> WellSized(log[k])
  }

  /** The byte stream of a log of messages. */
  function Stream(log: seq<Msg>): seq<Byte>
    requires AllWellSized(log)
  {
    if log == [] then [] else Stream(log[..|log| - 1]) + Encode(log[|log| - 1])
  }

  /** Where message k starts in the stream. */
  function Start(log: seq<Msg>, k: nat): nat
    requires AllWellSized(log) && k <= |log|
  {
    if k == 0 then 0 else Start(log, k - 1) + Size(log[k - 1])
  }

  lemma {:induction false} StreamLength(log: seq<Msg>)
    requires AllWellSized(log)
    ensures |Stream(log)| == Start(log, |log|)
  {
    if log == [] {
    } else {
      var n := |log| - 1;
      StreamLength(log[..n]);
      StartOfPrefix(log[..n], log, n);
    }
  }

  lemma {:induction false} StartOfPrefix(a: seq<Msg>, b: seq<Msg>, k: nat)
    requires AllWellSized(a) && AllWellSized(b)
    requires k <= |a| <= |b| && forall i :: 0 <= i < k ==> a[i] == b[i]
    ensures Start(a, k) == Start(b, k)
  {
    if k == 0 {
    } else {
      StartOfPrefix(a, b, k - 1);
    }
  }

  lemma StreamOfSnoc(log: seq<Msg>, m: Msg)
    requires AllWellSized(log) && WellSized(m)
    ensures Stream(log + [m]) == Stream(log) + Encode(m)
  {
    assert (log + [m])[..|log|] == log;
  }

  lemma {:induction false} StartGrows(log: seq<Msg>, j: nat, k: nat)
    requires AllWellSized(log) && j <= k <= |log|
    ensures Start(log, j) + 4 * (k - j) <= Start(log, k)
  {
    if j == k {
    } else {
      StartGrows(log, j, k - 1);
    }
  }

  lemma {:induction false} StartAligned(log: seq<Msg>, k: nat)
    requires AllWellSized(log) && k <= |log|
    ensures Start(log, k) % 8 == 0
  {
    if k == 0 {
    } else {
      StartAligned(log, k - 1);
    }
  }

  /** Message k occupies its own bytes of the stream. */
  lemma {:induction false} MessageInStream(log: seq<Msg>, k: nat)
    requires AllWellSized(log) && k < |log|
    ensures Start(log, k) + Size(log[k]) <= |Stream(log)|
    ensures Stream(log)[Start(log, k)..Start(log, k) + Size(log[k])] == Encode(log[k])
  {
    var n := |log| - 1;
    var init := log[..n];
    StreamLength(init);
    StartOfPrefix(init, log, n);
    if k == n {
    } else {
      MessageInStream(init, k);
      StartOfPrefix(init, log, k);
      var lo, hi := Start(log, k), Start(log, k) + Size(log[k]);
      assert Stream(log)[lo..hi] == Stream(init)[lo..hi];
    }
  }

  /** The messages a client sees: everything but padding. */
  function ClientView(log: seq<Msg>): seq<Msg> {
    if log == [] then []
    else
      var init, last := log[..|log| - 1], log[|log| - 1];
      if last.kind == PAD then ClientView(init) else ClientView(init) + [last]
  }

  lemma ClientViewSnoc(log: seq<Msg>, m: Msg)
    ensures ClientView(log + [m]) == ClientView(log) + if m.kind == PAD then [] else [m]
  {
    assert (log + [m])[..|log|] == log;
  }

  lemma {:induction false} ClientViewPrefix(log: seq<Msg>, k: nat)
    requires k <= |log|
    ensures ClientView(log[..k]) <= ClientView(log)
  {
    if k < |log| {
      ClientViewPrefix(log[..|log| - 1], k);
      assert log[..|log| - 1][..k] == log[..k];
    } else {
      assert log[..k] == log;
    }
  }
}
