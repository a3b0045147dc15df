/** Length-prefixed framing over a byte stream: packets queued with a send offset, a
    partly received frame, and partial sends and receives in any pattern. */
module Framing {
  import opened Prelude
  import opened Codec

  predicate Packet(p: seq<byte>) {
    0 < |p| < TWO31
  }

  function Frame(p: seq<byte>): (f: seq<byte>)
    requires Packet(p)
    ensures |f| == |p| + 4
  {
    Word(|p|) + p
  }

  predicate Packets(ps: seq<seq<byte>>) {
    forall i | 0 <= i < |ps| :: Packet(ps[i])
  }

  function Frames(ps: seq<seq<byte>>): seq<byte>
    requires Packets(ps)
  {
    if ps == [] then [] else Frame(ps[0]) + Frames(ps[1..])
  }

  /** A packet in the send queue, with the number of bytes of its frame sent so far. */
  datatype OutBuffer = OutBuffer(buffer: seq<byte>, currOffset: nat)

  /** Only the head of the queue may be partly sent. */
  predicate Sendable(q: seq<OutBuffer>) {
    forall i | 0 <= i < |q| ::
      Packet(q[i].buffer) && if i == 0 then q[i].currOffset <= |q[i].buffer| + 4 else q[i].currOffset == 0
  }

  function Payloads(q: seq<OutBuffer>): (r: seq<seq<byte>>)
    requires Sendable(q)
    ensures |r| == |q| && Packets(r)
  {
    seq(|q|, i requires 0 <= i < |q| => q[i].buffer)
  }

  function Unsent(q: seq<OutBuffer>): seq<byte>
    requires Sendable(q)
  {
    if q == [] then [] else Frames(Payloads(q))[q[0].currOffset..]
  }

  /** The frame being received: the bytes of its length, then its payload. */
  datatype InBuffer = InBuffer(header: seq<byte>, payload: seq<byte>)

  predicate Receivable(b: InBuffer) {
    |b.header| <= 4 && (|b.header| < 4 ==> b.payload == [])
  }

  /** All announced bytes are there. */
  predicate Complete(b: InBuffer) {
    |b.header| == 4 && |b.payload| == UnWord(b.header, 0)
  }

  // ------------------------------------------------------- unique decoding

  lemma {:induction false} FramesConcat(a: seq<seq<byte>>, b: seq<seq<byte>>)
    requires Packets(a) && Packets(b)
    ensures Packets(a + b) && Frames(a + b) == Frames(a) + Frames(b)
  {
    if a == [] {
      assert a + b == b;
    } else {
      assert (a + b)[1..] == a[1..] + b;
      FramesConcat(a[1..], b);
      assert Frame(a[0]) + (Frames(a[1..]) + Frames(b)) == Frame(a[0]) + Frames(a[1..]) + Frames(b);
    }
  }

  lemma OneFrame(p: seq<byte>)
    requires Packet(p)
    ensures Frames([p]) == Frame(p)
  {
    var ps: seq<seq<byte>> := [p];
    assert ps[1..] == [];
  }

  lemma WordInjective(u: int, v: int)
    requires 0 <= u < TWO32 && 0 <= v < TWO32 && Word(u) == Word(v)
    ensures u == v
  {
    WordBytes(u);
    WordBytes(v);
  }

  /** Two streams that agree as far as the first goes start with the same frame. */
  lemma FirstFrame(p: seq<byte>, x: seq<byte>, q: seq<byte>, y: seq<byte>)
    requires Packet(p) && Packet(q) && Frame(p) + x <= Frame(q) + y
    ensures p == q && x <= y
  {
    var s, t := Frame(p) + x, Frame(q) + y;
    assert s[..4] == Word(|p|) && t[..4] == Word(|q|) && s[..4] == t[..4];
    WordInjective(|p|, |q|);
    assert s[4..|p| + 4] == p && t[4..|q| + 4] == q;
    assert s[4..|p| + 4] == t[4..|p| + 4];
    assert s[|p| + 4..] == x && t[|p| + 4..] == y;
    assert s[|p| + 4..] == t[|p| + 4..|s|];
  }

  /** Frames that make up a prefix of a stream of frames are its first frames, and the
      rest of the stream follows. */
  lemma {:induction false} FramesPrefix(a: seq<seq<byte>>, b: seq<seq<byte>>, rest: seq<byte>)
    requires Packets(a) && Packets(b) && Frames(a) + rest == Frames(b)
    ensures a <= b && rest == Frames(b[|a|..])
  {
    if a == [] {
      assert Frames(a) + rest == rest && b[0..] == b;
    } else {
      var x := Frames(a[1..]) + rest;
      assert Frame(a[0]) + x == Frames(a) + rest;
      assert |Frames(b)| >= 4;
      FirstFrame(a[0], x, b[0], Frames(b[1..]));
      FirstFrame(b[0], Frames(b[1..]), a[0], x);
      FramesPrefix(a[1..], b[1..], rest);
      assert a == [a[0]] + a[1..] && b == [b[0]] + b[1..];
      assert b[1..][|a| - 1..] == b[|a|..];
    }
  }

  lemma HeadFrame(ps: seq<seq<byte>>)
    requires Packets(ps) && ps != []
    ensures Frame(ps[0]) <= Frames(ps)
  {
  }

  // ------------------------------------------------------- nothing is lost

  /** Frames received, the partial frame, the bytes under way and the bytes still to be
      sent make up the packets submitted. */
  ghost predicate Lossless(received: seq<seq<byte>>, partial: seq<byte>, wire: seq<byte>, unsent: seq<byte>,
                           submitted: seq<seq<byte>>)
  {
    Packets(received) && Packets(submitted) &&
    Frames(received) + (partial + (wire + unsent)) == Frames(submitted)
  }

  lemma SubmitLossless(received: seq<seq<byte>>, partial: seq<byte>, wire: seq<byte>, unsent: seq<byte>,
                       submitted: seq<seq<byte>>, p: seq<byte>)
    requires Lossless(received, partial, wire, unsent, submitted) && Packet(p)
    ensures Lossless(received, partial, wire, unsent + Frame(p), submitted + [p])
  {
    FramesConcat(submitted, [p]);
    Assoc(wire, unsent, Frame(p));
    Assoc(partial, wire + unsent, Frame(p));
    Assoc(Frames(received), partial + (wire + unsent), Frame(p));
  }

  lemma RecvLossless(received: seq<seq<byte>>, partial: seq<byte>, bytes: seq<byte>, wire: seq<byte>,
                     unsent: seq<byte>, submitted: seq<seq<byte>>)
    requires Lossless(received, partial, bytes + wire, unsent, submitted)
    ensures Lossless(received, partial + bytes, wire, unsent, submitted)
  {
    Assoc(bytes, wire, unsent);
    Assoc(partial, bytes, wire + unsent);
  }

  lemma FrameLossless(received: seq<seq<byte>>, p: seq<byte>, wire: seq<byte>, unsent: seq<byte>,
                      submitted: seq<seq<byte>>)
    requires Packet(p) && Lossless(received, Frame(p), wire, unsent, submitted)
    ensures Lossless(received + [p], [], wire, unsent, submitted)
  {
    FramesConcat(received, [p]);
    Assoc(Frames(received), Frame(p), wire + unsent);
    assert [] + (wire + unsent) == wire + unsent;
  }

  /** The four bytes of a length read are those of the next packet submitted. */
  lemma AnnouncedLength(received: seq<seq<byte>>, header: seq<byte>, payload: seq<byte>, wire: seq<byte>,
                        unsent: seq<byte>, submitted: seq<seq<byte>>)
    requires |header| == 4 && Lossless(received, header + payload, wire, unsent, submitted)
    ensures 0 < UnWord(header, 0) < TWO31 && Word(UnWord(header, 0)) == header
  {
    var rest := header + payload + (wire + unsent);
    FramesPrefix(received, submitted, rest);
    var left := submitted[|received|..];
    FirstHeader(left, rest);
    assert rest[..4] == header;
    WordBytes(|left[0]|);
  }

  lemma FirstHeader(left: seq<seq<byte>>, rest: seq<byte>)
    requires Packets(left) && Frames(left) == rest && |rest| >= 4
    ensures left != [] && rest[..4] == Word(|left[0]|)
  {
    assert left != [];
    assert rest == Frame(left[0]) + Frames(left[1..]);
    assert rest[..4] == Frame(left[0])[..4];
  }

  /** A payload of the announced length completes a frame. */
  lemma CompleteFrame(received: seq<seq<byte>>, b: InBuffer, wire: seq<byte>, unsent: seq<byte>,
                      submitted: seq<seq<byte>>)
    requires |b.header| == 4 && |b.payload| == UnWord(b.header, 0)
    requires Lossless(received, b.header + b.payload, wire, unsent, submitted)
    ensures Packet(b.payload) && b.header + b.payload == Frame(b.payload)
  {
    AnnouncedLength(received, b.header, b.payload, wire, unsent, submitted);
  }

  /** Whatever was received is, packet for packet, the beginning of what was submitted;
      with nothing left to send and nothing under way it is all of it. */
  lemma ReceivedIsPrefix(received: seq<seq<byte>>, partial: seq<byte>, wire: seq<byte>, unsent: seq<byte>,
                         submitted: seq<seq<byte>>)
    requires Lossless(received, partial, wire, unsent, submitted)
    ensures received <= submitted
    ensures partial == [] && wire == [] && unsent == [] ==> received == submitted
  {
    var rest := partial + (wire + unsent);
    FramesPrefix(received, submitted, rest);
    var left := submitted[|received|..];
    assert left != [] ==> |Frames(left)| >= 4;
  }

  lemma QueueStep(q: seq<OutBuffer>, p: seq<byte>)
    requires Sendable(q) && Packet(p)
    ensures Sendable(q + [OutBuffer(p, 0)]) && Unsent(q + [OutBuffer(p, 0)]) == Unsent(q) + Frame(p)
  {
    var r := q + [OutBuffer(p, 0)];
    assert Payloads(r) == Payloads(q) + [p];
    FramesConcat(Payloads(q), [p]);
    OneFrame(p);
    if q != [] {
      HeadFrame(Payloads(q));
      DropLeft(Frames(Payloads(q)), Frame(p), q[0].currOffset);
    }
  }

  lemma DropLeft(a: seq<byte>, b: seq<byte>, n: nat)
    requires n <= |a|
    ensures (a + b)[n..] == a[n..] + b
  {
  }

  lemma FrontStep(q: seq<OutBuffer>, p: seq<byte>)
    requires Sendable(q) && Packet(p) && (q == [] || q[0].currOffset == 0)
    ensures Sendable([OutBuffer(p, 0)] + q) && Payloads([OutBuffer(p, 0)] + q) == [p] + Payloads(q)
    ensures Unsent(q) == Frames(Payloads(q)) && Unsent([OutBuffer(p, 0)] + q) == Frame(p) + Frames(Payloads(q))
  {
    var r := [OutBuffer(p, 0)] + q;
    assert Payloads(r) == [p] + Payloads(q);
    assert ([p] + Payloads(q))[1..] == Payloads(q);
  }

  lemma FrontLossless(received: seq<seq<byte>>, partial: seq<byte>, wire: seq<byte>, q: seq<OutBuffer>,
                      gone: seq<seq<byte>>, p: seq<byte>)
    requires Sendable(q) && Packet(p) && (q == [] || q[0].currOffset == 0)
    requires Lossless(received, partial, wire, Unsent(q), gone + Payloads(q))
    ensures Lossless(received, partial, wire, Unsent([OutBuffer(p, 0)] + q), gone + ([p] + Payloads(q)))
  {
    assert forall i | 0 <= i < |gone| :: gone[i] == (gone + Payloads(q))[i];
    var waiting, f := Frames(Payloads(q)), Frame(p);
    var out := Frames(received) + (partial + wire);
    FrontStep(q, p);
    FramesConcat(gone, Payloads(q));
    FramesConcat(gone, [p] + Payloads(q));
    FramesConcat([p], Payloads(q));
    OneFrame(p);
    AllButUnsent(Frames(received), partial, wire, waiting);
    AllButUnsent(Frames(received), partial, wire, f + waiting);
    SameRest(out, Frames(gone), waiting);
  }

  lemma AllButUnsent(r: seq<byte>, partial: seq<byte>, wire: seq<byte>, unsent: seq<byte>)
    ensures r + (partial + (wire + unsent)) == r + (partial + wire) + unsent
  {
    Assoc(partial, wire, unsent);
    Assoc(r, partial + wire, unsent);
  }

  lemma SameRest(a: seq<byte>, b: seq<byte>, w: seq<byte>)
    requires a + w == b + w
    ensures a == b
  {
    assert |a| == |b| && a == (a + w)[..|a|] && b == (b + w)[..|b|];
  }

  lemma QueuePayloads(gone: seq<seq<byte>>, q: seq<OutBuffer>, p: seq<byte>)
    requires Sendable(q) && Packet(p) && Sendable(q + [OutBuffer(p, 0)])
    ensures gone + Payloads(q + [OutBuffer(p, 0)]) == gone + Payloads(q) + [p]
  {
    assert Payloads(q + [OutBuffer(p, 0)]) == Payloads(q) + [p];
  }

  lemma HeadPayloads(gone: seq<seq<byte>>, q: seq<OutBuffer>)
    requires Sendable(q) && q != [] && Sendable(q[1..])
    ensures gone + [q[0].buffer] + Payloads(q[1..]) == gone + Payloads(q)
  {
    assert Payloads(q) == [q[0].buffer] + Payloads(q[1..]);
  }

  lemma NothingSubmitted()
    ensures Lossless([], [] + [], [], Unsent([]), [] + Payloads([]))
  {
    assert Payloads([]) == [] && [] + ([] + ([] + Unsent([]))) == Unsent([]);
  }

  lemma SendStep(q: seq<OutBuffer>, head: OutBuffer, w0: seq<byte>, w: seq<byte>)
    requires Sendable(q) && q != [] && head.buffer == q[0].buffer
    requires q[0].currOffset <= head.currOffset <= |head.buffer| + 4
    requires w == w0 + Frame(head.buffer)[q[0].currOffset..head.currOffset]
    ensures Sendable([head] + q[1..]) && w + Unsent([head] + q[1..]) == w0 + Unsent(q)
  {
    var r := [head] + q[1..];
    assert Payloads(r) == Payloads(q);
    var all, out := Frames(Payloads(q)), Frame(head.buffer)[q[0].currOffset..head.currOffset];
    assert out == all[q[0].currOffset..head.currOffset];
    assert all[q[0].currOffset..] == out + all[head.currOffset..];
    Assoc(w0, out, all[head.currOffset..]);
  }

  lemma RemoveStep(q: seq<OutBuffer>)
    requires Sendable(q) && q != [] && q[0].currOffset == |q[0].buffer| + 4
    ensures Sendable(q[1..]) && Unsent(q[1..]) == Unsent(q)
  {
    assert Payloads(q)[1..] == Payloads(q[1..]);
    assert Frames(Payloads(q)) == Frame(q[0].buffer) + Frames(Payloads(q[1..]));
  }

  // ------------------------------------------------------------------ link

  const EAGAIN_RC := -1
  const ERROR_RC := -2

  /** One call of the socket: how many bytes were offered or asked for, and its result. */
  datatype Call = Call(size: nat, rc: int)

  /** The last of the calls since then took or gave less than it could, or nothing. */
  ghost predicate RanShort(before: seq<Call>, now: seq<Call>) {
    before < now && now[|now| - 1].rc < now[|now| - 1].size
  }

  ghost predicate RanIntoError(before: seq<Call>, now: seq<Call>) {
    before < now && now[|now| - 1].rc == ERROR_RC
  }

  /** A sender and a receiver with the stream between them. */
  class Link {
    var toSend: seq<OutBuffer>
    var wire: seq<byte>
    var input: InBuffer
    var received: seq<seq<byte>>
    ghost var gone: seq<seq<byte>>
    ghost var sends: seq<Call>
    ghost var recvs: seq<Call>

    /** The packets submitted, in the order in which they are sent: those that left the
        queue, then those in it. */
    ghost function Submitted(): seq<seq<byte>>
      requires Sendable(toSend)
      reads this
    {
      gone + Payloads(toSend)
    }

    /** Between calls: nothing is lost, and the frame being read is not complete. */
    ghost predicate Valid()
      reads this
    {
      Flowing() && !Complete(input)
    }

    ghost predicate Flowing()
      reads this
    {
      && Sendable(toSend) && Receivable(input)
      && Lossless(received, input.header + input.payload, wire, Unsent(toSend), Submitted())
      && (|input.header| == 4 ==> |input.payload| <= UnWord(input.header, 0))
    }

    constructor ()
      ensures Valid() && Submitted() == [] && received == []
    {
      toSend, wire, input, received, gone, sends, recvs := [], [], InBuffer([], []), [], [], [], [];
      new;
      NothingSubmitted();
    }

    method Submit(p: seq<byte>)
      requires Valid() && Packet(p)
      modifies this`toSend
      ensures Valid() && Submitted() == old(Submitted()) + [p]
    {
      QueueStep(toSend, p);
      SubmitLossless(received, input.header + input.payload, wire, Unsent(toSend), Submitted(), p);
      QueuePayloads(gone, toSend, p);
      toSend := toSend + [OutBuffer(p, 0)];
    }

    /** A packet put in front of a queue whose head is not begun goes out before the
        packets that wait. */
    method SubmitFront(p: seq<byte>)
      requires Valid() && Packet(p) && (toSend == [] || toSend[0].currOffset == 0)
      modifies this`toSend
      ensures Valid() && Payloads(toSend) == [p] + old(Payloads(toSend))
      ensures Submitted() == gone + ([p] + old(Payloads(toSend)))
    {
      FrontStep(toSend, p);
      FrontLossless(received, input.header + input.payload, wire, toSend, gone, p);
      toSend := [OutBuffer(p, 0)] + toSend;
    }

    /** The socket takes some of the bytes, or none for now, or fails. */
    method ZookeeperSend(bytes: seq<byte>) returns (rc: int)
      modifies this`wire, this`sends
      ensures ERROR_RC <= rc <= |bytes|
      ensures wire == old(wire) + (if rc > 0 then bytes[..rc] else [])
      ensures sends == old(sends) + [Call(|bytes|, rc)]
    {
      rc :| ERROR_RC <= rc <= |bytes|;
      if rc > 0 { wire := wire + bytes[..rc]; }
      sends := sends + [Call(|bytes|, rc)];
    }

    /** Sends the length first, then the payload, as far as the socket goes along. */
    method SendBuffer(b: OutBuffer) returns (rc: int, b': OutBuffer)
      requires Packet(b.buffer) && b.currOffset <= |b.buffer| + 4
      modifies this`wire, this`sends
      ensures b'.buffer == b.buffer && b.currOffset <= b'.currOffset <= |b.buffer| + 4
      ensures wire == old(wire) + Frame(b.buffer)[b.currOffset..b'.currOffset]
      ensures -1 <= rc <= 1 && (rc == 1 ==> b'.currOffset == |b.buffer| + 4)
      ensures old(sends) <= sends
      ensures rc == 0 ==> b'.currOffset < |b.buffer| + 4 && RanShort(old(sends), sends)
      ensures rc == -1 ==> RanIntoError(old(sends), sends)
    {
      ghost var f, w0 := Frame(b.buffer), wire;
      b' := b;
      assert f[b.currOffset..b.currOffset] == [];
      if b.currOffset < 4 {
        rc, b' := SendLength(b);
        if rc < 0 { return if rc == EAGAIN_RC then 0 else -1, b'; }
      }
      if b'.currOffset >= 4 {
        rc, b' := SendPayload(b');
        if rc == ERROR_RC { return -1, b'; }
      }
      rc := if b'.currOffset == |b.buffer| + 4 then 1 else 0;
    }

    method SendLength(b: OutBuffer) returns (rc: int, b': OutBuffer)
      requires Packet(b.buffer) && b.currOffset < 4
      modifies this`wire, this`sends
      ensures b'.buffer == b.buffer && ERROR_RC <= rc && old(sends) < sends && sends[|sends| - 1].rc == rc
      ensures b'.currOffset < 4 ==> RanShort(old(sends), sends)
      ensures b.currOffset <= b'.currOffset <= 4 && (rc < 0 ==> b' == b)
      ensures wire == old(wire) + Frame(b.buffer)[b.currOffset..b'.currOffset]
    {
      ghost var f := Frame(b.buffer);
      var off := b.currOffset;
      var nlen := Word(|b.buffer|);
      rc := ZookeeperSend(nlen[off..]);
      assert rc > 0 ==> nlen[off..][..rc] == f[off..off + rc];
      assert f[off..off] == [];
      b' := if rc < 0 then b else b.(currOffset := off + rc);
    }

    method SendPayload(b: OutBuffer) returns (rc: int, b': OutBuffer)
      requires Packet(b.buffer) && 4 <= b.currOffset <= |b.buffer| + 4
      modifies this`wire, this`sends
      ensures b'.buffer == b.buffer && ERROR_RC <= rc && old(sends) < sends && sends[|sends| - 1].rc == rc
      ensures b'.currOffset < |b.buffer| + 4 ==> RanShort(old(sends), sends)
      ensures b.currOffset <= b'.currOffset <= |b.buffer| + 4
      ensures wire == old(wire) + Frame(b.buffer)[b.currOffset..b'.currOffset]
    {
      ghost var f := Frame(b.buffer);
      var off := b.currOffset - 4;
      rc := ZookeeperSend(b.buffer[off..]);
      assert rc > 0 ==> b.buffer[off..][..rc] == f[off + 4..off + 4 + rc];
      assert f[off + 4..off + 4] == [];
      b' := if rc < 0 then b else b.(currOffset := b.currOffset + rc);
    }

    /** Sends until the queue is empty, the socket takes less than it is offered, or it
        fails; a packet leaves the queue when it is sent whole. */
    method FlushSendQueue() returns (failed: bool)
      requires Valid()
      modifies this`toSend, this`wire, this`sends, this`gone
      ensures Valid() && |toSend| <= |old(toSend)| && Submitted() == old(Submitted())
      ensures !failed ==> toSend == [] || RanShort(old(sends), sends)
      ensures failed ==> RanIntoError(old(sends), sends)
    {
      while toSend != []
        invariant Valid() && |toSend| <= |old(toSend)| && Submitted() == old(Submitted())
        invariant old(sends) <= sends
        decreases |toSend|
      {
        var rc := SendHead();
        if rc == 0 { return false; }
        if rc < 0 { return true; }
        RemoveHead();
      }
      failed := false;
    }

    method RemoveHead()
      requires Valid() && toSend != [] && toSend[0].currOffset == |toSend[0].buffer| + 4
      modifies this`toSend, this`gone
      ensures Valid() && toSend == old(toSend)[1..] && Submitted() == old(Submitted())
    {
      RemoveStep(toSend);
      HeadPayloads(gone, toSend);
      gone := gone + [toSend[0].buffer];
      toSend := toSend[1..];
    }

    method SendHead() returns (rc: int)
      requires Valid() && toSend != []
      modifies this`toSend, this`wire, this`sends
      ensures Valid() && |toSend| == |old(toSend)| && -1 <= rc <= 1 && Submitted() == old(Submitted())
      ensures rc == 1 ==> toSend[0].currOffset == |toSend[0].buffer| + 4
      ensures old(sends) <= sends && (rc == 0 ==> RanShort(old(sends), sends))
      ensures rc == -1 ==> RanIntoError(old(sends), sends)
    {
      ghost var q0, w0 := toSend, wire;
      var head;
      rc, head := SendBuffer(toSend[0]);
      SendStep(q0, head, w0, wire);
      assert Payloads([head] + q0[1..]) == Payloads(q0);
      toSend := [head] + toSend[1..];
    }

    /** Up to max bytes, at least one; or none for now; or the connection is gone. */
    method Recv(max: nat) returns (rc: int, bytes: seq<byte>)
      modifies this`wire, this`recvs
      ensures ERROR_RC <= rc <= max && rc != 0 && |bytes| == (if rc > 0 then rc else 0)
      ensures old(wire) == bytes + wire && recvs == old(recvs) + [Call(max, rc)]
    {
      var ready: bool := *;
      if max > 0 && wire != [] && ready {
        var n: nat :| 0 < n <= max && n <= |wire|;
        rc, bytes, wire := n, wire[..n], wire[n..];
      } else {
        var gone: bool := *;
        rc, bytes := if gone then ERROR_RC else EAGAIN_RC, [];
      }
      recvs := recvs + [Call(max, rc)];
    }

    /** Reads into the current frame: first what is missing of the length, then of the
        payload, never beyond. Returns 1 when the frame is complete. */
    method RecvBuffer() returns (rc: int)
      requires Valid()
      modifies this`wire, this`recvs, this`input
      ensures Flowing() && -1 <= rc <= 1 && (rc == 1 <==> Complete(input))
      ensures rc == 0 ==> RanShort(old(recvs), recvs)
      ensures rc == -1 ==> RanIntoError(old(recvs), recvs)
    {
      if |input.header| < 4 {
        var n;
        n := RecvHeader();
        if n < 0 { return if n == EAGAIN_RC then 0 else -1; }
      }
      if |input.header| == 4 {
        var n := RecvPayload();
        if n == ERROR_RC { return -1; }
      }
      rc := if Complete(input) then 1 else 0;
    }

    method RecvHeader() returns (n: int)
      requires Valid() && |input.header| < 4
      modifies this`wire, this`recvs, this`input
      ensures Flowing() && (|input.header| == 4 ==> input.payload == []) && !Complete(input)
      ensures ERROR_RC <= n && old(recvs) < recvs && recvs[|recvs| - 1].rc == n
      ensures |input.header| < 4 ==> RanShort(old(recvs), recvs)
    {
      ghost var w0 := wire;
      var bytes;
      n, bytes := Recv(4 - |input.header|);
      assert input.header + input.payload == input.header;
      RecvLossless(received, input.header, bytes, wire, Unsent(toSend), Submitted());
      input := input.(header := input.header + bytes);
      assert input.header + input.payload == input.header;
      if |input.header| == 4 {
        AnnouncedLength(received, input.header, [], wire, Unsent(toSend), Submitted());
      }
    }

    method RecvPayload() returns (n: int)
      requires Flowing() && |input.header| == 4 && !Complete(input)
      modifies this`wire, this`recvs, this`input
      ensures Flowing() && |input.header| == 4 && (n < 0 ==> !Complete(input))
      ensures ERROR_RC <= n && old(recvs) < recvs && recvs[|recvs| - 1].rc == n
      ensures !Complete(input) ==> RanShort(old(recvs), recvs)
    {
      var len := UnWord(input.header, 0);
      ghost var partial := input.header + input.payload;
      var bytes;
      n, bytes := Recv(len - |input.payload|);
      RecvLossless(received, partial, bytes, wire, Unsent(toSend), Submitted());
      Assoc(input.header, input.payload, bytes);
      input := input.(payload := input.payload + bytes);
    }

    /** One read event: a completed frame joins the received ones. */
    method Receive() returns (rc: int)
      requires Valid()
      modifies this`wire, this`recvs, this`input, this`received
      ensures Valid() && old(received) <= received <= Submitted()
      ensures |received| == |old(received)| + (if rc == 1 then 1 else 0)
      ensures rc != 1 ==> RanShort(old(recvs), recvs) || RanIntoError(old(recvs), recvs)
    {
      rc := RecvBuffer();
      if rc == 1 {
        CompleteFrame(received, input, wire, Unsent(toSend), Submitted());
        FrameLossless(received, input.payload, wire, Unsent(toSend), Submitted());
        received := received + [input.payload];
        input := InBuffer([], []);
      }
      ReceivedIsPrefix(received, input.header + input.payload, wire, Unsent(toSend), Submitted());
    }
  }

  // ------------------------------------------------ jumping the send queue

  const AUTH_XID := -4
  const SET_WATCHES_XID := -8

  /** The packets that the client puts in front: they begin with one of two xids. */
  predicate FrontPacket(p: seq<byte>) {
    Packet(p) && |p| >= 4 && (p[..4] == Enc32(AUTH_XID) || p[..4] == Enc32(SET_WATCHES_XID))
  }

  /** A packet that begins with another xid. */
  predicate OrdinaryPacket(p: seq<byte>) {
    Packet(p) && |p| >= 4 && p[..4] != Enc32(AUTH_XID) && p[..4] != Enc32(SET_WATCHES_XID)
  }

  /** The stream that results when packet p is put before a head of which off bytes
      are out already. */
  function Inserted(head: seq<byte>, off: nat, p: seq<byte>): seq<byte>
    requires Packet(head) && Packet(p) && off <= |head| + 4
  {
    Frame(head)[..off] + (Frame(p) + Frame(head)[off..])
  }

  /** It carries both packets, in one order or the other. */
  predicate Intact(head: seq<byte>, off: nat, p: seq<byte>)
    requires Packet(head) && Packet(p) && off <= |head| + 4
  {
    Inserted(head, off, p) == Frame(p) + Frame(head) || Inserted(head, off, p) == Frame(head) + Frame(p)
  }

  lemma FrontBytes(p: seq<byte>)
    requires FrontPacket(p)
    ensures var f := Frame(p); f[0] < 0x80 && forall i | 4 <= i < 8 :: f[i] >= 0x80
  {
    WordBytes(|p|);
    XidBytes(AUTH_XID);
    XidBytes(SET_WATCHES_XID);
    assert Frame(p)[4..8] == p[..4];
    assert forall i | 4 <= i < 8 :: Frame(p)[i] == Frame(p)[4..8][i - 4];
  }

  lemma XidBytes(xid: int)
    requires xid == AUTH_XID || xid == SET_WATCHES_XID
    ensures forall i | 0 <= i < 4 :: Enc32(xid)[i] >= 0x80
  {
    assert Enc32(AUTH_XID) == [0xff, 0xff, 0xff, 0xfc];
    assert Enc32(SET_WATCHES_XID) == [0xff, 0xff, 0xff, 0xf8];
  }

  /** Bytes that come first in both orders repeat through the frame. */
  lemma Repeats(u: seq<byte>, f: seq<byte>, i: nat)
    requires u + f == f + u && |u| <= i < |f|
    ensures f[i] == f[i - |u|]
  {
    assert (u + f)[i] == f[i - |u|] && (f + u)[i] == f[i];
  }

  /** Once a byte of an ordinary head is out, a front packet cannot come out first. */
  lemma FrontPacketNotFirst(head: seq<byte>, off: nat, p: seq<byte>)
    requires OrdinaryPacket(head) && FrontPacket(p) && 0 < off <= |head| + 4
    ensures Inserted(head, off, p) != Frame(p) + Frame(head)
  {
    var f, h := Frame(p), Frame(head);
    var u := h[..off];
    if Inserted(head, off, p) == f + h {
      if off >= 8 {
        SameXid(h, off, f, head, p);
      } else {
        SameOrder(h, off, f);
        FirstRepeats(u, f);
        FrontBytes(p);
      }
    }
  }

  lemma SameXid(h: seq<byte>, off: nat, f: seq<byte>, head: seq<byte>, p: seq<byte>)
    requires Packet(head) && Packet(p) && |head| >= 4 && |p| >= 4 && h == Frame(head) && f == Frame(p)
    requires 8 <= off <= |h| && h[..off] + (f + h[off..]) == f + h
    ensures head[..4] == p[..4]
  {
    var s := h[..off] + (f + h[off..]);
    assert s[4..8] == h[4..8] == head[..4];
    assert (f + h)[4..8] == f[4..8] == p[..4];
  }

  lemma SameOrder(h: seq<byte>, off: nat, f: seq<byte>)
    requires off <= |h| && h[..off] + (f + h[off..]) == f + h
    ensures h[..off] + f == f + h[..off]
  {
    var u := h[..off];
    assert h == u + h[off..];
    assert u + f == (u + (f + h[off..]))[..off + |f|];
    assert f + u == (f + h)[..off + |f|];
  }

  /** The first byte comes again among bytes 4 to 7. */
  lemma FirstRepeats(u: seq<byte>, f: seq<byte>)
    requires 0 < |u| < 8 <= |f| && u + f == f + u
    ensures f[0] == f[4] || f[0] == f[5] || f[0] == f[6] || f[0] == f[7]
  {
    var n := |u|;
    Repeats(u, f, n);
    if n <= 3 { Repeats(u, f, 2 * n); }
    if n == 1 {
      Repeats(u, f, 3);
      Repeats(u, f, 4);
    }
  }

  /** Putting such a packet before an ordinary head leaves both whole exactly when no byte
      of the head is out, or the rest of the head happens to read the same before and
      after the packet's frame. */
  lemma FrontInsertIntactIff(head: seq<byte>, off: nat, p: seq<byte>)
    requires OrdinaryPacket(head) && FrontPacket(p) && off <= |head| + 4
    ensures var rest := Frame(head)[off..];
            Intact(head, off, p) <==> off == 0 || rest + Frame(p) == Frame(p) + rest
  {
    var f, h := Frame(p), Frame(head);
    var u, rest := h[..off], h[off..];
    assert h == u + rest;
    if off == 0 {
      assert u + (f + rest) == f + h;
    } else {
      FrontPacketNotFirst(head, off, p);
      Assoc(u, rest, f);
      if u + (f + rest) == u + (rest + f) { SameSuffix(u, f + rest, rest + f); }
    }
  }

  lemma SameSuffix(u: seq<byte>, a: seq<byte>, b: seq<byte>)
    requires u + a == u + b
    ensures a == b
  {
    assert a == (u + a)[|u|..] && b == (u + b)[|u|..];
  }

  const ZOO_SETAUTH_OP := 100

  /** What the client sends for one credential: a request header, a type that the server
      ignores, the scheme and the credential. */
  function AuthPacket(scheme: seq<byte>, auth: seq<byte>): (p: seq<byte>)
    requires |scheme| + |auth| + 20 < TWO31
    ensures FrontPacket(p) && (auth != [] ==> p[|p| - 1] == auth[|auth| - 1])
  {
    var p := Enc32(AUTH_XID) + Enc32(ZOO_SETAUTH_OP) + Enc32(0) + EncBytes(Some(scheme)) + EncBytes(Some(auth));
    assert p[..4] == Enc32(AUTH_XID);
    p
  }

  /** One byte of difference at the end keeps the rest of a head from commuting. */
  lemma DifferentEnds(head: seq<byte>, off: nat, p: seq<byte>)
    requires OrdinaryPacket(head) && FrontPacket(p) && 0 < off < |head| + 4
    requires Frame(head)[|head| + 3] != p[|p| - 1]
    ensures !Intact(head, off, p)
  {
    var rest := Frame(head)[off..];
    FrontInsertIntactIff(head, off, p);
    var n := |rest| + |Frame(p)|;
    assert (rest + Frame(p))[n - 1] == p[|p| - 1] && (Frame(p) + rest)[n - 1] == rest[|rest| - 1];
  }

  /** So putting packets in front is safe, whatever they hold, exactly when no byte of the
      head is out. Already the authentications under any one scheme, with a credential of
      a single byte, decide it. */
  lemma FrontInsertSafeIff(head: seq<byte>, off: nat, scheme: seq<byte>)
    requires OrdinaryPacket(head) && off < |head| + 4 && |scheme| + 21 < TWO31
    ensures (forall p | FrontPacket(p) :: Intact(head, off, p)) <==> off == 0
    ensures (forall c: byte :: Intact(head, off, AuthPacket(scheme, [c]))) <==> off == 0
  {
    if off == 0 {
      forall p | FrontPacket(p) ensures Intact(head, off, p) { FrontInsertIntactIff(head, off, p); }
    } else {
      var c: byte := if Frame(head)[|head| + 3] == 0 then 1 else 0;
      DifferentEnds(head, off, AuthPacket(scheme, [c]));
    }
  }
}
