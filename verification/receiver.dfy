/**
  The strict in-order receiver recebe_powerudp_com_ack (Projeto_client.c).
  Its function-local `static uint32_t expected_seq` becomes explicit state:
  one step takes the current expected number and one received datagram and
  returns the next expected number, the ACK or NAK it sends back and the
  payload it delivers, if any.
*/
module Receiver {
  import opened Common
  import opened Header
  import Sender

  /** The arguments of one envia_acknak call: the number answered and the `ack` byte (1 ACK, 2 NAK). */
  datatype Control = Control(seqNum: u32, tipo: u8)
  {
    /** The 8-byte packet envia_acknak sends for this call. */
    function Wire(): Bytes
    {
      EncodeControl(seqNum, tipo)
    }
  }

  /** What one call of the receiver does. */
  datatype Step = Step(expected: u32, reply: Control, delivered: Option<Bytes>)

  /**
    The datagrams the receiver handles without reading past what arrived,
    given the number it expects. The code copies the 8 header bytes out of
    its 512-byte buffer without comparing them with the received size. Only
    an in-order packet has its `length` payload bytes copied as well; an
    out-of-order one is refused before its `length` is used.
  */
  predicate Receivable(expected: u32, received: Bytes)
  {
    && HeaderSize <= |received| <= BufLen
    && (BeToU32(received) == expected ==> DecodeHeader(received).length <= |received| - HeaderSize)
  }

  /** expected_seq++ on a uint32_t. */
  function NextSeq(n: u32): (m: u32)
    ensures n < U32Modulus - 1 ==> m == n + 1
    ensures n == U32Modulus - 1 ==> m == 0
  {
    (n + 1) % U32Modulus
  }

  /**
    One call: a packet carrying the expected number is acknowledged, its
    `length` payload bytes are delivered and the expected number advances
    (wrapping at 2^32); any other number, behind or ahead, is refused with a
    NAK carrying the received number, nothing is delivered and the expected
    number stays. The `ack` and `flags` bytes are not looked at.
  */
  function Receive(expected: u32, received: Bytes): (r: Step)
    requires Receivable(expected, received)
    ensures r.reply.seqNum == BeToU32(received)
    ensures r.reply.tipo == (if r.delivered.Some? then KindAck else KindNak)
    ensures r.delivered.Some? <==> BeToU32(received) == expected
    ensures r.delivered.Some? ==>
      && HeaderSize + |r.delivered.value| <= |received|
      && r.delivered.value == received[HeaderSize..][..BeToU16(received[6..])]
      && r.expected == NextSeq(expected)
    ensures r.delivered.None? ==> r.expected == expected
  {
    var h := DecodeHeader(received);
    if h.seqNum != expected then
      Step(expected, Control(h.seqNum, KindNak), None)
    else
      Step(NextSeq(expected), Control(h.seqNum, KindAck), Some(received[HeaderSize..HeaderSize + h.length]))
  }

  /** The receiver called once per datagram, in arrival order. */
  datatype Run = Run(expected: u32, replies: seq<Control>, delivered: seq<Bytes>)

  /** Every datagram of the run is receivable at the number expected when it arrives. */
  predicate ReceivableRun(expected: u32, datagrams: seq<Bytes>)
    decreases |datagrams|
  {
    |datagrams| == 0 ||
      (Receivable(expected, datagrams[0]) && ReceivableRun(Receive(expected, datagrams[0]).expected, datagrams[1..]))
  }

  /** How many of the replies are ACKs. */
  function CountAcks(replies: seq<Control>): nat
  {
    if |replies| == 0 then 0
    else (if replies[0].tipo == KindAck then 1 else 0) + CountAcks(replies[1..])
  }

  /** Counting the ACKs among the first i replies of a run that starts with x. */
  lemma LemmaCountAcksCons(x: Control, ys: seq<Control>, i: nat)
    requires 1 <= i <= |ys| + 1
    ensures CountAcks(([x] + ys)[..i]) == (if x.tipo == KindAck then 1 else 0) + CountAcks(ys[..i - 1])
  {
    assert ([x] + ys)[..i][1..] == ys[..i - 1];
  }

  /** expected_seq++ applied n times. */
  function Advance(e: u32, n: nat): u32
    decreases n
  {
    if n == 0 then e else Advance(NextSeq(e), n - 1)
  }

  /** Advancing n times adds n modulo 2^32. */
  lemma {:induction false} LemmaAdvanceIsMod(e: u32, n: nat)
    decreases n
    ensures Advance(e, n) == (e + n) % U32Modulus
  {
    if n > 0 {
      LemmaAdvanceIsMod(NextSeq(e), n - 1);
      assert (NextSeq(e) + (n - 1)) % U32Modulus == ((e + 1) % U32Modulus + (n - 1)) % U32Modulus;
    }
  }

  /** A run that starts with step s and continues as rest. */
  function Prepend(s: Step, rest: Run): (r: Run)
    ensures r.replies == [s.reply] + rest.replies
    ensures r.delivered == (if s.delivered.Some? then [s.delivered.value] else []) + rest.delivered
    ensures r.expected == rest.expected
  {
    Run(rest.expected, [s.reply] + rest.replies, (if s.delivered.Some? then [s.delivered.value] else []) + rest.delivered)
  }

  /**
    The induction step for the ACK/NAK choice: if every reply of rest is an
    ACK exactly when its number is the one expected after the first step and
    the ACKs before it, the same holds of the whole run from `expected`.
  */
  lemma {:induction false} LemmaPrependAcks(expected: u32, datagrams: seq<Bytes>, rest: Run)
    requires |datagrams| > 0
    requires ReceivableRun(expected, datagrams)
    requires |rest.replies| == |datagrams| - 1
    requires forall i :: 0 <= i < |rest.replies| ==>
      (rest.replies[i].tipo == KindAck <==>
        rest.replies[i].seqNum == Advance(Receive(expected, datagrams[0]).expected, CountAcks(rest.replies[..i])))
    ensures var r := Prepend(Receive(expected, datagrams[0]), rest);
      forall i :: 0 <= i < |datagrams| ==>
        (r.replies[i].tipo == KindAck <==> r.replies[i].seqNum == Advance(expected, CountAcks(r.replies[..i])))
  {
    var s := Receive(expected, datagrams[0]);
    var r := Prepend(s, rest);
    assert r.replies[1..] == rest.replies;
    assert r.replies[..0] == [];
    forall i | 1 <= i < |datagrams|
      ensures r.replies[i].tipo == KindAck <==> r.replies[i].seqNum == Advance(expected, CountAcks(r.replies[..i]))
    {
      assert r.replies[i] == rest.replies[i - 1];
      LemmaCountAcksCons(s.reply, rest.replies, i);
    }
  }

  /**
    The induction step for deliveries: if the j-th ACK of rest comes with the
    j-th delivery of rest, holding that datagram's payload, then the same holds
    of the whole run, the first step's delivery included.
  */
  lemma {:induction false} LemmaPrependDelivers(expected: u32, datagrams: seq<Bytes>, rest: Run)
    requires |datagrams| > 0
    requires ReceivableRun(expected, datagrams)
    requires |rest.replies| == |datagrams| - 1
    requires |rest.delivered| == CountAcks(rest.replies)
    requires forall i :: 0 <= i < |rest.replies| && rest.replies[i].tipo == KindAck ==>
      && |datagrams[1..][i]| >= HeaderSize
      && BeToU16(datagrams[1..][i][6..]) <= |datagrams[1..][i]| - HeaderSize
      && CountAcks(rest.replies[..i]) < |rest.delivered|
      && rest.delivered[CountAcks(rest.replies[..i])] == datagrams[1..][i][HeaderSize..][..BeToU16(datagrams[1..][i][6..])]
    ensures var r := Prepend(Receive(expected, datagrams[0]), rest);
      forall i :: 0 <= i < |datagrams| && r.replies[i].tipo == KindAck ==>
        && |datagrams[i]| >= HeaderSize
        && BeToU16(datagrams[i][6..]) <= |datagrams[i]| - HeaderSize
        && CountAcks(r.replies[..i]) < |r.delivered|
        && r.delivered[CountAcks(r.replies[..i])] == datagrams[i][HeaderSize..][..BeToU16(datagrams[i][6..])]
  {
    var s := Receive(expected, datagrams[0]);
    var r := Prepend(s, rest);
    assert r.replies[1..] == rest.replies;
    assert r.replies[..0] == [];
    forall i | 1 <= i < |datagrams| && r.replies[i].tipo == KindAck
      ensures && |datagrams[i]| >= HeaderSize
              && BeToU16(datagrams[i][6..]) <= |datagrams[i]| - HeaderSize
              && CountAcks(r.replies[..i]) < |r.delivered|
              && r.delivered[CountAcks(r.replies[..i])] == datagrams[i][HeaderSize..][..BeToU16(datagrams[i][6..])]
    {
      assert r.replies[i] == rest.replies[i - 1] && datagrams[i] == datagrams[1..][i - 1];
      LemmaCountAcksCons(s.reply, rest.replies, i);
    }
  }

  /**
    The induction step for the rest of the contract: each reply carries its
    datagram's number and is an ACK or a NAK, the first is an ACK exactly when
    the number is `expected`, one delivery per ACK, and the expected number
    advances once per ACK.
  */
  lemma {:induction false} LemmaPrependReplies(expected: u32, datagrams: seq<Bytes>, rest: Run)
    requires |datagrams| > 0
    requires ReceivableRun(expected, datagrams)
    requires |rest.replies| == |datagrams| - 1
    requires forall i :: 0 <= i < |datagrams| - 1 ==>
      && |datagrams[1..][i]| >= HeaderSize
      && rest.replies[i].seqNum == BeToU32(datagrams[1..][i])
      && (rest.replies[i].tipo == KindAck || rest.replies[i].tipo == KindNak)
    requires |rest.delivered| == CountAcks(rest.replies)
    requires rest.expected == Advance(Receive(expected, datagrams[0]).expected, CountAcks(rest.replies))
    ensures var r := Prepend(Receive(expected, datagrams[0]), rest);
      && |r.replies| == |datagrams|
      && (forall i :: 0 <= i < |datagrams| ==>
            && |datagrams[i]| >= HeaderSize
            && r.replies[i].seqNum == BeToU32(datagrams[i])
            && (r.replies[i].tipo == KindAck || r.replies[i].tipo == KindNak))
      && (r.replies[0].tipo == KindAck <==> BeToU32(datagrams[0]) == expected)
      && |r.delivered| == CountAcks(r.replies)
      && r.expected == Advance(expected, CountAcks(r.replies))
  {
    var r := Prepend(Receive(expected, datagrams[0]), rest);
    assert r.replies[1..] == rest.replies;
    assert forall i :: 1 <= i < |datagrams| ==> r.replies[i] == rest.replies[i - 1] && datagrams[i] == datagrams[1..][i - 1];
  }

  /**
    Each datagram is answered by one ACK or NAK carrying that datagram's own
    number, and it is an ACK exactly when that number is the initial expected
    number advanced once per ACK sent before it. The j-th ACK comes with the
    j-th delivery, which is that datagram's `length` payload bytes, and
    nothing else is delivered. The final expected number is the initial one
    advanced once per ACK.
  */
  function ReceiveAll(expected: u32, datagrams: seq<Bytes>): (r: Run)
    requires ReceivableRun(expected, datagrams)
    decreases |datagrams|
    ensures |r.replies| == |datagrams|
    ensures forall i :: 0 <= i < |datagrams| ==>
      && |datagrams[i]| >= HeaderSize
      && r.replies[i].seqNum == BeToU32(datagrams[i])
      && (r.replies[i].tipo == KindAck || r.replies[i].tipo == KindNak)
    ensures |datagrams| > 0 ==> (r.replies[0].tipo == KindAck <==> BeToU32(datagrams[0]) == expected)
    ensures forall i :: 0 <= i < |datagrams| ==>
      (r.replies[i].tipo == KindAck <==> r.replies[i].seqNum == Advance(expected, CountAcks(r.replies[..i])))
    ensures |r.delivered| == CountAcks(r.replies)
    ensures forall i :: 0 <= i < |datagrams| && r.replies[i].tipo == KindAck ==>
      && |datagrams[i]| >= HeaderSize
      && BeToU16(datagrams[i][6..]) <= |datagrams[i]| - HeaderSize
      && CountAcks(r.replies[..i]) < |r.delivered|
      && r.delivered[CountAcks(r.replies[..i])] == datagrams[i][HeaderSize..][..BeToU16(datagrams[i][6..])]
    ensures r.expected == Advance(expected, CountAcks(r.replies))
  {
    if |datagrams| == 0 then Run(expected, [], [])
    else
      var s := Receive(expected, datagrams[0]);
      var rest := ReceiveAll(s.expected, datagrams[1..]);
      LemmaPrependReplies(expected, datagrams, rest);
      LemmaPrependAcks(expected, datagrams, rest);
      LemmaPrependDelivers(expected, datagrams, rest);
      Prepend(s, rest)
  }

  /** expected_seq counts the delivered packets, modulo 2^32. */
  lemma LemmaExpectedCountsDeliveries(expected: u32, datagrams: seq<Bytes>)
    requires ReceivableRun(expected, datagrams)
    ensures var r := ReceiveAll(expected, datagrams);
      r.expected == (expected + |r.delivered|) % U32Modulus
  {
    var r := ReceiveAll(expected, datagrams);
    LemmaAdvanceIsMod(expected, |r.delivered|);
  }

  /**
    An out-of-order datagram is refused whatever its `length` field says:
    any 8 to 512 bytes whose number is not the expected one are receivable,
    answered with a NAK carrying that number, and change nothing.
  */
  lemma LemmaOutOfOrderIgnoresLength(expected: u32, received: Bytes)
    requires HeaderSize <= |received| <= BufLen
    requires BeToU32(received) != expected
    ensures Receivable(expected, received)
    ensures Receive(expected, received) == Step(expected, Control(BeToU32(received), KindNak), None)
  {
  }

  /**
    A run of datagrams whose `length` fields all fit in the bytes received is
    receivable from any expected number.
  */
  lemma {:induction false} LemmaFittingRunReceivable(expected: u32, datagrams: seq<Bytes>)
    requires forall i :: 0 <= i < |datagrams| ==>
      HeaderSize <= |datagrams[i]| <= BufLen && DecodeHeader(datagrams[i]).length <= |datagrams[i]| - HeaderSize
    decreases |datagrams|
    ensures ReceivableRun(expected, datagrams)
  {
    if |datagrams| > 0 {
      assert forall i :: 0 <= i < |datagrams| - 1 ==> datagrams[1..][i] == datagrams[i + 1];
      LemmaFittingRunReceivable(Receive(expected, datagrams[0]).expected, datagrams[1..]);
    }
  }

  /**
    The two ends agree: the receiver's reply to a data packet carrying the
    number it expects is an ACK the sender accepts for that number, and the
    payload delivered is the one sent; its reply to any other number is a
    NAK, which the sender does not accept.
  */
  lemma LemmaReplyMatchesSender(expected: u32, seqNum: u32, payload: Bytes)
    requires SendablePayload(payload)
    ensures Receivable(expected, EncodeData(seqNum, payload))
    ensures var r := Receive(expected, EncodeData(seqNum, payload));
      && (Sender.Acknowledges(Sender.Reply(r.reply.Wire()), seqNum) <==> seqNum == expected)
      && (seqNum == expected ==> r.delivered == Some(payload))
  {
    var packet := EncodeData(seqNum, payload);
    assert DecodeHeader(packet) == PowerUdpHeader(seqNum, KindData, 0, |payload|);
    assert packet[HeaderSize..][..|payload|] == payload;
    var r := Receive(expected, packet);
    Sender.LemmaAcknowledgesDecodes(Sender.Reply(r.reply.Wire()), seqNum);
  }

  /**
    A sender whose first transmission reaches a receiver expecting its number
    finishes after one transmission; one whose number the receiver does not
    expect gets a NAK and spends the attempt.
  */
  lemma LemmaFirstAttemptAgainstReceiver(expected: u32, seqNum: u32, payload: Bytes, later: seq<Sender.Outcome>)
    requires SendablePayload(payload)
    requires |later| >= Sender.MaxRetries - 1
    ensures Receivable(expected, EncodeData(seqNum, payload))
    ensures var reply := Receive(expected, EncodeData(seqNum, payload)).reply.Wire();
      var report := Sender.SendReliable(seqNum, payload, [Sender.Reply(reply)] + later);
      && (seqNum == expected ==> report.acknowledged && |report.attempts| == 1)
      && (seqNum != expected ==> |report.attempts| >= 2)
  {
    LemmaReplyMatchesSender(expected, seqNum, payload);
    var reply := Receive(expected, EncodeData(seqNum, payload)).reply.Wire();
    var outcomes := [Sender.Reply(reply)] + later;
    assert outcomes[0] == Sender.Reply(reply);
    if seqNum != expected {
      Sender.LemmaEveryReplyConsumesAttempt(seqNum, payload, outcomes, 0);
    }
  }

  /**
    The second half of a whole exchange (register, get "ACK", send packet 0,
    send packet 0 again, get a NAK), on the data channel: a receiver expecting 0
    delivers the packet numbered 0 and then expects 1; the same packet sent
    again is refused with a NAK for 0 and not delivered a second time.
  */
  lemma LemmaDuplicateRefused(payload: Bytes)
    requires SendablePayload(payload)
    ensures ReceivableRun(0, [EncodeData(0, payload), EncodeData(0, payload)])
    ensures var run := ReceiveAll(0, [EncodeData(0, payload), EncodeData(0, payload)]);
      && run.delivered == [payload]
      && run.expected == 1
      && run.replies == [Control(0, KindAck), Control(0, KindNak)]
  {
    var packet := EncodeData(0, payload);
    LemmaReplyMatchesSender(0, 0, payload);
    assert DecodeHeader(packet) == PowerUdpHeader(0, KindData, 0, |payload|);
    var ds := [packet, packet];
    assert ds[1..] == [packet];
    var first := Receive(0, packet);
    assert first.expected == 1 && first.delivered == Some(payload);
    var second := Receive(1, packet);
    assert second.expected == 1 && second.delivered == None;
    var empty: seq<Bytes> := [];
    assert ds[1..][1..] == empty;
    assert ReceiveAll(1, empty).expected == 1;
    assert ReceiveAll(1, ds[1..]).expected == 1;
  }
}
