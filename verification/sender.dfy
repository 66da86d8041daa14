/**
  The stop-and-wait sender envia_powerudp_confiavel (Projeto_client.c). Each
  loop iteration transmits the same data packet once, requests a receive
  wait of TMIN * 2^k ms for 0-indexed attempt k, reads one reply through
  ler_header and counts the attempt, whatever the reply was. The loop ends on
  the first ACK for the packet's own sequence number or after MAX_RETRIES
  transmissions. What the network does on attempt k is the k-th Outcome.
*/
module Sender {
  import opened Common
  import opened Header

  /** MAX_RETRIES: the hard-coded bound on transmissions. */
  const MaxRetries: nat := 5
  /** TMIN: the base receive timeout, in milliseconds. */
  const TMin: nat := 500

  /** What the receive call of one attempt returned. */
  datatype Outcome =
    | Timeout               // recvfrom timed out or failed
    | Reply(datagram: Bytes) // the bytes of one received datagram

  /** One loop iteration: the packet transmitted and the receive wait requested after it. */
  datatype Attempt = Attempt(packet: Bytes, waitMs: nat)

  /** Every iteration the loop ran, and whether an ACK ended it. */
  datatype SendReport = SendReport(attempts: seq<Attempt>, acknowledged: bool)

  function Pow2(k: nat): (r: nat)
    ensures r >= 1
  {
    if k == 0 then 1 else 2 * Pow2(k - 1)
  }

  /** The receive wait of 0-indexed attempt k: TMIN * (1 << k) ms. */
  function WaitMs(k: nat): nat
  {
    TMin * Pow2(k)
  }

  /** Backoff is always on: the first wait is TMIN and each wait doubles the previous one. */
  lemma LemmaBackoffDoubles(k: nat)
    ensures WaitMs(0) == TMin
    ensures WaitMs(k + 1) == 2 * WaitMs(k)
  {
  }

  /**
    The reply ends the loop: ler_header returned a positive length (at least
    8 bytes arrived) and the header is an ACK for seqNum. A NAK, an ACK for
    another number, a data packet and a short datagram all leave the loop
    running.
  */
  predicate Acknowledges(o: Outcome, seqNum: u32)
  {
    && o.Reply?
    && |o.datagram| >= HeaderSize
    && o.datagram[4] == KindAck
    && BeToU32(o.datagram) == seqNum
  }

  /** Acknowledges reads exactly the fields ler_header decodes. */
  lemma LemmaAcknowledgesDecodes(o: Outcome, seqNum: u32)
    requires o.Reply?
    ensures Acknowledges(o, seqNum) <==>
      var h := ReadHeader(o.datagram);
      h.Some? && h.value.ack == KindAck && h.value.seqNum == seqNum
  {
  }

  /**
    The loop from iteration k on (tentativas == k, ack_recebido == 0), where
    packet is what envia_powerudp transmits on every iteration.
  */
  function SendFrom(seqNum: u32, packet: Bytes, outcomes: seq<Outcome>, k: nat): (r: SendReport)
    requires k <= MaxRetries <= |outcomes|
    decreases MaxRetries - k
    ensures |r.attempts| <= MaxRetries - k
    ensures forall i :: 0 <= i < |r.attempts| ==> r.attempts[i] == Attempt(packet, WaitMs(k + i))
    ensures forall i :: k <= i < k + |r.attempts| - 1 ==> !Acknowledges(outcomes[i], seqNum)
    ensures r.acknowledged <==> |r.attempts| > 0 && Acknowledges(outcomes[k + |r.attempts| - 1], seqNum)
    ensures !r.acknowledged ==> |r.attempts| == MaxRetries - k
  {
    if k == MaxRetries then SendReport([], false)
    else
      var attempt := Attempt(packet, WaitMs(k));
      if Acknowledges(outcomes[k], seqNum) then SendReport([attempt], true)
      else
        var rest := SendFrom(seqNum, packet, outcomes, k + 1);
        var r := SendReport([attempt] + rest.attempts, rest.acknowledged);
        assert forall i :: 1 <= i < |r.attempts| ==> r.attempts[i] == rest.attempts[i - 1];
        r
  }

  /**
    envia_powerudp_confiavel, given the outcome of each of the (at most five)
    receive calls. Exactly k + 1 transmissions when the first matching ACK
    is the reply to attempt k; exactly MAX_RETRIES and a failure when no
    attempt sees one.
  */
  function SendReliable(seqNum: u32, payload: Bytes, outcomes: seq<Outcome>): (r: SendReport)
    requires SendablePayload(payload)
    requires |outcomes| >= MaxRetries
    ensures 1 <= |r.attempts| <= MaxRetries
    ensures forall i :: 0 <= i < |r.attempts| ==>
              r.attempts[i] == Attempt(EncodeData(seqNum, payload), WaitMs(i))
    ensures r.acknowledged <==> exists i :: 0 <= i < MaxRetries && Acknowledges(outcomes[i], seqNum)
    ensures forall k :: (0 <= k < MaxRetries && Acknowledges(outcomes[k], seqNum) &&
              forall j :: 0 <= j < k ==> !Acknowledges(outcomes[j], seqNum)) ==>
              r.acknowledged && |r.attempts| == k + 1
    ensures !r.acknowledged ==> |r.attempts| == MaxRetries
  {
    SendFrom(seqNum, EncodeData(seqNum, payload), outcomes, 0)
  }

  /**
    Every reply consumes an attempt: when none of the first k + 1 outcomes is
    a matching ACK, NAKs included, at least k + 2 transmissions happen, or
    the send fails after MAX_RETRIES. There is no fast-retry path that
    skips the count.
  */
  lemma LemmaEveryReplyConsumesAttempt(seqNum: u32, payload: Bytes, outcomes: seq<Outcome>, k: nat)
    requires SendablePayload(payload)
    requires k < MaxRetries <= |outcomes|
    requires forall j :: 0 <= j <= k ==> !Acknowledges(outcomes[j], seqNum)
    ensures k + 1 < MaxRetries ==> k + 2 <= |SendReliable(seqNum, payload, outcomes).attempts|
    ensures k + 1 == MaxRetries ==> !SendReliable(seqNum, payload, outcomes).acknowledged
  {
  }

  /** A NAK for any sequence number never acknowledges a send. */
  lemma LemmaNakNeverAcknowledges(nakSeq: u32, seqNum: u32)
    ensures !Acknowledges(Reply(EncodeControl(nakSeq, KindNak)), seqNum)
  {
  }

  /**
    The client's destination is its own bound port, so its first reply can be
    its own data packet echoed back; a data packet never acknowledges. When
    every reply is that echo, the send fails after exactly MAX_RETRIES
    transmissions.
  */
  lemma LemmaOwnEchoFails(seqNum: u32, payload: Bytes, outcomes: seq<Outcome>)
    requires SendablePayload(payload)
    requires |outcomes| >= MaxRetries
    requires forall i :: 0 <= i < MaxRetries ==> outcomes[i] == Reply(EncodeData(seqNum, payload))
    ensures !SendReliable(seqNum, payload, outcomes).acknowledged
    ensures |SendReliable(seqNum, payload, outcomes).attempts| == MaxRetries
  {
  }
}
