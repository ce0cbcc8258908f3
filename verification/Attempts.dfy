/** Retried exchanges: which attempt gives the result, and what a reading is on the
    wire. */
module Attempts {
  import opened Base
  import opened Frames
  import opened Exchange

  /** The transfer with which the k-th attempt starts. */
  function AttemptAt(answers: Answers, n: nat, k: nat): nat
    decreases k
  { if k == 0 then n else AttemptAt(answers, After(answers, n), k - 1) }

  /** Each attempt is one failed write, or a write and a read. */
  lemma {:induction false} AttemptsCount(answers: Answers, n: nat, k: nat)
    ensures AttemptAt(answers, n, k + 1) ==
            AttemptAt(answers, n, k) + if answers(AttemptAt(answers, n, k)).Some? then 2 else 1
    decreases k
  {
    if k > 0 { AttemptsCount(answers, After(answers, n), k - 1); }
  }

  /** The first fragment that is accepted, after so many exchanges that gave none. */
  lemma {:induction false} RetryMeans(answers: Answers, n: nat, offset: nat, tries: nat)
    ensures var r := Retry(answers, n, offset, tries);
            && r.exchanges <= tries && r.next == AttemptAt(answers, n, r.exchanges)
            && (r.result.None? ==>
                  r.exchanges == tries && forall k: nat | k < tries ::
                      FragmentAt(answers, AttemptAt(answers, n, k), offset).None?)
            && (r.result.Some? ==>
                  && r.exchanges > 0 && r.result == FragmentAt(answers, AttemptAt(answers, n, r.exchanges - 1), offset)
                  && forall k: nat | k < r.exchanges - 1 :: FragmentAt(answers, AttemptAt(answers, n, k), offset).None?)
    decreases tries
  {
    hide FragmentAt, After;
    if tries > 0 && FragmentAt(answers, n, offset).None? {
      RetryMeans(answers, After(answers, n), offset, tries - 1);
      forall k: nat | 0 < k
        ensures AttemptAt(answers, n, k) == AttemptAt(answers, After(answers, n), k - 1)
      {
      }
    }
  }

  lemma {:induction false} ControlMeans(answers: Answers, n: nat, code: Byte, tries: nat)
    ensures var r := ControlWithin(answers, n, code, tries);
            && r.exchanges <= tries && r.next == AttemptAt(answers, n, r.exchanges)
            && (r.result.None? ==>
                  r.exchanges == tries && forall k: nat | k < tries ::
                      ControlAt(answers, AttemptAt(answers, n, k), code).None?)
            && (r.result.Some? ==>
                  && r.exchanges > 0 && r.result == ControlAt(answers, AttemptAt(answers, n, r.exchanges - 1), code)
                  && forall k: nat | k < r.exchanges - 1 :: ControlAt(answers, AttemptAt(answers, n, k), code).None?)
    decreases tries
  {
    hide ControlAt, After;
    if tries > 0 && ControlAt(answers, n, code).None? {
      ControlMeans(answers, After(answers, n), code, tries - 1);
      forall k: nat | 0 < k
        ensures AttemptAt(answers, n, k) == AttemptAt(answers, After(answers, n), k - 1)
      {
      }
    }
  }

  lemma {:induction false} EdidMeans(answers: Answers, n: nat, valid: Bytes -> bool, tries: nat)
    ensures var r := EdidWithin(answers, n, valid, tries);
            && r.exchanges <= tries && r.next == AttemptAt(answers, n, r.exchanges)
            && (r.result.None? ==>
                  r.exchanges == tries && forall k: nat | k < tries ::
                      EdidAt(answers, AttemptAt(answers, n, k), valid).None?)
            && (r.result.Some? ==>
                  && r.exchanges > 0 && r.result == EdidAt(answers, AttemptAt(answers, n, r.exchanges - 1), valid)
                  && forall k: nat | k < r.exchanges - 1 :: EdidAt(answers, AttemptAt(answers, n, k), valid).None?)
    decreases tries
  {
    hide EdidAt, After;
    if tries > 0 && EdidAt(answers, n, valid).None? {
      EdidMeans(answers, After(answers, n), valid, tries - 1);
      forall k: nat | 0 < k
        ensures AttemptAt(answers, n, k) == AttemptAt(answers, After(answers, n), k - 1)
      {
      }
    }
  }

  /** What is read is exactly one checksummed frame with a Get VCP reply for the
      control. */
  ghost predicate HoldsReading(read: Bytes, code: Byte, reply: VcpReply) {
    && reply.value < 0x1_0000 && reply.maximum < 0x1_0000
    && exists result: Byte, kind: Byte, flag: bool ::
         && reply.supported == (result == 0)
         && Fit(read, 11) == Reply(0x37, VcpPayload(result, code, kind, reply.value, reply.maximum), flag)
  }

  /** A reading: both transfers succeed, and such a frame is read. */
  lemma ReadingMeans(answers: Answers, n: nat, code: Byte, reply: VcpReply)
    ensures ControlAt(answers, n, code) == Some(reply) <==>
            answers(n).Some? && answers(n + 1).Some? && HoldsReading(answers(n + 1).value, code, reply)
  {
    hide HoldsReading, ParseFrame;
    if answers(n).Some? && answers(n + 1).Some? {
      if ControlAt(answers, n, code) == Some(reply) { ReadIsHeld(answers(n + 1).value, code, reply); }
      if HoldsReading(answers(n + 1).value, code, reply) { HeldIsRead(answers(n + 1).value, code, reply); }
    }
  }

  lemma ReadIsHeld(read: Bytes, code: Byte, reply: VcpReply)
    requires ParseFrame(0x37, Fit(read, 11), 8).Some?
    requires ParseVcpReply(ParseFrame(0x37, Fit(read, 11), 8).value, code) == Some(reply)
    ensures HoldsReading(read, code, reply)
  {
    hide ParseFrame, Reply, ParseVcpReply;
    var input := Fit(read, 11);
    var payload := ParseFrame(0x37, input, 8).value;
    VcpReplyMeans(payload, code, reply.value, reply.maximum, reply.supported);
    var result: Byte, kind: Byte :| reply.supported == (result == 0) && payload ==
      [0x02, result, code, kind, reply.maximum / 0x100, reply.maximum % 0x100, reply.value / 0x100,
          reply.value % 0x100];
    assert payload == VcpPayload(result, code, kind, reply.value, reply.maximum);
    ParseFrameExact(0x37, input, 8, payload);
    NoPadding(input, payload);
  }

  lemma HeldIsRead(read: Bytes, code: Byte, reply: VcpReply)
    requires HoldsReading(read, code, reply)
    ensures ParseFrame(0x37, Fit(read, 11), 8).Some?
    ensures ParseVcpReply(ParseFrame(0x37, Fit(read, 11), 8).value, code) == Some(reply)
  {
    hide ParseFrame, Reply, ParseVcpReply;
    var input := Fit(read, 11);
    var result: Byte, kind: Byte, flag: bool :|
      reply.supported == (result == 0)
          && input == Reply(0x37, VcpPayload(result, code, kind, reply.value, reply.maximum), flag);
    var payload := VcpPayload(result, code, kind, reply.value, reply.maximum);
    NoPadding(input, payload);
    ParseFrameExact(0x37, input, 8, payload);
    VcpReplyMeans(payload, code, reply.value, reply.maximum, reply.supported);
  }

  function VcpPayload(result: Byte, code: Byte, kind: Byte, value: nat, maximum: nat): Bytes
    requires value < 0x1_0000 && maximum < 0x1_0000
  { [0x02, result, code, kind, maximum / 0x100, maximum % 0x100, value / 0x100, value % 0x100] }

  lemma NoPadding(input: Bytes, payload: Bytes)
    requires |payload| == 8 && |input| == 11
    ensures Framed(0x37, input, payload) <==> exists flag :: input == Reply(0x37, payload, flag)
  {
    hide Checksum;
    if Framed(0x37, input, payload) {
      var flag: bool, padding: Bytes :| input == Reply(0x37, payload, flag) + padding;
      assert padding == [];
      assert input == Reply(0x37, payload, flag);
    }
    forall flag | input == Reply(0x37, payload, flag)
      ensures Framed(0x37, input, payload)
    { assert input == Reply(0x37, payload, flag) + []; }
  }

  /** On the bus: the host's address, the flagged length, the payload and a byte that
      makes every bit even, counting the monitor's own address. */
  lemma RequestParity(payload: Bytes, i: nat)
    requires |payload| <= 127 && i < 8
    ensures var frame := Request(DDC_ADDRESS, payload);
            && |frame| == |payload| + 3 && frame[0] == 0x51 && frame[1] == 0x80 + |payload|
                && frame[2..|payload| + 2] == payload
            && (Bit(0x6E, i) + BitSum(frame, i)) % 2 == 0
  {
    hide Checksum, Bit, BitSum;
    RequestChecks(DDC_ADDRESS, payload);
    ChecksumBits(2 * DDC_ADDRESS, Request(DDC_ADDRESS, payload), i);
    ZeroBits(i);
  }

  lemma {:induction false} ZeroBits(i: nat)
    ensures Bit(0, i) == 0
    decreases i
  {
    if i > 0 { ZeroBits(i - 1); }
  }

  /** A reply starts with the monitor's address, and its parity counts the virtual
      host address. */
  lemma ReplyParity(payload: Bytes, flag: bool, i: nat)
    requires |payload| <= 127 && i < 8
    ensures var frame := Reply(DDC_ADDRESS, payload, flag);
            && |frame| == |payload| + 3 && frame[0] == 0x6E && frame[1] % 128 == |payload|
                && frame[2..|payload| + 2] == payload
            && (frame[1] >= 128 <==> flag) && (Bit(0x50, i) + BitSum(frame, i)) % 2 == 0
  {
    hide Checksum, Bit, BitSum;
    var frame := Reply(DDC_ADDRESS, payload, flag);
    ChecksumLast(REPLY_SEED, frame[..|frame| - 1], frame[|frame| - 1]);
    assert frame == frame[..|frame| - 1] + [frame[|frame| - 1]];
    ChecksumBits(REPLY_SEED, frame, i);
    ZeroBits(i);
  }
}
