/** DDC/CI frames (section 4 of VESA DDC/CI 1.1): an XOR checksum over a declared
    prefix, with padding ignored. */
module Frames {
  import opened Base

  const MAX_PAYLOAD: nat := 127
  const OVERHEAD: nat := 3
  const HOST_ADDRESS: Byte := 0x51
  const LENGTH_FLAG: Byte := 0x80
  const REPLY_SEED: Byte := 0x50

  // ----- Exclusive or, bit by bit -----

  function Pow2(w: nat): nat { if w == 0 then 1 else 2 * Pow2(w - 1) }

  function XorBits(a: nat, b: nat, w: nat): (r: nat)
    requires a < Pow2(w) && b < Pow2(w)
    ensures r < Pow2(w) && (r == 0 <==> a == b)
  {
    if w == 0 then 0
    else 2 * XorBits(a / 2, b / 2, w - 1) + if a % 2 == b % 2 then 0 else 1
  }

  lemma Pow2Eight()
    ensures Pow2(8) == 256
  {
    assert Pow2(4) == 16;
  }

  function Xor(a: Byte, b: Byte): (r: Byte)
    ensures r == 0 <==> a == b
  { Pow2Eight(); XorBits(a, b, 8) }

  function Checksum(seed: Byte, bytes: Bytes): Byte
    decreases |bytes|
  { if bytes == [] then seed else Xor(Checksum(seed, bytes[..|bytes| - 1]), bytes[|bytes| - 1]) }

  lemma ChecksumLast(seed: Byte, body: Bytes, last: Byte)
    ensures Checksum(seed, body + [last]) == 0 <==> last == Checksum(seed, body)
  {
    assert (body + [last])[..|body|] == body;
  }

  // ----- Requests -----

  function RequestBody(payload: Bytes): Bytes
    requires |payload| <= MAX_PAYLOAD
  { [HOST_ADDRESS, LENGTH_FLAG + |payload|] + payload }

  /** The bytes of a request to a seven-bit address. */
  function Request(address: Byte, payload: Bytes): Bytes
    requires address <= 0x7F && |payload| <= MAX_PAYLOAD
  { RequestBody(payload) + [Checksum(2 * address, RequestBody(payload))] }

  /** `build_frame` fills a fixed buffer and says how much of it is the frame. */
  method BuildFrame(address: Byte, payload: Bytes, buffer: array<Byte>) returns (length: Option<nat>)
    requires buffer.Length == MAX_PAYLOAD + OVERHEAD
    modifies buffer
    ensures length.Some? <==> address <= 0x7F && |payload| <= MAX_PAYLOAD
    ensures length.Some? ==> length.value <= buffer.Length && buffer[..length.value] == Request(address, payload)
  {
    if address > 0x7F || |payload| > MAX_PAYLOAD { return None; }
    var n := |payload| + OVERHEAD;
    buffer[0] := HOST_ADDRESS;
    buffer[1] := LENGTH_FLAG + |payload|;
    for i := 0 to |payload|
      invariant buffer[0] == HOST_ADDRESS && buffer[1] == LENGTH_FLAG + |payload|
      invariant forall k | 0 <= k < i :: buffer[2 + k] == payload[k]
    {
      buffer[2 + i] := payload[i];
    }
    assert buffer[..n - 1] == RequestBody(payload);
    buffer[n - 1] := Checksum(2 * address, buffer[..n - 1]);
    assert buffer[..n] == Request(address, payload);
    length := Some(n);
  }

  /** With the destination address, the bytes of a request cancel out. */
  lemma RequestChecks(address: Byte, payload: Bytes)
    requires address <= 0x7F && |payload| <= MAX_PAYLOAD
    ensures Checksum(2 * address, Request(address, payload)) == 0
  {
    ChecksumLast(2 * address, RequestBody(payload), Checksum(2 * address, RequestBody(payload)));
  }

  // ----- Replies -----

  /** `parse_frame`: the declared prefix must cancel out; what follows is padding. */
  function ParseFrame(address: Byte, input: Bytes, limit: nat): (r: Option<Bytes>)
    ensures r.Some? ==> |r.value| <= limit && |r.value| <= MAX_PAYLOAD
  {
    if address > 0x7F || |input| < OVERHEAD || input[0] != 2 * address then None
    else
      var n := input[1] % 128;
      if n > limit || |input| < n + OVERHEAD || Checksum(REPLY_SEED, input[..n + OVERHEAD]) != 0 then None
      else Some(input[2..n + 2])
  }

  /** The bytes of a reply; some monitors leave the length flag out. */
  function Reply(address: Byte, payload: Bytes, flag: bool): Bytes
    requires address <= 0x7F && |payload| <= MAX_PAYLOAD
  {
    var body := [2 * address, if flag then LENGTH_FLAG + |payload| else |payload|] + payload;
    body + [Checksum(REPLY_SEED, body)]
  }

  ghost predicate Framed(address: Byte, input: Bytes, payload: Bytes)
    requires address <= 0x7F
  {
    |payload| <= MAX_PAYLOAD &&
    exists flag: bool, padding: Bytes :: input == Reply(address, payload, flag) + padding
  }

  /** A reply is accepted exactly when it is a well-formed frame of that payload
      followed by anything at all. */
  lemma ParseFrameExact(address: Byte, input: Bytes, limit: nat, payload: Bytes)
    requires address <= 0x7F
    ensures ParseFrame(address, input, limit) == Some(payload) <==>
            |payload| <= limit && Framed(address, input, payload)
  {
    hide Checksum;
    if ParseFrame(address, input, limit) == Some(payload) { AcceptedIsFramed(address, input, limit); }
    if |payload| <= limit && Framed(address, input, payload) { FramedIsAccepted(address, input, limit, payload); }
  }

  lemma AcceptedIsFramed(address: Byte, input: Bytes, limit: nat)
    requires address <= 0x7F && ParseFrame(address, input, limit).Some?
    ensures Framed(address, input, ParseFrame(address, input, limit).value)
  {
    hide Checksum;
    var n := input[1] % 128;
    var payload := input[2..n + 2];
    var body, last := [input[0], input[1]] + payload, input[n + 2];
    assert input[..n + OVERHEAD] == body + [last];
    ChecksumLast(REPLY_SEED, body, last);
    assert input == Reply(address, payload, input[1] >= 128) + input[n + OVERHEAD..];
  }

  lemma FramedIsAccepted(address: Byte, input: Bytes, limit: nat, payload: Bytes)
    requires address <= 0x7F && |payload| <= limit && Framed(address, input, payload)
    ensures ParseFrame(address, input, limit) == Some(payload)
  {
    hide Checksum;
    var flag, padding :| input == Reply(address, payload, flag) + padding;
    var n := |payload|;
    var body, last := [input[0], input[1]] + payload, input[n + 2];
    assert input[..n + OVERHEAD] == body + [last];
    ChecksumLast(REPLY_SEED, body, last);
    assert input[2..n + 2] == payload;
  }

  // ----- Reply payloads -----

  function Word(high: Byte, low: Byte): nat { var h: int := high; 256 * h + low }

  /** `parse_caps_reply`: the fragment after a validated command and offset. */
  function ParseCapsReply(payload: Bytes, offset: nat): (r: Option<Bytes>)
    ensures r.Some? ==> |r.value| + 3 == |payload|
  {
    if !(3 <= |payload| <= MAX_PAYLOAD) || payload[0] != 0xE3 || Word(payload[1], payload[2]) != offset then None
    else Some(payload[3..])
  }

  datatype VcpReply = VcpReply(supported: bool, value: nat, maximum: nat)

  /** `parse_vcp_reply`. */
  function ParseVcpReply(payload: Bytes, control: Byte): Option<VcpReply> {
    if |payload| != 8 || payload[0] != 0x02 || payload[2] != control then None
    else Some(VcpReply(payload[1] == 0, Word(payload[6], payload[7]), Word(payload[4], payload[5])))
  }

  /** The capabilities reply: command 0xE3, the offset with its high byte first, and
      the fragment. */
  lemma CapsReplyMeans(payload: Bytes, offset: nat, fragment: Bytes)
    ensures ParseCapsReply(payload, offset) == Some(fragment) <==>
            && offset < 0x1_0000 && |fragment| <= 124
            && payload == [0xE3, offset / 0x100, offset % 0x100] + fragment
  {
    if ParseCapsReply(payload, offset) == Some(fragment) {
      assert payload == [payload[0], payload[1], payload[2]] + payload[3..];
    }
    if offset < 0x1_0000 && payload == [0xE3, offset / 0x100, offset % 0x100] + fragment {
      assert payload[3..] == fragment;
    }
  }

  /** The Get VCP reply: command 2, a result that is zero for a supported control, the
      control, its type, then maximum and value with their high bytes first. */
  lemma VcpReplyMeans(payload: Bytes, control: Byte, value: nat, maximum: nat, supported: bool)
    ensures ParseVcpReply(payload, control) == Some(VcpReply(supported, value, maximum)) <==>
            && value < 0x1_0000 && maximum < 0x1_0000
            && exists result: Byte, kind: Byte ::
                 && supported == (result == 0)
                 && payload == [0x02, result, control, kind, maximum / 0x100, maximum % 0x100, value / 0x100,
                     value % 0x100]
  {
    if ParseVcpReply(payload, control) == Some(VcpReply(supported, value, maximum)) {
      assert payload == [0x02, payload[1], control, payload[3], maximum / 0x100, maximum % 0x100, value / 0x100,
          value % 0x100];
    }
  }

  // ----- Exclusive or, by bits -----

  function Bit(n: nat, i: nat): nat { if i == 0 then n % 2 else Bit(n / 2, i - 1) }

  lemma {:induction false} XorBitsMeans(a: nat, b: nat, w: nat, i: nat)
    requires a < Pow2(w) && b < Pow2(w) && i < w
    ensures Bit(XorBits(a, b, w), i) == if Bit(a, i) == Bit(b, i) then 0 else 1
    decreases i
  {
    var r := XorBits(a, b, w);
    assert r / 2 == XorBits(a / 2, b / 2, w - 1) && r % 2 == if a % 2 == b % 2 then 0 else 1;
    if i > 0 { XorBitsMeans(a / 2, b / 2, w - 1, i - 1); }
  }

  /** A bit of the checksum's sum is set exactly where the bits differ. */
  lemma XorMeans(a: Byte, b: Byte, i: nat)
    requires i < 8
    ensures Bit(Xor(a, b), i) == if Bit(a, i) == Bit(b, i) then 0 else 1
  {
    Pow2Eight();
    XorBitsMeans(a, b, 8, i);
  }

  /** Every byte takes part in the checksum, and so does the seed. */
  lemma {:induction false} ChecksumBits(seed: Byte, bytes: Bytes, i: nat)
    requires i < 8
    ensures Bit(Checksum(seed, bytes), i) == (Bit(seed, i) + BitSum(bytes, i)) % 2
    decreases |bytes|
  {
    hide Xor, Bit;
    BitIsBit(seed, i);
    if bytes != [] {
      var init, last := bytes[..|bytes| - 1], bytes[|bytes| - 1];
      ChecksumBits(seed, init, i);
      XorMeans(Checksum(seed, init), last, i);
      BitIsBit(last, i);
    }
  }

  function BitSum(bytes: Bytes, i: nat): nat
    decreases |bytes|
  { if bytes == [] then 0 else BitSum(bytes[..|bytes| - 1], i) + Bit(bytes[|bytes| - 1], i) }

  lemma {:induction false} BitIsBit(n: nat, i: nat)
    ensures Bit(n, i) == 0 || Bit(n, i) == 1
    decreases i
  {
    if i > 0 { BitIsBit(n / 2, i - 1); }
  }
}
