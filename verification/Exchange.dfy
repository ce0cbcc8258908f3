/** Reading a monitor over an unreliable bus: retried exchanges, the collection of
    the capability string in C and in Rust, and what is ever written. */
module Exchange {
  import opened Base
  import opened Frames
  import Utf8

  const DDC_ADDRESS: Byte := 0x37
  const EDID_ADDRESS: Byte := 0x50
  const EDID_LENGTH: nat := 128
  const MAX_CAPS: nat := 0xFFFF
  const TRIES: nat := 3
  const REPLY_SIZE: nat := 64

  /** The outcome of every transfer, in order: None for a transfer that fails. */
  type Answers = nat -> Option<Bytes>

  // ----- One exchange, starting at a transfer -----

  /** A read fills a buffer of fixed size. */
  function Fit(bytes: Bytes, size: nat): (r: Bytes)
    ensures |r| == size
  { seq(size, i requires 0 <= i < size => if i < |bytes| then bytes[i] else 0) }

  /** A failed write is not followed by a read. */
  function After(answers: Answers, n: nat): nat { if answers(n).None? then n + 1 else n + 2 }

  function ReplyAt(answers: Answers, n: nat, size: nat): Option<Bytes> {
    if answers(n).None? || answers(n + 1).None? then None
    else ParseFrame(DDC_ADDRESS, Fit(answers(n + 1).value, size + OVERHEAD), size)
  }

  function FragmentAt(answers: Answers, n: nat, offset: nat): Option<Bytes> {
    match ReplyAt(answers, n, REPLY_SIZE)
    case None => None
    case Some(payload) => ParseCapsReply(payload, offset)
  }

  // ----- Collection -----

  /** A result, the next transfer and the number of exchanges made. */
  datatype Outcome<T> = Outcome(result: Option<T>, next: nat, exchanges: nat)

  /** The first accepted fragment within a number of tries. */
  function Retry(answers: Answers, n: nat, offset: nat, tries: nat): Outcome<Bytes>
    decreases tries
  {
    if tries == 0 then Outcome(None, n, 0)
    else
      var next := After(answers, n);
      match FragmentAt(answers, n, offset)
      case Some(fragment) => Outcome(Some(fragment), next, 1)
      case None =>
        var rest := Retry(answers, next, offset, tries - 1);
        rest.(exchanges := rest.exchanges + 1)
  }

  /** The whole collection from a state: what is collected and the tries left. */
  function Collect(answers: Answers, n: nat, bytes: Bytes, tries: nat): Outcome<Bytes>
    requires |bytes| <= MAX_CAPS
    decreases MAX_CAPS - |bytes|, tries
  {
    if tries == 0 then Outcome(None, n, 0)
    else
      var next := After(answers, n);
      match FragmentAt(answers, n, |bytes|)
      case None =>
        var rest := Collect(answers, next, bytes, tries - 1);
        rest.(exchanges := rest.exchanges + 1)
      case Some(fragment) =>
        if fragment == [] then Outcome(Some(bytes), next, 1)
        else if |fragment| > MAX_CAPS - |bytes| then Outcome(None, next, 1)
        else
          var rest := Collect(answers, next, bytes + fragment, TRIES);
          rest.(exchanges := rest.exchanges + 1)
  }

  /** At most three exchanges for each of the 65536 offsets. */
  lemma {:induction false} CollectionBounded(answers: Answers, n: nat, bytes: Bytes, tries: nat)
    requires |bytes| <= MAX_CAPS && tries <= TRIES
    ensures var r := Collect(answers, n, bytes, tries);
            && r.exchanges <= tries + TRIES * (MAX_CAPS - |bytes|)
            && n <= r.next <= n + 2 * r.exchanges
            && (r.result.Some? ==> |r.result.value| <= MAX_CAPS)
    decreases MAX_CAPS - |bytes|, tries
  {
    hide FragmentAt;
    if tries > 0 {
      var next := After(answers, n);
      var f := FragmentAt(answers, n, |bytes|);
      if f.None? {
        CollectionBounded(answers, next, bytes, tries - 1);
      } else if f.value != [] && |f.value| <= MAX_CAPS - |bytes| {
        CollectionBounded(answers, next, bytes + f.value, TRIES);
      }
    }
  }

  /** Collection as rounds of retried fragments. */
  lemma {:induction false} CollectByRounds(answers: Answers, n: nat, bytes: Bytes, tries: nat)
    requires |bytes| <= MAX_CAPS
    ensures var round := Retry(answers, n, |bytes|, tries);
            var r := Collect(answers, n, bytes, tries);
            if round.result.None? then r == round
            else if round.result.value == [] then r == Outcome(Some(bytes), round.next, round.exchanges)
            else if |round.result.value| > MAX_CAPS - |bytes| then r == Outcome(None, round.next, round.exchanges)
            else
              var rest := Collect(answers, round.next, bytes + round.result.value, TRIES);
              r == rest.(exchanges := rest.exchanges + round.exchanges)
    decreases tries
  {
    hide FragmentAt;
    if tries > 0 && FragmentAt(answers, n,
                               |bytes|).None? { CollectByRounds(answers, After(answers, n), bytes, tries - 1); }
  }

  // ----- An honest monitor -----

  /** Accepted fragments are the monitor's true bytes at their offset, and empty
      only at the end. */
  ghost predicate Honest(answers: Answers, caps: Bytes) {
    forall n: nat, offset: nat | offset <= |caps| && FragmentAt(answers, n, offset).Some? ::
      var f := FragmentAt(answers, n, offset).value;
      f <= caps[offset..] && (f == [] ==> offset == |caps|)
  }

  /** On the way from an offset no three exchanges in a row fail. */
  ghost predicate ReliableFrom(answers: Answers, n: nat, offset: nat)
    decreases MAX_CAPS - offset
  {
    var round := Retry(answers, n, offset, TRIES);
    round.result.Some? &&
    (0 < |round.result.value| <= MAX_CAPS - offset ==> ReliableFrom(answers, round.next, offset + |round.result.value|))
  }

  /** Whatever is collected from an honest monitor is its whole string. */
  lemma {:induction false} HonestIsWhole(answers: Answers, n: nat, caps: Bytes, k: nat, tries: nat)
    requires Honest(answers, caps) && k <= |caps| && k <= MAX_CAPS
    ensures var r := Collect(answers, n, caps[..k], tries).result;
            r.Some? ==> r.value == caps
    decreases MAX_CAPS - k, tries
  {
    hide FragmentAt;
    if tries > 0 {
      var next := After(answers, n);
      var f := FragmentAt(answers, n, k);
      if f.None? {
        HonestIsWhole(answers, next, caps, k, tries - 1);
      } else if f.value == [] {
        assert caps[..k] == caps;
      } else if |f.value| <= MAX_CAPS - k {
        assert caps[..k] + f.value == caps[..k + |f.value|];
        HonestIsWhole(answers, next, caps, k + |f.value|, TRIES);
      }
    }
  }

  lemma {:induction false} RoundIsFragment(answers: Answers, n: nat, offset: nat, tries: nat) returns (m: nat)
    requires Retry(answers, n, offset, tries).result.Some?
    ensures FragmentAt(answers, m, offset) == Retry(answers, n, offset, tries).result
    decreases tries
  {
    hide FragmentAt;
    m := n;
    if FragmentAt(answers, n, offset).None? { m := RoundIsFragment(answers, After(answers, n), offset, tries - 1); }
  }

  /** From an honest and reliable monitor the string is collected exactly when a
      16-bit offset can address its end. */
  lemma {:induction false} ReliableIsCollected(answers: Answers, n: nat, caps: Bytes, k: nat)
    requires Honest(answers, caps) && k <= |caps| && k <= MAX_CAPS && ReliableFrom(answers, n, k)
    ensures Collect(answers, n, caps[..k], TRIES).result == if |caps| <= MAX_CAPS then Some(caps) else None
    decreases MAX_CAPS - k
  {
    hide FragmentAt, Retry, Collect;
    CollectByRounds(answers, n, caps[..k], TRIES);
    var round := Retry(answers, n, k, TRIES);
    var m := RoundIsFragment(answers, n, k, TRIES);
    var f := round.result.value;
    if f == [] {
      assert caps[..k] == caps;
    } else if |f| <= MAX_CAPS - k {
      assert caps[..k] + f == caps[..k + |f|];
      ReliableIsCollected(answers, round.next, caps, k + |f|);
    }
  }

  /** Conversely, a collection that ends with a result was reliable all the way. */
  lemma {:induction false} CollectedWasReliable(answers: Answers, n: nat, bytes: Bytes)
    requires |bytes| <= MAX_CAPS && Collect(answers, n, bytes, TRIES).result.Some?
    ensures ReliableFrom(answers, n, |bytes|)
    decreases MAX_CAPS - |bytes|
  {
    hide FragmentAt, Retry, Collect;
    CollectByRounds(answers, n, bytes, TRIES);
    var round := Retry(answers, n, |bytes|, TRIES);
    if 0 < |round.result.value| <= MAX_CAPS - |bytes| {
      CollectedWasReliable(answers, round.next, bytes + round.result.value);
    }
  }

  // ----- A monitor that answers every request -----

  const FRAGMENT: nat := REPLY_SIZE - 3

  /** The offset of the j-th request. */
  function OffsetOf(caps: Bytes, j: nat): (o: nat)
    ensures o <= |caps|
  { if j * FRAGMENT <= |caps| then j * FRAGMENT else |caps| }

  function FragmentFrom(caps: Bytes, offset: nat): (f: Bytes)
    requires offset <= |caps|
    ensures |f| <= FRAGMENT && f <= caps[offset..] && (f == [] <==> offset == |caps|)
  { if |caps| - offset <= FRAGMENT then caps[offset..] else caps[offset..offset + FRAGMENT] }

  function Payload(caps: Bytes, offset: nat): Bytes
    requires offset <= |caps| && offset <= MAX_CAPS
  { [0xE3, offset / 256, offset % 256] + FragmentFrom(caps, offset) }

  /** Writes succeed, and the j-th read returns the fragment at the j-th offset. */
  function Prompt(caps: Bytes, n: nat): Option<Bytes> {
    if n % 2 == 0 || OffsetOf(caps, n / 2) > MAX_CAPS then Some([])
    else Some(Reply(DDC_ADDRESS, Payload(caps, OffsetOf(caps, n / 2)), true))
  }

  function PromptAnswers(caps: Bytes): (r: Answers)
    ensures forall n: nat :: r(n) == Prompt(caps, n)
  { (n: nat) => Prompt(caps, n) }

  lemma PromptFragment(caps: Bytes, n: nat, offset: nat)
    ensures var o := OffsetOf(caps, n / 2);
            FragmentAt(PromptAnswers(caps), n, offset) ==
            if n % 2 == 0 && o <= MAX_CAPS && offset == o then Some(FragmentFrom(caps, o)) else None
  {
    hide Checksum, ParseFrame, PromptAnswers;
    var o := OffsetOf(caps, n / 2);
    if n % 2 == 0 && o <= MAX_CAPS {
      PromptReply(caps, n);
      assert Payload(caps, o)[3..] == FragmentFrom(caps, o);
    } else {
      var input := Fit([], REPLY_SIZE + OVERHEAD);
      assert input[0] == 0;
      NoReply(input);
    }
  }

  lemma NoReply(input: Bytes)
    requires input != [] && input[0] == 0
    ensures ParseFrame(DDC_ADDRESS, input, REPLY_SIZE) == None
  {
  }

  lemma PromptReply(caps: Bytes, n: nat)
    requires n % 2 == 0 && OffsetOf(caps, n / 2) <= MAX_CAPS
    ensures ReplyAt(PromptAnswers(caps), n, REPLY_SIZE) == Some(Payload(caps, OffsetOf(caps, n / 2)))
  {
    hide Checksum, ParseFrame, PromptAnswers;
    assert (n + 1) / 2 == n / 2 && (n + 1) % 2 == 1;
    var payload := Payload(caps, OffsetOf(caps, n / 2));
    var raw := Prompt(caps, n + 1).value;
    var input := Fit(raw, REPLY_SIZE + OVERHEAD);
    assert input == raw + input[|raw|..];
    ParseFrameExact(DDC_ADDRESS, input, REPLY_SIZE, payload);
  }

  lemma PromptIsHonest(caps: Bytes)
    ensures Honest(PromptAnswers(caps), caps)
  {
    hide Prompt, FragmentAt, PromptAnswers;
    forall n: nat, offset: nat | offset <= |caps| && FragmentAt(PromptAnswers(caps), n, offset).Some?
      ensures var f := FragmentAt(PromptAnswers(caps), n, offset).value;
              f <= caps[offset..] && (f == [] ==> offset == |caps|)
    { PromptFragment(caps, n, offset); }
  }

  lemma {:induction false} PromptIsReliable(caps: Bytes, j: nat)
    requires OffsetOf(caps, j) <= MAX_CAPS
    ensures ReliableFrom(PromptAnswers(caps), 2 * j, OffsetOf(caps, j))
    decreases MAX_CAPS - OffsetOf(caps, j)
  {
    hide Prompt, FragmentAt, PromptAnswers;
    var answers := PromptAnswers(caps);
    var o := OffsetOf(caps, j);
    PromptFragment(caps, 2 * j, o);
    assert 2 * j / 2 == j;
    var f := FragmentFrom(caps, o);
    PromptWrites(caps, j);
    assert After(answers, 2 * j) == 2 * (j + 1);
    assert Retry(answers, 2 * j, o, TRIES) == Outcome(Some(f), 2 * (j + 1), 1);
    if 0 < |f| <= MAX_CAPS - o {
      NextOffset(caps, j);
      PromptIsReliable(caps, j + 1);
    }
  }

  lemma PromptWrites(caps: Bytes, j: nat)
    ensures Prompt(caps, 2 * j) == Some([])
  {
  }

  lemma NextOffset(caps: Bytes, j: nat)
    requires OffsetOf(caps, j) < |caps|
    ensures OffsetOf(caps, j + 1) == OffsetOf(caps, j) + |FragmentFrom(caps, OffsetOf(caps, j))|
  {
    assert (j + 1) * FRAGMENT == j * FRAGMENT + FRAGMENT;
  }

  /** Every string up to the limit is collected from a monitor that answers each
      request, and no longer one is. */
  lemma PromptIsCollected(caps: Bytes)
    ensures Collect(PromptAnswers(caps), 0, [], TRIES).result == if |caps| <= MAX_CAPS then Some(caps) else None
  {
    hide Collect, Honest, ReliableFrom, Prompt, PromptAnswers;
    PromptIsHonest(caps);
    assert 0 * FRAGMENT == 0;
    PromptIsReliable(caps, 0);
    assert caps[..0] == [];
    ReliableIsCollected(PromptAnswers(caps), 0, caps, 0);
  }

  // ----- What is written -----

  datatype Written = Written(address: Byte, bytes: Bytes)

  /** Offset 0 to the EDID, or a checksummed query of one control or of the
      capabilities at an offset. */
  predicate ReadOnly(w: Written) {
    || (w.address == EDID_ADDRESS && w.bytes == [0])
    || (&& w.address == DDC_ADDRESS && 5 <= |w.bytes| <= 6
        && w.bytes[0] == HOST_ADDRESS && w.bytes[1] == LENGTH_FLAG + |w.bytes| - OVERHEAD
        && w.bytes[2] == (if |w.bytes| == 5 then 0x01 else 0xF3)
        && Checksum(2 * DDC_ADDRESS, w.bytes) == 0)
  }

  predicate AllReadOnly(ws: seq<Written>) { forall w | w in ws :: ReadOnly(w) }

  predicate IsQuery(payload: Bytes) {
    (|payload| == 2 && payload[0] == 0x01) || (|payload| == 3 && payload[0] == 0xF3)
  }

  lemma QueryIsReadOnly(payload: Bytes)
    requires IsQuery(payload)
    ensures ReadOnly(Written(DDC_ADDRESS, Request(DDC_ADDRESS, payload)))
  {
    hide Checksum;
    RequestChecks(DDC_ADDRESS, payload);
  }

  // ----- Readings -----

  function ControlAt(answers: Answers, n: nat, code: Byte): Option<VcpReply> {
    match ReplyAt(answers, n, 8)
    case None => None
    case Some(payload) => ParseVcpReply(payload, code)
  }

  function ControlWithin(answers: Answers, n: nat, code: Byte, tries: nat): Outcome<VcpReply>
    decreases tries
  {
    if tries == 0 then Outcome(None, n, 0)
    else if ControlAt(answers, n, code).Some? then Outcome(ControlAt(answers, n, code), After(answers, n), 1)
    else
      var rest := ControlWithin(answers, After(answers, n), code, tries - 1);
      rest.(exchanges := rest.exchanges + 1)
  }

  function EdidAt(answers: Answers, n: nat, valid: Bytes -> bool): Option<Bytes> {
    if answers(n).None? || answers(n + 1).None? || !valid(Fit(answers(n + 1).value, EDID_LENGTH)) then None
    else Some(Fit(answers(n + 1).value, EDID_LENGTH))
  }

  function EdidWithin(answers: Answers, n: nat, valid: Bytes -> bool, tries: nat): Outcome<Bytes>
    decreases tries
  {
    if tries == 0 then Outcome(None, n, 0)
    else if EdidAt(answers, n, valid).Some? then Outcome(EdidAt(answers, n, valid), After(answers, n), 1)
    else
      var rest := EdidWithin(answers, After(answers, n), valid, tries - 1);
      rest.(exchanges := rest.exchanges + 1)
  }

  datatype Step = Identify | Open | Read(code: Byte)

  // ----- The bus, as it runs -----

  class Bus {
    const answers: Answers
    var transfers: nat
    var writes: seq<Written>

    constructor (answers: Answers)
      ensures this.answers == answers && transfers == 0 && writes == []
    { this.answers, transfers, writes := answers, 0, []; }

    method Send(address: Byte, bytes: Bytes) returns (ok: bool)
      modifies this
      ensures ok == answers(old(transfers)).Some?
      ensures transfers == old(transfers) + 1 && writes == old(writes) + [Written(address, bytes)]
    {
      writes := writes + [Written(address, bytes)];
      ok := answers(transfers).Some?;
      transfers := transfers + 1;
    }

    method Receive(size: nat) returns (reply: Option<Bytes>)
      modifies this`transfers
      ensures transfers == old(transfers) + 1
      ensures reply == if answers(old(transfers)).None? then None else Some(Fit(answers(old(transfers)).value, size))
    {
      var answer := answers(transfers);
      transfers := transfers + 1;
      reply := if answer.None? then None else Some(Fit(answer.value, size));
    }

    /** `exchange`: one request frame and one reply frame. */
    method Exchange(payload: Bytes, size: nat) returns (reply: Option<Bytes>)
      modifies this
      ensures |payload| > MAX_PAYLOAD ==> reply == None && transfers == old(transfers) && writes == old(writes)
      ensures |payload| <= MAX_PAYLOAD ==>
                && reply == ReplyAt(answers, old(transfers), size) && transfers == After(answers, old(transfers))
                && writes == old(writes) + [Written(DDC_ADDRESS, Request(DDC_ADDRESS, payload))]
    {
      var buffer := new Byte[MAX_PAYLOAD + OVERHEAD](_ => 0);
      var length := BuildFrame(DDC_ADDRESS, payload, buffer);
      if length.None? { return None; }
      var ok := Send(DDC_ADDRESS, buffer[..length.value]);
      if !ok { return None; }
      var response := Receive(size + OVERHEAD);
      if response.None? { return None; }
      reply := ParseFrame(DDC_ADDRESS, response.value, size);
    }

    /** One query; what it writes is read-only. */
    method Query(payload: Bytes, size: nat) returns (reply: Option<Bytes>)
      requires IsQuery(payload)
      modifies this
      ensures reply == ReplyAt(answers, old(transfers), size) && transfers == After(answers, old(transfers))
      ensures AllReadOnly(old(writes)) ==> AllReadOnly(writes)
    {
      hide ReplyAt, After, ReadOnly, Request;
      QueryIsReadOnly(payload);
      reply := Exchange(payload, size);
    }

    /** One request for the capabilities at an offset. */
    method AskFragment(offset: nat) returns (fragment: Option<Bytes>)
      requires offset <= MAX_CAPS
      modifies this
      ensures fragment == FragmentAt(answers, old(transfers), offset) && transfers == After(answers, old(transfers))
      ensures AllReadOnly(old(writes)) ==> AllReadOnly(writes)
    {
      hide ReplyAt, After, AllReadOnly;
      var reply := Query([0xF3, offset / 256, offset % 256], REPLY_SIZE);
      if reply.None? { return None; }
      fragment := ParseCapsReply(reply.value, offset);
    }

    /** `retry` around one fragment. */
    method RetryFragment(offset: nat) returns (fragment: Option<Bytes>)
      requires offset <= MAX_CAPS
      modifies this
      ensures fragment == Retry(answers, old(transfers), offset, TRIES).result
      ensures transfers == Retry(answers, old(transfers), offset, TRIES).next
      ensures AllReadOnly(old(writes)) ==> AllReadOnly(writes)
    {
      hide FragmentAt, After, AllReadOnly;
      ghost var goal := Retry(answers, transfers, offset, TRIES);
      for k := 0 to TRIES
        invariant Retry(answers, transfers, offset, TRIES - k).result == goal.result
        invariant Retry(answers, transfers, offset, TRIES - k).next == goal.next
        invariant AllReadOnly(old(writes)) ==> AllReadOnly(writes)
      {
        fragment := AskFragment(offset);
        if fragment.Some? { return; }
      }
      fragment := None;
    }

    /** `read_capabilities`: rounds of retried fragments, then UTF-8. The offset is a
        16-bit cast of the length and never wraps. */
    method ReadCapabilities() returns (caps: Option<string>)
      modifies this
      ensures var r := Collect(answers, old(transfers), [], TRIES);
              && transfers == r.next
              && caps == if r.result.None? then None else Utf8.Decode(r.result.value)
      ensures AllReadOnly(old(writes)) ==> AllReadOnly(writes)
    {
      hide Collect, Retry, AllReadOnly, Utf8.Decode;
      var bytes: Bytes := [];
      ghost var goal := Collect(answers, transfers, [], TRIES);
      while true
        invariant |bytes| <= MAX_CAPS
        invariant Collect(answers, transfers, bytes, TRIES).result == goal.result
        invariant Collect(answers, transfers, bytes, TRIES).next == goal.next
        invariant AllReadOnly(old(writes)) ==> AllReadOnly(writes)
        decreases MAX_CAPS - |bytes|
      {
        var offset := |bytes| % 0x1_0000;
        CollectByRounds(answers, transfers, bytes, TRIES);
        var fragment := RetryFragment(offset);
        if fragment.None? { return None; }
        if fragment.value == [] { return Utf8.Decode(bytes); }
        if |bytes| + |fragment.value| > MAX_CAPS { return None; }
        bytes := bytes + fragment.value;
      }
    }

    /** The collection loop of `ddcci_caps`: one flat loop with a retry counter. */
    method CollectCaps() returns (caps: Option<Bytes>)
      modifies this
      ensures var r := Collect(answers, old(transfers), [], TRIES); caps == r.result && transfers == r.next
      ensures AllReadOnly(old(writes)) ==> AllReadOnly(writes)
    {
      hide FragmentAt, After, AllReadOnly;
      var retries := TRIES;
      var bytes: Bytes := [];
      ghost var goal := Collect(answers, transfers, [], TRIES);
      while retries != 0
        invariant |bytes| <= MAX_CAPS
        invariant Collect(answers, transfers, bytes, retries).result == goal.result
        invariant Collect(answers, transfers, bytes, retries).next == goal.next
        invariant AllReadOnly(old(writes)) ==> AllReadOnly(writes)
        decreases MAX_CAPS - |bytes|, retries
      {
        var fragment := AskFragment(|bytes|);
        if fragment.None? {
          retries := retries - 1;
          continue;
        }
        if fragment.value == [] { return Some(bytes); }
        if |fragment.value| > MAX_CAPS - |bytes| { return None; }
        bytes := bytes + fragment.value;
        retries := TRIES;
      }
      caps := None;
    }

    /** `read_control`: None when three exchanges fail. */
    method ReadControl(code: Byte) returns (reading: Option<VcpReply>)
      modifies this
      ensures var r := ControlWithin(answers, old(transfers), code, TRIES); reading == r.result && transfers == r.next
      ensures AllReadOnly(old(writes)) ==> AllReadOnly(writes)
    {
      hide ReplyAt, After, AllReadOnly;
      ghost var goal := ControlWithin(answers, transfers, code, TRIES);
      for k := 0 to TRIES
        invariant ControlWithin(answers, transfers, code, TRIES - k).result == goal.result
        invariant ControlWithin(answers, transfers, code, TRIES - k).next == goal.next
        invariant AllReadOnly(old(writes)) ==> AllReadOnly(writes)
      {
        var reply := Query([0x01, code], 8);
        if reply.Some? && ParseVcpReply(reply.value, code).Some? { return ParseVcpReply(reply.value, code); }
      }
      reading := None;
    }

    /** `read_edid`, with the EDID parser as a parameter. */
    method ReadEdid(valid: Bytes -> bool) returns (edid: Option<Bytes>)
      modifies this
      ensures var r := EdidWithin(answers, old(transfers), valid, TRIES); edid == r.result && transfers == r.next
      ensures AllReadOnly(old(writes)) ==> AllReadOnly(writes)
    {
      hide Fit;
      ghost var goal := EdidWithin(answers, transfers, valid, TRIES);
      for k := 0 to TRIES
        invariant EdidWithin(answers, transfers, valid, TRIES - k).result == goal.result
        invariant EdidWithin(answers, transfers, valid, TRIES - k).next == goal.next
        invariant AllReadOnly(old(writes)) ==> AllReadOnly(writes)
      {
        var ok := Send(EDID_ADDRESS, [0]);
        if ok {
          var bytes := Receive(EDID_LENGTH);
          if bytes.Some? && valid(bytes.value) { return bytes; }
        }
      }
      edid := None;
    }

    /** Every run of listing, opening and reading writes nothing but queries. */
    method Scan(steps: seq<Step>, valid: Bytes -> bool)
      requires AllReadOnly(writes)
      modifies this
      ensures AllReadOnly(writes)
    {
      hide AllReadOnly;
      for i := 0 to |steps|
        invariant AllReadOnly(writes)
      {
        match steps[i]
        case Identify => var edid := ReadEdid(valid);
        case Open =>
          var edid := ReadEdid(valid);
          if edid.Some? { var caps := ReadCapabilities(); }
        case Read(code) => var reading := ReadControl(code);
      }
    }
  }
}
