/** Masking binary payloads of a capability string in place, before it is read as
    text: `bin(` number `(` payload. */
module Masking {
  import opened Base

  const HASH: Byte := 0x23
  const OPEN: Byte := 0x28
  const ZERO: Byte := 0x30

  /** Reading past the end meets the terminating NUL. */
  function At(s: Bytes, i: nat): Byte { if i < |s| then s[i] else 0 }

  // ----- strtol(number, &end, 0) -----

  predicate IsBlank(b: Byte) { b == 0x20 || 0x09 <= b <= 0x0D }

  function SkipBlanks(s: Bytes, i: nat): (j: nat)
    ensures i <= j && (i <= |s| ==> j <= |s|) && !IsBlank(At(s, j)) && forall k | i <= k < j :: IsBlank(At(s, k))
    decreases |s| - i
  { if i < |s| && IsBlank(s[i]) then SkipBlanks(s, i + 1) else i }

  function Digit(b: Byte): nat {
    if 0x30 <= b <= 0x39 then b - 0x30
    else if 0x61 <= b <= 0x7A then b - 0x61 + 10
    else if 0x41 <= b <= 0x5A then b - 0x41 + 10
    else 99
  }

  function DigitsEnd(s: Bytes, i: nat, radix: nat): (j: nat)
    requires radix <= 36
    ensures i <= j && (i <= |s| ==> j <= |s|) && (i > |s| ==> j == i)
    ensures Digit(At(s, j)) >= radix
    ensures forall k | i <= k < j :: Digit(At(s, k)) < radix
    decreases |s| - i
  { if i < |s| && Digit(s[i]) < radix then DigitsEnd(s, i + 1, radix) else i }

  function Magnitude(digits: Bytes, radix: nat): nat
    decreases |digits|
  { if digits == [] then 0 else Magnitude(digits[..|digits| - 1], radix) * radix + Digit(digits[|digits| - 1]) }

  datatype Number = NoNumber | Number(value: int, end: nat)

  /** Where the digits start, and in which radix. */
  function Base0(s: Bytes, k: nat): (r: (nat, nat))
    ensures r.1 <= 36 && k <= r.0
  {
    if At(s, k) == ZERO && (At(s, k + 1) == 0x78 || At(s, k + 1) == 0x58) && Digit(At(s, k + 2)) < 16 then (k + 2, 16)
    else if At(s, k) == ZERO then (k, 8)
    else (k, 10)
  }

  /** The number a C library reads, before any range error. */
  function Strtol(s: Bytes): Number {
    var i := SkipBlanks(s, 0);
    var signed := At(s, i) == 0x2D || At(s, i) == 0x2B;
    var (start, radix) := Base0(s, if signed then i + 1 else i);
    var end := DigitsEnd(s, start, radix);
    if end == start then NoNumber
    else
      assert start <= |s|;
      var n := Magnitude(s[start..end], radix);
      Number(if At(s, i) == 0x2D then 0 - n else n, end)
  }

  const LONG_MAX: int := 0x7FFF_FFFF_FFFF_FFFF

  /** The payload a header declares: where it starts and how long it is; None for a
      number that is missing, negative, out of range or not followed by `(`. */
  function Declared(s: Bytes): (r: Option<(nat, nat)>)
    ensures r.Some? ==> r.value.0 <= |s|
  {
    match Strtol(s)
    case NoNumber => None
    case Number(value, end) =>
      if value < 0 || value > LONG_MAX || At(s, end) != OPEN then None else Some((end + 1, value))
  }

  // ----- Specification of the masking -----

  predicate Header(s: Bytes) { |s| >= 4 && s[0] == 0x62 && s[1] == 0x69 && s[2] == 0x6E && s[3] == OPEN }

  datatype Next = Stop | Skip | Bad | Payload(start: nat, length: nat)

  /** What stands at the head of the unread bytes. */
  function Look(s: Bytes): (r: Next)
    ensures r.Payload? ==> 4 <= r.start && r.start + r.length <= |s|
    ensures r.Skip? ==> s != []
  {
    if s == [] || s[0] == 0 then Stop
    else if !Header(s) then Skip
    else
      match Declared(s[4..])
      case None => Bad
      case Some((start, length)) => if length > |s| - (start + 4) then Bad else Payload(start + 4, length)
  }

  function Hashes(n: nat): (r: Bytes)
    ensures |r| == n && forall i | 0 <= i < n :: r[i] == HASH
  { seq(n, _ => HASH) }

  /** The masked string; None when a payload is declared wrongly. */
  function Mask(s: Bytes): (r: Option<Bytes>)
    ensures r.Some? ==> |r.value| == |s|
    decreases |s|
  {
    match Look(s)
    case Stop => Some(s)
    case Bad => None
    case Skip =>
      (match Mask(s[1..])
       case None => None
       case Some(rest) => Some([s[0]] + rest))
    case Payload(start, length) =>
      (match Mask(s[start + length..])
       case None => None
       case Some(rest) => Some(s[..start] + Hashes(length) + rest))
  }

  /** Position i lies in a declared payload. */
  predicate InPayload(s: Bytes, i: int)
    decreases |s|
  {
    match Look(s)
    case Stop => false
    case Bad => false
    case Skip => InPayload(s[1..], i - 1)
    case Payload(start, length) => start <= i < start + length || InPayload(s[start + length..], i - (start + length))
  }

  // ----- Laws -----

  lemma {:induction false} PayloadInside(s: Bytes, i: int)
    requires InPayload(s, i)
    ensures 0 <= i < |s|
    decreases |s|
  {
    hide Look;
    match Look(s)
    case Skip => PayloadInside(s[1..], i - 1);
    case Payload(start, length) => if !(start <= i < start +
                                        length) { PayloadInside(s[start + length..], i - (start + length)); }
    case _ =>
  }

  /** Masking changes the declared payload bytes and no others. */
  lemma {:induction false} MaskExact(s: Bytes, i: nat)
    requires Mask(s).Some? && i < |s|
    ensures Mask(s).value[i] == if InPayload(s, i) then HASH else s[i]
    decreases |s|
  {
    hide Look;
    match Look(s)
    case Stop =>
    case Skip => if i > 0 { MaskExact(s[1..], i - 1); } else if InPayload(s, 0) { PayloadInside(s[1..], -1); }
    case Payload(start, length) =>
      if i >= start + length {
        MaskExact(s[start + length..], i - (start + length));
      } else if i < start && InPayload(s, i) {
        PayloadInside(s[start + length..], i - (start + length));
      }
  }

  /** The same bytes up to and including the one that ends a number. */
  predicate Agree(s: Bytes, t: Bytes, n: nat) { forall i | 0 <= i <= n :: At(s, i) == At(t, i) }

  lemma {:induction false} SameBlanks(s: Bytes, t: Bytes, i: nat)
    requires Agree(s, t, SkipBlanks(s, i))
    ensures SkipBlanks(t, i) == SkipBlanks(s, i)
    decreases |s| - i
  {
    assert At(s, i) == At(t, i);
    if i < |s| && IsBlank(s[i]) { SameBlanks(s, t, i + 1); }
  }

  lemma {:induction false} SameDigits(s: Bytes, t: Bytes, i: nat, radix: nat)
    requires radix <= 36 && Agree(s, t, DigitsEnd(s, i, radix))
    ensures DigitsEnd(t, i, radix) == DigitsEnd(s, i, radix)
    decreases |s| - i
  {
    assert At(s, i) == At(t, i);
    if i < |s| && Digit(s[i]) < radix { SameDigits(s, t, i + 1, radix); }
  }

  lemma SameStrtol(s: Bytes, t: Bytes)
    requires Strtol(s).Number? && Agree(s, t, Strtol(s).end) && At(s, Strtol(s).end) == OPEN
    ensures Strtol(t) == Strtol(s)
  {
    hide Magnitude, Digit, Base0, DigitsEnd, SkipBlanks;
    var end := Strtol(s).end;
    var i := SkipBlanks(s, 0);
    var k := if At(s, i) == 0x2D || At(s, i) == 0x2B then i + 1 else i;
    var (start, radix) := Base0(s, k);
    assert i <= k <= start < end;
    SameBlanks(s, t, 0);
    assert At(s, i) == At(t, i);
    SameBase(s, t, k, end);
    SameDigits(s, t, start, radix);
    SameSlice(s, t, start, end);
  }

  /** A declaration depends only on the bytes up to its parenthesis. */
  lemma SameDeclared(s: Bytes, t: Bytes)
    requires Declared(s).Some? && Agree(s, t, Declared(s).value.0 - 1)
    ensures Declared(t) == Declared(s)
  {
    hide Strtol;
    assert At(s, Strtol(s).end) == At(t, Strtol(s).end);
    SameStrtol(s, t);
  }

  lemma SameSlice(s: Bytes, t: Bytes, start: nat, end: nat)
    requires start <= end < |s| && Agree(s, t, end) && s[end] != 0
    ensures end < |t| && s[start..end] == t[start..end]
  {
    assert At(t, end) == s[end];
    forall j | start <= j < end
      ensures s[j] == t[j]
    { assert At(s, j) == At(t, j); }
  }

  lemma SameBase(s: Bytes, t: Bytes, k: nat, end: nat)
    requires Agree(s, t, end) && end == DigitsEnd(s, Base0(s, k).0, Base0(s, k).1) && Base0(s, k).0 < end
             && At(s, end) == OPEN
    ensures Base0(t, k) == Base0(s, k)
  {
    assert At(s, k) == At(t, k) && At(s, k + 1) == At(t, k + 1);
    if At(s, k) == ZERO && (At(s, k + 1) == 0x78 || At(s, k + 1) == 0x58) {
      assert Digit(At(s, k + 1)) >= 16;
      if Digit(At(s, k + 2)) < 16 { assert k + 2 < end; } else { NotOctal(s, k); }
    }
  }

  lemma NotOctal(s: Bytes, k: nat)
    requires At(s, k) == ZERO && Digit(At(s, k + 1)) >= 16
    ensures DigitsEnd(s, k, 8) == k + 1
  {
    assert DigitsEnd(s, k, 8) == DigitsEnd(s, k + 1, 8);
  }

  /** Same length, and equal wherever s declares no payload. */
  ghost predicate Alike(s: Bytes, t: Bytes) {
    |s| == |t| && forall i | 0 <= i < |s| && !InPayload(s, i) :: s[i] == t[i]
  }

  lemma OutsideHead(s: Bytes, i: nat)
    requires i < |s| && match Look(s) case Skip => i == 0 case Payload(start, _) => i < start case _ => true
    ensures !InPayload(s, i)
  {
    hide Look;
    match Look(s)
    case Skip => if InPayload(s, i) { PayloadInside(s[1..], i - 1); }
    case Payload(start, length) => if InPayload(s, i) { PayloadInside(s[start + length..], i - (start + length)); }
    case _ =>
  }

  lemma SameLook(s: Bytes, t: Bytes)
    requires Alike(s, t)
    ensures Look(t) == Look(s)
  {
    hide Declared, InPayload;
    if s != [] {
      OutsideHead(s, 0);
      if Look(s).Payload? {
        var start := Look(s).start;
        forall i | 0 <= i < start
          ensures s[i] == t[i]
        { OutsideHead(s, i); }
        assert forall i: nat | i + 5 <= start :: At(s[4..], i) == s[i + 4] && At(t[4..], i) == t[i + 4];
        SameDeclared(s[4..], t[4..]);
      } else if Look(s).Skip? && Header(t) {
        HeaderOutside(s, t);
      } else {
        assert !Look(s).Skip? ==> s == t by {
          if !Look(s).Skip? { forall i | 0 <= i < |s| ensures s[i] == t[i] { OutsideHead(s, i); } }
        }
      }
    }
  }

  /** Bytes that read `bin(` are not made of a payload that starts after them. */
  lemma HeaderOutside(s: Bytes, t: Bytes)
    requires Alike(s, t) && Look(s).Skip?
    ensures !Header(t)
  {
    hide Declared;
    OutsideHead(s, 0);
    FarFromStart(s, 1);
    FarFromStart(s, 2);
    FarFromStart(s, 3);
    assert forall i | 0 <= i < 4 && i < |s| :: s[i] == t[i];
  }

  /** Within four bytes of a byte that is skipped there is no payload yet. */
  lemma FarFromStart(s: Bytes, i: nat)
    requires Look(s).Skip? && i < 4
    ensures !InPayload(s, i)
  {
    hide Declared;
    if InPayload(s, i) { FirstPayload(s[1..], i - 1); }
  }

  lemma {:induction false} FirstPayload(s: Bytes, i: int)
    requires InPayload(s, i)
    ensures i >= 4
    decreases |s|
  {
    hide Look;
    match Look(s)
    case Skip => FirstPayload(s[1..], i - 1);
    case Payload(start, length) => if !(start <= i) { PayloadInside(s[start + length..], i - (start + length)); }
    case _ =>
  }

  lemma AlikeTail(s: Bytes, t: Bytes, n: nat)
    requires Alike(s, t) && n <= |s| && forall i | n <= i < |s| :: InPayload(s[n..], i - n) <==> InPayload(s, i)
    ensures Alike(s[n..], t[n..])
  {
    forall i | 0 <= i < |s| - n && !InPayload(s[n..], i)
      ensures s[n..][i] == t[n..][i]
    { assert !InPayload(s, i + n); }
  }

  /** The bytes that Look has passed are the same. */
  lemma SameHead(s: Bytes, t: Bytes)
    requires Alike(s, t)
    ensures Look(s).Payload? ==> s[..Look(s).start] == t[..Look(s).start]
    ensures Look(s).Skip? ==> s[0] == t[0]
    ensures Look(s).Stop? || Look(s).Bad? ==> s == t
  {
    hide Look, InPayload;
    var n := match Look(s) case Skip => 1 case Payload(start, _) => start case _ => |s|;
    assert n <= |s| by { LookInside(s); }
    forall i | 0 <= i < n
      ensures s[i] == t[i]
    { OutsideHead(s, i); }
  }

  lemma LookInside(s: Bytes)
    ensures Look(s).Payload? ==> Look(s).start + Look(s).length <= |s|
    ensures Look(s).Skip? ==> s != []
  {
  }

  /** Inputs that differ only inside declared payloads are masked alike. */
  lemma {:induction false} PayloadsDoNotMatter(s: Bytes, t: Bytes)
    requires Alike(s, t)
    ensures Mask(t) == Mask(s)
    ensures forall i: int :: InPayload(t, i) <==> InPayload(s, i)
    decreases |s|
  {
    hide Look, Alike;
    SameLook(s, t);
    SameHead(s, t);
    match Look(s)
    case Skip =>
      TailAlike(s, t, 1);
      PayloadsDoNotMatter(s[1..], t[1..]);
    case Payload(start, length) =>
      TailAlike(s, t, start + length);
      PayloadsDoNotMatter(s[start + length..], t[start + length..]);
    case _ =>
  }

  lemma TailAlike(s: Bytes, t: Bytes, n: nat)
    requires Alike(s, t) && n <= |s|
    requires (Look(s) == Skip && n == 1) || (Look(s).Payload? && n == Look(s).start + Look(s).length)
    ensures |t| == |s| && Alike(s[n..], t[n..])
  {
    hide Look;
    AlikeTail(s, t, n);
  }

  /** Masking twice is masking once. */
  lemma MaskIdempotent(s: Bytes)
    requires Mask(s).Some?
    ensures Mask(Mask(s).value) == Mask(s)
  {
    hide Mask, InPayload;
    forall i | 0 <= i < |s| && !InPayload(s, i)
      ensures s[i] == Mask(s).value[i]
    { MaskExact(s, i); }
    PayloadsDoNotMatter(s, Mask(s).value);
  }

  // ----- In place -----

  /** Mask of the whole, given that the bytes before `pos` are done. */
  ghost predicate Progress(whole: Bytes, done: Bytes, rest: Bytes) {
    Mask(whole) == if Mask(rest).None? then None else Some(done + Mask(rest).value)
  }

  /** The unread bytes in the terms the loop tests. */
  lemma LookAhead(rest: Bytes)
    requires rest != [] && rest[0] != 0
    ensures !Header(rest) ==> Look(rest) == Skip
    ensures Header(rest) && Declared(rest[4..]).None? ==> Look(rest) == Bad
    ensures Header(rest) && Declared(rest[4..]).Some? ==>
              var (start, size) := Declared(rest[4..]).value;
              Look(rest) == if size > |rest| - 4 - start then Bad else Payload(start + 4, size)
  {
    hide Declared;
  }

  /** memset with '#'. */
  method Fill(raw: array<Byte>, start: nat, size: nat)
    requires start + size <= raw.Length
    modifies raw
    ensures raw[..] == Filled(old(raw[..]), start, size)
  {
    forall i | start <= i < start + size { raw[i] := HASH; }
  }

  /** The buffer is masked up to `pos` and untouched after it. */
  ghost predicate Partway(whole: Bytes, buffer: Bytes, pos: nat) {
    && |buffer| == |whole| + 1 && buffer[|whole|] == 0 && pos <= |whole| && buffer[pos..|whole|] == whole[pos..]
    && Progress(whole, buffer[..pos], whole[pos..])
  }

  function Filled(buffer: Bytes, start: nat, size: nat): Bytes
    requires start + size <= |buffer|
  { buffer[..start] + Hashes(size) + buffer[start + size..] }

  predicate HeaderAt(buffer: Bytes, pos: nat, length: nat)
    requires pos <= length < |buffer|
  {
    && length - pos >= 4
    && buffer[pos] == 0x62 && buffer[pos + 1] == 0x69 && buffer[pos + 2] == 0x6E && buffer[pos + 3] == OPEN
  }

  lemma PartwaySkip(whole: Bytes, buffer: Bytes, pos: nat)
    requires Partway(whole, buffer, pos) && pos < |whole| && buffer[pos] != 0 && !HeaderAt(buffer, pos, |whole|)
    ensures Partway(whole, buffer, pos + 1)
  {
    hide Look, Progress;
    var rest := whole[pos..];
    assert rest == buffer[pos..|whole|];
    LookAhead(rest);
    SkipStep(whole, buffer[..pos], rest);
    assert rest[1..] == whole[pos + 1..] && buffer[..pos] + [rest[0]] == buffer[..pos + 1];
  }

  lemma PartwayPayload(whole: Bytes, buffer: Bytes, pos: nat)
    requires Partway(whole, buffer, pos) && pos < |whole| && |buffer| == |whole| + 1 && HeaderAt(buffer, pos, |whole|)
    ensures var declared := Declared(buffer[pos + 4..|whole|]);
            if declared.None? || declared.value.1 > |whole| - pos - 4 - declared.value.0 then Mask(whole).None?
            else
              var start, size := pos + 4 + declared.value.0, declared.value.1;
              Partway(whole, Filled(buffer, start, size), start + size)
  {
    hide Look, Partway, Declared, Filled;
    var rest := whole[pos..];
    LookAtHeader(whole, buffer, pos);
    if Look(rest).Bad? { PartwayBad(whole, buffer, pos); } else { PartwayFilled(whole, buffer, pos); }
  }

  lemma LookAtHeader(whole: Bytes, buffer: Bytes, pos: nat)
    requires Partway(whole, buffer, pos) && pos < |whole| && |buffer| == |whole| + 1 && HeaderAt(buffer, pos, |whole|)
    ensures var declared := Declared(buffer[pos + 4..|whole|]);
            Look(whole[pos..]) == if declared.None? || declared.value.1 > |whole| - pos - 4 - declared.value.0 then Bad
                                  else Payload(declared.value.0 + 4, declared.value.1)
  {
    hide Look, Progress, Declared;
    var rest := whole[pos..];
    assert rest == buffer[pos..|whole|];
    assert rest[4..] == buffer[pos + 4..|whole|];
    LookAhead(rest);
  }

  lemma PartwayBad(whole: Bytes, buffer: Bytes, pos: nat)
    requires Partway(whole, buffer, pos) && Look(whole[pos..]).Bad?
    ensures Mask(whole).None?
  {
    hide Look, Progress;
    BadStep(whole, buffer[..pos], whole[pos..]);
  }

  lemma PartwayFilled(whole: Bytes, buffer: Bytes, pos: nat)
    requires Partway(whole, buffer, pos) && Look(whole[pos..]).Payload?
    ensures var p := Look(whole[pos..]);
            pos + p.start + p.length <= |buffer|
                && Partway(whole, Filled(buffer, pos + p.start, p.length), pos + p.start + p.length)
  {
    hide Look, Progress;
    var rest := whole[pos..];
    LookInside(rest);
    PayloadStep(whole, buffer[..pos], rest);
    MaskedPrefix(buffer, pos, pos + Look(rest).start, Look(rest).length, |whole|, whole);
  }

  lemma PartwayEnd(whole: Bytes, buffer: Bytes, pos: nat)
    requires Partway(whole, buffer, pos) && (pos == |whole| || buffer[pos] == 0)
    ensures Mask(whole) == Some(buffer[..|whole|])
  {
    hide Look, Progress;
    var rest := whole[pos..];
    assert rest == buffer[pos..|whole|];
    LookStop(rest);
    StopStep(whole, buffer[..pos], rest);
    assert buffer[..pos] + buffer[pos..|whole|] == buffer[..|whole|];
  }

  lemma PartwayStart(buffer: Bytes)
    requires buffer != [] && buffer[|buffer| - 1] == 0
    ensures Partway(buffer[..|buffer| - 1], buffer, 0)
  {
    var whole := buffer[..|buffer| - 1];
    assert whole[0..] == whole && buffer[..0] == [];
    StartProgress(whole);
  }

  /** `ddcci_normalize_caps`: the buffer holds `length` bytes and a terminator. */
  method NormalizeCaps(raw: array<Byte>, length: nat) returns (ok: bool)
    requires raw.Length == length + 1 && raw[length] == 0
    modifies raw
    ensures ok <==> Mask(old(raw[..length])).Some?
    ensures ok ==> raw[..length] == Mask(old(raw[..length])).value && raw[length] == 0
  {
    hide Declared, Mask, Partway, Filled;
    ghost var whole := raw[..length];
    PartwayStart(raw[..]);
    assert raw[..][..length] == whole;
    var pos := 0;
    while pos < length && raw[pos] != 0
      invariant pos <= length
      invariant Partway(whole, raw[..], pos)
    {
      if length - pos < 4 || raw[pos] != 0x62 || raw[pos + 1] != 0x69 || raw[pos + 2] != 0x6E || raw[pos + 3] != OPEN {
        PartwaySkip(whole, raw[..], pos);
        pos := pos + 1;
        continue;
      }
      PartwayPayload(whole, raw[..], pos);
      assert raw[..][pos + 4..length] == raw[pos + 4..length];
      var declared := Declared(raw[pos + 4..length]);
      if declared.None? || declared.value.1 > length - pos - 4 - declared.value.0 { return false; }
      var payload, size := pos + 4 + declared.value.0, declared.value.1;
      Fill(raw, payload, size);
      pos := payload + size;
    }
    PartwayEnd(whole, raw[..], pos);
    PartwayTerminated(whole, raw[..], pos);
    assert raw[..][..length] == raw[..length];
    ok := true;
  }

  lemma PartwayTerminated(whole: Bytes, buffer: Bytes, pos: nat)
    requires Partway(whole, buffer, pos)
    ensures |buffer| == |whole| + 1 && buffer[|whole|] == 0
  {
  }

  lemma LookStop(rest: Bytes)
    requires rest == [] || rest[0] == 0
    ensures Look(rest) == Stop
  {
  }

  /** The buffer after a payload was filled. */
  lemma MaskedPrefix(raw: Bytes, pos: nat, payload: nat, size: nat, length: nat, whole: Bytes)
    requires pos <= payload && payload + size <= length && |raw| == length + 1 && |whole| == length
             && raw[pos..length] == whole[pos..]
    ensures var filled := raw[..payload] + Hashes(size) + raw[payload + size..];
            && |filled| == |raw| && filled[length] == raw[length]
            && filled[..payload + size] == raw[..pos] + whole[pos..][..payload - pos] + Hashes(size)
            && filled[payload + size..length] == whole[payload + size..]
                && whole[pos..][payload - pos + size..] == whole[payload + size..]
  {
    assert whole[payload + size..] == whole[pos..][payload - pos + size..];
    assert raw[payload + size..length] == raw[pos..length][payload - pos + size..];
    assert raw[pos..payload] == raw[pos..length][..payload - pos];
    assert raw[..payload] == raw[..pos] + raw[pos..payload];
  }

  lemma StartProgress(whole: Bytes)
    ensures Progress(whole, [], whole)
  {
    if Mask(whole).Some? { assert [] + Mask(whole).value == Mask(whole).value; }
  }

  lemma SkipStep(whole: Bytes, done: Bytes, rest: Bytes)
    requires Progress(whole, done, rest) && Look(rest).Skip?
    ensures Progress(whole, done + [rest[0]], rest[1..])
  {
    if Mask(rest[1..]).Some? { assert done + ([rest[0]] + Mask(rest[1..]).value) ==
                               done + [rest[0]] + Mask(rest[1..]).value; }
  }

  lemma BadStep(whole: Bytes, done: Bytes, rest: Bytes)
    requires Progress(whole, done, rest) && Look(rest).Bad?
    ensures Mask(whole).None?
  {
  }

  lemma StopStep(whole: Bytes, done: Bytes, rest: Bytes)
    requires Progress(whole, done, rest) && Look(rest).Stop?
    ensures Mask(whole) == Some(done + rest)
  {
  }

  lemma PayloadStep(whole: Bytes, done: Bytes, rest: Bytes)
    requires Progress(whole, done, rest) && Look(rest).Payload?
    ensures var p := Look(rest);
            Progress(whole, done + rest[..p.start] + Hashes(p.length), rest[p.start + p.length..])
  {
    var p := Look(rest);
    var tail := rest[p.start + p.length..];
    if Mask(tail).Some? {
      assert done + (rest[..p.start] + Hashes(p.length) + Mask(tail).value) ==
             done + rest[..p.start] + Hashes(p.length) + Mask(tail).value;
    }
  }

  // ----- The numbers of declarations -----

  /** Space, tab, line feed, vertical tab, form feed and carriage return. */
  lemma BlankMeans(b: Byte)
    ensures IsBlank(b) <==> b in {0x20, 0x09, 0x0A, 0x0B, 0x0C, 0x0D}
  {
  }

  /** A hexadecimal digit in either case is worth its place in the alphabet of digits. */
  lemma DigitMeans(b: Byte, d: nat)
    requires d < 16
    ensures Digit(b) == d <==>
            b == (if d < 10 then 0x30 + d else 0x61 + d - 10) || b == (if d < 10 then 0x30 + d else 0x41 + d - 10)
  {
  }

  function Power(radix: nat, n: nat): nat { if n == 0 then 1 else radix * Power(radix, n - 1) }

  /** A digit before n others is worth its value times the n-th power of the radix. */
  lemma {:induction false} PlaceValue(s: Bytes, radix: nat)
    requires s != []
    ensures Magnitude(s, radix) == Digit(s[0]) * Power(radix, |s| - 1) + Magnitude(s[1..], radix)
    decreases |s|
  {
    hide Digit;
    var n := |s| - 1;
    if n == 0 {
      assert s[..0] == [] && s[1..] == [];
    } else {
      PlaceValue(s[..n], radix);
      assert s[..n][1..] == s[1..][..n - 1];
      var d, p, v := Digit(s[0]), Power(radix, n - 1), Magnitude(s[1..][..n - 1], radix);
      assert Magnitude(s, radix) == (d * p + v) * radix + Digit(s[n]);
      Scale(d, p, v, radix);
      assert Magnitude(s[1..], radix) == v * radix + Digit(s[n]);
    }
  }

  lemma Scale(d: nat, p: nat, v: nat, radix: nat)
    ensures (d * p + v) * radix == d * (radix * p) + v * radix
  {
    assert (d * p) * radix == d * (radix * p);
  }

  predicate DigitsOf(digits: Bytes, radix: nat) {
    digits != [] && forall i | 0 <= i < |digits| :: Digit(digits[i]) < radix
  }

  /** `0x` or `0X`, then hexadecimal digits; a zero, then octal digits; or decimal. */
  predicate Prefixed(prefix: Bytes, digits: Bytes) {
    || (prefix == [] && DigitsOf(digits, 10) && digits[0] != 0x30)
    || (prefix == [] && DigitsOf(digits, 8) && digits[0] == 0x30)
    || ((prefix == [0x30, 0x78] || prefix == [0x30, 0x58]) && DigitsOf(digits, 16))
  }

  function RadixOf(prefix: Bytes, digits: Bytes): nat
    requires digits != []
  { if prefix != [] then 16 else if digits[0] == 0x30 then 8 else 10 }

  lemma {:induction false} BlanksSkipped(blanks: Bytes, rest: Bytes, i: nat)
    requires i <= |blanks| && (forall k | 0 <= k < |blanks| :: IsBlank(blanks[k])) && !IsBlank(At(rest, 0))
    ensures SkipBlanks(blanks + rest, i) == |blanks|
    decreases |blanks| - i
  {
    if i < |blanks| { BlanksSkipped(blanks, rest, i + 1); }
  }

  lemma {:induction false} DigitsRun(s: Bytes, start: nat, end: nat, i: nat, radix: nat)
    requires start <= i <= end < |s| && radix <= 36
    requires (forall k | start <= k < end :: Digit(s[k]) < radix) && Digit(s[end]) >= radix
    ensures DigitsEnd(s, i, radix) == end
    decreases end - i
  {
    if i < end { DigitsRun(s, start, end, i + 1, radix); }
  }

  /** A declaration, piece after piece. */
  function Spelt(blanks: Bytes, sign: Bytes, prefix: Bytes, digits: Bytes, rest: Bytes): (s: Bytes)
    ensures |s| == |blanks| + |sign| + |prefix| + |digits| + 1 + |rest|
  { blanks + (sign + (prefix + (digits + ([OPEN] + rest)))) }

  lemma Suffix(a: Bytes, b: Bytes)
    ensures (a + b)[|a|..] == b && (a + b)[..|a|] == a
  {
  }

  lemma Slices(blanks: Bytes, sign: Bytes, prefix: Bytes, digits: Bytes, rest: Bytes)
    ensures var s := Spelt(blanks, sign, prefix, digits, rest);
            var k := |blanks| + |sign|;
            var start := k + |prefix|;
            && s == blanks + s[|blanks|..] && s[|blanks|..] == sign + s[k..]
            && s[k..] == prefix + (digits + ([OPEN] + rest))
            && s[start..start + |digits|] == digits && s[start + |digits|] == OPEN
  {
    var d := digits + ([OPEN] + rest);
    var p := prefix + d;
    Suffix(blanks, sign + p);
    Suffix(sign, p);
    Suffix(prefix, d);
    Suffix(digits, [OPEN] + rest);
    var s := Spelt(blanks, sign, prefix, digits, rest);
    var k := |blanks| + |sign|;
    assert s[k..] == s[|blanks|..][|sign|..];
    var start := k + |prefix|;
    assert s[start..] == s[k..][|prefix|..];
    assert s[start..start + |digits|] == s[start..][..|digits|];
    assert s[start + |digits|] == s[start..][|digits|];
  }

  lemma SignOf(blanks: Bytes, sign: Bytes, prefix: Bytes, digits: Bytes, rest: Bytes)
    requires forall k | 0 <= k < |blanks| :: IsBlank(blanks[k])
    requires (sign == [] || sign == [0x2B] || sign == [0x2D]) && Prefixed(prefix, digits)
    ensures var s := Spelt(blanks, sign, prefix, digits, rest);
            && SkipBlanks(s, 0) == |blanks|
            && if sign != [] then At(s, |blanks|) == sign[0] else At(s, |blanks|) != 0x2B && At(s, |blanks|) != 0x2D
  {
    hide Digit, SkipBlanks, Spelt, DigitsOf;
    var s := Spelt(blanks, sign, prefix, digits, rest);
    Slices(blanks, sign, prefix, digits, rest);
    var body := s[|blanks| + |sign|..];
    RadixDigits(prefix, digits);
    var d := digits + ([OPEN] + rest);
    assert d[0] == digits[0] && body == prefix + d;
    assert body[0] == if prefix != [] then prefix[0] else digits[0];
    FirstBytes(sign, prefix, digits, body);
    BlanksSkipped(blanks, s[|blanks|..], 0);
    assert At(s, |blanks|) == s[|blanks|..][0];
  }

  lemma DigitsAt(blanks: Bytes, sign: Bytes, prefix: Bytes, digits: Bytes, rest: Bytes)
    requires Prefixed(prefix, digits)
    ensures var s, start := Spelt(blanks, sign, prefix, digits, rest), |blanks| + |sign| + |prefix|;
            && digits != [] && s[start..start + |digits|] == digits && At(s, start + |digits|) == OPEN
            && RadixOf(prefix, digits) <= 16 && Base0(s, |blanks| + |sign|) == (start, RadixOf(prefix, digits))
            && DigitsEnd(s, start, RadixOf(prefix, digits)) == start + |digits|
  {
    hide Digit, DigitsEnd, Base0, Spelt, Prefixed, RadixOf, DigitsOf;
    var s := Spelt(blanks, sign, prefix, digits, rest);
    var start := |blanks| + |sign| + |prefix|;
    Slices(blanks, sign, prefix, digits, rest);
    BaseOf(s, |blanks| + |sign|, prefix, digits, rest);
    RadixDigits(prefix, digits);
    DigitsThere(s, digits, start, start + |digits|, RadixOf(prefix, digits));
  }

  /** A declaration `number (` is read as its number, whatever follows. */
  lemma DeclaredMeans(blanks: Bytes, sign: Bytes, prefix: Bytes, digits: Bytes, rest: Bytes)
    requires forall k | 0 <= k < |blanks| :: IsBlank(blanks[k])
    requires (sign == [] || sign == [0x2B] || sign == [0x2D]) && Prefixed(prefix, digits)
    ensures var n := Magnitude(digits, RadixOf(prefix, digits));
            Declared(Spelt(blanks, sign, prefix, digits, rest)) ==
            if n <= LONG_MAX && (sign == [0x2D] ==> n == 0)
            then Some((|blanks| + |sign| + |prefix| + |digits| + 1, n)) else None
  {
    hide Magnitude, SkipBlanks, DigitsEnd, Strtol, Base0, Spelt, Prefixed, RadixOf;
    SignOf(blanks, sign, prefix, digits, rest);
    DigitsAt(blanks, sign, prefix, digits, rest);
    var start := |blanks| + |sign| + |prefix|;
    StrtolAt(Spelt(blanks, sign, prefix, digits, rest), |blanks|, sign, start, start + |digits|,
             RadixOf(prefix, digits));
  }

  lemma DigitsThere(s: Bytes, digits: Bytes, start: nat, end: nat, radix: nat)
    requires DigitsOf(digits, radix) && radix <= 16 && end < |s| && end == start + |digits|
    requires s[start..end] == digits && s[end] == OPEN
    ensures DigitsEnd(s, start, radix) == end
  {
    hide Digit;
    DigitBytes(OPEN);
    assert forall j | start <= j < end :: s[j] == s[start..end][j - start];
    DigitsRun(s, start, end, start, radix);
  }

  lemma FirstBytes(sign: Bytes, prefix: Bytes, digits: Bytes, body: Bytes)
    requires (sign == [] || sign == [0x2B] || sign == [0x2D]) && Prefixed(prefix, digits)
    requires body != [] && body[0] == if prefix != [] then prefix[0] else digits[0]
    ensures var tail := sign + body;
            && !IsBlank(tail[0])
            && (if sign != [] then tail[0] == sign[0] else tail[0] != 0x2B && tail[0] != 0x2D)
  {
    hide Digit;
    DigitBytes(digits[0]);
    DigitBytes(0x30);
  }

  lemma RadixDigits(prefix: Bytes, digits: Bytes)
    requires Prefixed(prefix, digits)
    ensures digits != [] && DigitsOf(digits, RadixOf(prefix, digits)) && RadixOf(prefix, digits) <= 16
  {
    hide Digit;
  }

  lemma BaseOf(s: Bytes, k: nat, prefix: Bytes, digits: Bytes, rest: Bytes)
    requires k <= |s| && s[k..] == prefix + (digits + ([OPEN] + rest)) && Prefixed(prefix, digits)
    ensures Base0(s, k) == (k + |prefix|, RadixOf(prefix, digits))
  {
    hide Digit;
    DigitBytes(digits[0]);
    DigitBytes(0x30);
    DigitBytes(OPEN);
    var t := prefix + (digits + ([OPEN] + rest));
    assert forall j | 0 <= j < |t| :: At(s, k + j) == t[j] by {
      assert forall j | 0 <= j < |t| :: s[k..][j] == s[k + j];
    }
    if prefix != [] {
      assert t[0] == prefix[0] && t[1] == prefix[1] && t[2] == digits[0];
      assert At(s, k + 0) == t[0] && At(s, k + 1) == t[1] && At(s, k + 2) == t[2];
    } else {
      assert t[0] == digits[0] && At(s, k + 0) == t[0];
      assert t[1] == if |digits| > 1 then digits[1] else OPEN;
      assert At(s, k + 1) == t[1];
      if |digits| > 1 { DigitBytes(digits[1]); }
    }
  }

  lemma StrtolAt(s: Bytes, i: nat, sign: Bytes, start: nat, end: nat, radix: nat)
    requires SkipBlanks(s, 0) == i && (sign == [] || sign == [0x2B] || sign == [0x2D])
    requires if sign != [] then At(s, i) == sign[0] else At(s, i) != 0x2B && At(s, i) != 0x2D
    requires Base0(s, i + |sign|) == (start, radix) && DigitsEnd(s, start, radix) == end && start < end <= |s|
    ensures var n := Magnitude(s[start..end], radix);
            Strtol(s) == Number(if sign == [0x2D] then 0 - n else n, end)
  {
    hide Magnitude, SkipBlanks, DigitsEnd, Base0;
  }

  lemma DigitBytes(b: Byte)
    ensures Digit(b) < 16 ==> !IsBlank(b) && b != 0x2B && b != 0x2D && b != 0x78 && b != 0x58
    ensures Digit(0x30) == 0 && Digit(OPEN) == 99
  {
  }

  /** A payload: after `bin(`, a declared number of bytes that are there. */
  lemma PayloadMeans(blanks: Bytes, prefix: Bytes, digits: Bytes, payload: Bytes, rest: Bytes)
    requires (forall k | 0 <= k < |blanks| :: IsBlank(blanks[k])) && Prefixed(prefix, digits)
    requires |payload| == Magnitude(digits, RadixOf(prefix, digits)) && |payload| <= LONG_MAX
    ensures var head := [0x62, 0x69, 0x6E, OPEN] + Spelt(blanks, [], prefix, digits, []);
            && Look(head + payload + rest) == Payload(|head|, |payload|)
            && Mask(head + payload + rest) ==
               if Mask(rest).Some? then Some(head + Hashes(|payload|) + Mask(rest).value) else None
  {
    hide Magnitude, Declared, Mask, Prefixed, RadixOf;
    var head := [0x62, 0x69, 0x6E, OPEN] + Spelt(blanks, [], prefix, digits, []);
    var s := head + payload + rest;
    DeclaredMeans(blanks, [], prefix, digits, payload + rest);
    assert s[4..] == Spelt(blanks, [], prefix, digits, payload + rest);
    assert s[..|head|] == head && s[|head| + |payload|..] == rest;
    MaskPayload(s);
  }

  lemma MaskPayload(s: Bytes)
    requires Look(s).Payload?
    ensures var n := Look(s).start + Look(s).length;
            Mask(s) == if Mask(s[n..]).Some?
                then Some(s[..Look(s).start] + Hashes(Look(s).length) + Mask(s[n..]).value) else None
  {
  }
}
