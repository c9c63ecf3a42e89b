/** Reading the answer of a STUN server: a header, then attributes, some of which hold an address,
    plain or hidden under the transaction identifier. */
module Stun {
  import opened Bits
  import opened Wrappers

  type Bytes = seq<Byte>

  /** An address of version 4 or 6, as its four or sixteen octets, and a port. */
  datatype Address = Address(octets: Bytes, port: Word)

  datatype Field = Ext | Src | Changed

  /** The exceptions: too few bytes for a number, for the family or for an address; an unknown family. */
  datatype Failure = StructError | IndexError | AddressError | UnknownFamily(family: Byte)

  type Parsed = map<Field, Address>

  function Slice(data: Bytes, lo: nat, hi: nat): (r: Bytes)
    requires lo <= hi
    ensures |r| <= hi - lo
  {
    if |data| <= lo then [] else if |data| <= hi then data[lo..] else data[lo..hi]
  }

  function Number(data: Bytes): (r: Word)
    requires |data| == 2
  {
    var hi: int, lo: int := data[0], data[1];
    hi * 256 + lo
  }

  function OctetsOf(w: Word): (r: Bytes)
    ensures |r| == 2 && Number(r) == w
  {
    [w / 256, w % 256]
  }

  function XorByte(a: Byte, b: Byte): Byte {
    Pow2Values();
    XorBound(a, b, 8);
    Xor(a, b)
  }

  /** Each byte under the byte of the identifier at its place; nothing is done without one. */
  function TransXor(data: Bytes, id: Bytes): (r: Bytes)
    requires id == [] || |data| <= |id|
    ensures |r| == |data|
  {
    if id == [] then data else seq(|data|, i requires 0 <= i < |data| => XorByte(data[i], id[i]))
  }

  lemma TransXorUndoes(data: Bytes, id: Bytes)
    requires id == [] || |data| <= |id|
    ensures TransXor(TransXor(data, id), id) == data
  {
    if id != [] {
      forall i | 0 <= i < |data| ensures TransXor(TransXor(data, id), id)[i] == data[i] {
        XorCancel(data[i], id[i]);
      }
    }
  }

  function FieldOf(kind: nat): Option<Field> {
    if kind == 0x0001 || kind == 0x0020 then Some(Ext)
    else if kind == 0x0004 then Some(Src)
    else if kind == 0x0005 then Some(Changed)
    else None
  }

  type Identifier = id: Bytes | |id| == 0 || |id| == 16

  function ParseAddress(data: Bytes, id: Identifier): Result<Address, Failure> {
    if |data| < 2 then Err(IndexError)
    else if |Slice(data, 2, 4)| < 2 then Err(StructError)
    else
      var family, port := data[1], Number(TransXor(Slice(data, 2, 4), id));
      if family != 1 && family != 2 then Err(UnknownFamily(family))
      else
        var n := if family == 1 then 4 else 16;
        var octets := Slice(data, 4, 4 + n);
        if |octets| < n then Err(AddressError) else Ok(Address(TransXor(octets, id), port))
  }

  /** What an address attribute says, byte by byte: the family, the port with its high byte first, and four
      or sixteen octets, the last two under the identifier if there is one. */
  lemma AddressMeans(data: Bytes, id: Identifier)
    ensures var r := ParseAddress(data, id); var n := if |data| >= 2 && data[1] == 1 then 4 else 16;
      && (r.Ok? <==> |data| >= 4 + n && (data[1] == 1 || data[1] == 2))
      && (r.Ok? && id == [] ==>
            r.value.octets == data[4..4 + n] && r.value.port == data[2] as int * 256 + data[3] as int)
      && (r.Ok? && id != [] ==>
            && r.value.port == Xor(data[2], id[0]) * 256 + Xor(data[3], id[1])
            && |r.value.octets| == n && forall i :: 0 <= i < n ==> r.value.octets[i] == Xor(data[4 + i], id[i]))
      && (r.Err? ==>
            r.error == (if |data| < 2 then IndexError else if |data| < 4 then StructError
                        else if data[1] == 1 || data[1] == 2 then AddressError else UnknownFamily(data[1])))
  {
    hide Xor;
  }

  datatype Step = Step(parsed: Parsed, len: nat)

  /** The attribute at the front of what is left. */
  function ParseOne(rest: Bytes, id: Identifier, parsed: Parsed): Result<Step, Failure> {
    if |rest| < 4 then Err(StructError)
    else
      var kind: nat, len: nat := Number(rest[..2]), Number(rest[2..4]);
      var field := FieldOf(kind);
      if field.None? then Ok(Step(parsed, len))
      else
        var address := ParseAddress(rest[4..], if kind == 0x0020 then id else []);
        if address.Err? then Err(address.error) else Ok(Step(parsed[field.value := address.value], len))
  }

  /** The attributes from an offset on; what they said before is already gathered. */
  function ParseFrom(resp: Bytes, id: Identifier, offset: nat, parsed: Parsed): Result<Parsed, Failure>
    decreases |resp| - offset
  {
    if |resp| <= offset then Ok(parsed)
    else
      var one := ParseOne(resp[offset..], id, parsed);
      if one.Err? then Err(one.error) else ParseFrom(resp, id, offset + 4 + one.value.len, one.value.parsed)
  }

  lemma ParseNext(resp: Bytes, id: Identifier, offset: nat, parsed: Parsed)
    requires offset < |resp|
    ensures var one := ParseOne(resp[offset..], id, parsed);
      ParseFrom(resp, id, offset, parsed) ==
      if one.Err? then Err(one.error) else ParseFrom(resp, id, offset + 4 + one.value.len, one.value.parsed)
  {
  }

  lemma ParseDone(resp: Bytes, id: Identifier, offset: nat, parsed: Parsed)
    requires |resp| <= offset
    ensures ParseFrom(resp, id, offset, parsed) == Ok(parsed)
  {
  }

  method ParseAttributes(resp: Bytes, id: Identifier) returns (r: Result<Parsed, Failure>)
    ensures r == ParseFrom(resp, id, 0, map[])
  {
    hide ParseFrom, ParseAddress;
    var parsed: Parsed := map[];
    var offset: nat := 0;
    var remaining: int := |resp|;
    while remaining > 0
      invariant remaining == |resp| - offset
      invariant ParseFrom(resp, id, 0, map[]) == ParseFrom(resp, id, offset, parsed)
    {
      ParseNext(resp, id, offset, parsed);
      var head := Slice(resp, offset, offset + 4);
      if |head| < 4 {
        return Err(StructError);
      }
      var kind: int, len: int := Number(head[..2]), Number(head[2..]);
      ghost var rest := resp[offset..];
      assert head == rest[..4] && head[..2] == rest[..2] && head[2..] == rest[2..4];
      assert resp[offset + 4..] == rest[4..];
      offset := offset + 4;
      var field := FieldOf(kind);
      if field.Some? {
        var address := ParseAddress(resp[offset..], if kind == 0x0020 then id else []);
        if address.Err? {
          return Err(address.error);
        }
        parsed := parsed[field.value := address.value];
      }
      offset := offset + len;
      remaining := remaining - (4 + len);
    }
    ParseDone(resp, id, offset, parsed);
    return Ok(parsed);
  }

  // ----- Reference: messages as section 15 of RFC 5389 lays them out -----

  datatype Kind = Mapped | XorMapped | Source | ChangedAddress

  /** An attribute that holds an address, or any other with its payload and the padding after it. */
  datatype Attribute =
    | Located(kind: Kind, reserved: Byte, address: Address)
    | Other(code: Word, payload: Bytes, pad: Bytes)

  function CodeOf(kind: Kind): Word {
    match kind
    case Mapped => 0x0001
    case XorMapped => 0x0020
    case Source => 0x0004
    case ChangedAddress => 0x0005
  }

  function KindField(kind: Kind): Field {
    match kind
    case Source => Src
    case ChangedAddress => Changed
    case _ => Ext
  }

  predicate WellFormed(a: Attribute) {
    match a
    case Located(_, _, address) => |address.octets| == 4 || |address.octets| == 16
    case Other(code, payload, pad) =>
      FieldOf(code).None? && |payload| < 0x10000 && |pad| < 4 && (|payload| + |pad|) % 4 == 0
  }

  predicate Aligned(a: Attribute) {
    a.Other? ==> |a.payload| % 4 == 0
  }

  function AddressBytes(reserved: Byte, address: Address, id: Identifier): (r: Bytes)
    requires |address.octets| == 4 || |address.octets| == 16
    ensures |r| == 4 + |address.octets|
  {
    [reserved, if |address.octets| == 4 then 1 else 2]
    + TransXor(OctetsOf(address.port), id) + TransXor(address.octets, id)
  }

  /** The length field counts the payload without the padding. */
  function Encode(a: Attribute, id: Identifier): Bytes
    requires WellFormed(a)
  {
    match a
    case Located(kind, reserved, address) =>
      OctetsOf(CodeOf(kind)) + OctetsOf(4 + |address.octets|) +
      AddressBytes(reserved, address, if kind.XorMapped? then id else [])
    case Other(code, payload, pad) => OctetsOf(code) + OctetsOf(|payload|) + payload + pad
  }

  predicate AllWellFormed(attrs: seq<Attribute>) {
    forall i :: 0 <= i < |attrs| ==> WellFormed(attrs[i])
  }

  function EncodeAll(attrs: seq<Attribute>, id: Identifier): Bytes
    requires AllWellFormed(attrs)
  {
    if attrs == [] then [] else Encode(attrs[0], id) + EncodeAll(attrs[1..], id)
  }

  /** The last address given for each field. */
  function Fields(attrs: seq<Attribute>, sofar: Parsed): Parsed {
    if attrs == [] then sofar
    else Fields(attrs[1..], if attrs[0].Located? then sofar[KindField(attrs[0].kind) := attrs[0].address] else sofar)
  }

  // ----- The round trip -----

  lemma SliceOfSum(a: Bytes, b: Bytes, c: Bytes)
    ensures Slice(a + b + c, |a|, |a| + |b|) == b
  {
    assert (a + b + c)[|a|..|a| + |b|] == b;
    if c == [] { assert a + b + c == a + b; assert (a + b)[|a|..] == b; }
  }

  lemma AddressRoundTrip(reserved: Byte, address: Address, id: Identifier, rest: Bytes)
    requires |address.octets| == 4 || |address.octets| == 16
    ensures ParseAddress(AddressBytes(reserved, address, id) + rest, id) == Ok(address)
  {
    var head: Bytes := [reserved, if |address.octets| == 4 then 1 else 2];
    var port, octets := TransXor(OctetsOf(address.port), id), TransXor(address.octets, id);
    var data := AddressBytes(reserved, address, id) + rest;
    assert data == head + port + (octets + rest) == (head + port) + octets + rest;
    SliceOfSum(head, port, octets + rest);
    SliceOfSum(head + port, octets, rest);
    TransXorUndoes(OctetsOf(address.port), id);
    TransXorUndoes(address.octets, id);
    assert data[1] == head[1];
  }

  /** What was read already does not matter for what is left. */
  lemma {:induction false} ParseShift(s: Bytes, k: nat, b: Bytes, id: Identifier, offset: nat, at: nat, parsed: Parsed)
    requires k <= |s| && s[k..] == b && at == k + offset
    ensures ParseFrom(s, id, at, parsed) == ParseFrom(b, id, offset, parsed)
    decreases |b| - offset
  {
    hide ParseOne, ParseFrom;
    if |b| <= offset {
      ParseDone(s, id, at, parsed);
      ParseDone(b, id, offset, parsed);
    } else {
      assert s[at..] == b[offset..];
      ParseNext(s, id, at, parsed);
      ParseNext(b, id, offset, parsed);
      var one := ParseOne(b[offset..], id, parsed);
      if one.Ok? {
        ParseShift(s, k, b, id, offset + 4 + one.value.len, at + 4 + one.value.len, one.value.parsed);
      }
    }
  }

  function After(a: Attribute, parsed: Parsed): Parsed {
    if a.Located? then parsed[KindField(a.kind) := a.address] else parsed
  }

  lemma LocatedIsRead(a: Attribute, id: Identifier, rest: Bytes, parsed: Parsed)
    requires a.Located? && WellFormed(a)
    ensures ParseOne(Encode(a, id) + rest, id, parsed) == Ok(Step(After(a, parsed), 4 + |a.address.octets|))
    ensures |Encode(a, id)| == 8 + |a.address.octets|
  {
    hide AddressBytes, ParseAddress, OctetsOf;
    var mask: Identifier := if a.kind.XorMapped? then id else [];
    var body := AddressBytes(a.reserved, a.address, mask);
    Head(CodeOf(a.kind), 4 + |a.address.octets|, body, rest);
    AddressRoundTrip(a.reserved, a.address, mask, rest);
  }

  lemma Head(code: Word, len: Word, body: Bytes, rest: Bytes)
    ensures var data := OctetsOf(code) + OctetsOf(len) + body + rest;
      data[..2] == OctetsOf(code) && data[2..4] == OctetsOf(len) && data[4..] == body + rest
  {
  }

  lemma OtherIsSkipped(a: Attribute, id: Identifier, rest: Bytes, parsed: Parsed)
    requires a.Other? && WellFormed(a)
    ensures ParseOne(Encode(a, id) + rest, id, parsed) == Ok(Step(parsed, |a.payload|))
    ensures |Encode(a, id)| == 4 + |a.payload| + |a.pad|
  {
    var data := Encode(a, id) + rest;
    assert data[..2] == OctetsOf(a.code) && data[2..4] == OctetsOf(|a.payload|);
  }

  lemma FirstIsRead(a: Attribute, id: Identifier, rest: Bytes, parsed: Parsed)
    requires WellFormed(a) && Aligned(a)
    ensures ParseFrom(Encode(a, id) + rest, id, 0, parsed) == ParseFrom(rest, id, 0, After(a, parsed))
  {
    hide ParseOne, ParseFrom, Encode;
    var enc := Encode(a, id);
    assert (enc + rest)[0..] == enc + rest;
    if a.Located? { LocatedIsRead(a, id, rest, parsed); } else { OtherIsSkipped(a, id, rest, parsed); }
    ParseNext(enc + rest, id, 0, parsed);
    assert (enc + rest)[|enc|..] == rest;
    ParseShift(enc + rest, |enc|, rest, id, 0, |enc|, After(a, parsed));
  }

  lemma {:induction false} AlignedAreRead(attrs: seq<Attribute>, id: Identifier, tail: Bytes, parsed: Parsed)
    requires AllWellFormed(attrs) && forall i :: 0 <= i < |attrs| ==> Aligned(attrs[i])
    ensures ParseFrom(EncodeAll(attrs, id) + tail, id, 0, parsed) == ParseFrom(tail, id, 0, Fields(attrs, parsed))
  {
    hide ParseFrom, Encode;
    if attrs == [] {
      assert [] + tail == tail;
    } else {
      var first, others := Encode(attrs[0], id), EncodeAll(attrs[1..], id);
      assert first + others + tail == first + (others + tail);
      FirstIsRead(attrs[0], id, others + tail, parsed);
      AlignedAreRead(attrs[1..], id, tail, After(attrs[0], parsed));
    }
  }

  /** Reading a list of attributes whose lengths are multiples of four gives each field the last
      address the list has for it, plain or hidden, of either family. */
  lemma AttributesRoundTrip(attrs: seq<Attribute>, id: Identifier)
    requires AllWellFormed(attrs) && forall i :: 0 <= i < |attrs| ==> Aligned(attrs[i])
    ensures ParseFrom(EncodeAll(attrs, id), id, 0, map[]) == Ok(Fields(attrs, map[]))
  {
    AlignedAreRead(attrs, id, [], map[]);
    assert EncodeAll(attrs, id) + [] == EncodeAll(attrs, id);
    ParseDone([], id, 0, Fields(attrs, map[]));
  }

  /** The padding of an attribute that ends the message is taken for the head of another one. */
  lemma PaddingIsAnError(a: Attribute, id: Identifier, parsed: Parsed)
    requires WellFormed(a) && !Aligned(a)
    ensures ParseFrom(Encode(a, id), id, 0, parsed) == Err(StructError)
  {
    var enc := Encode(a, id);
    assert enc + [] == enc && enc[0..] == enc;
    OtherIsSkipped(a, id, [], parsed);
    ParseNext(enc, id, 0, parsed);
    ParseNext(enc, id, 4 + |a.payload|, parsed);
  }

  lemma {:induction false} EncodeSum(a: seq<Attribute>, b: seq<Attribute>, id: Identifier)
    requires AllWellFormed(a) && AllWellFormed(b)
    ensures AllWellFormed(a + b) && EncodeAll(a + b, id) == EncodeAll(a, id) + EncodeAll(b, id)
  {
    hide Encode;
    if a == [] {
      assert a + b == b;
    } else {
      assert (a + b)[1..] == a[1..] + b;
      EncodeSum(a[1..], b, id);
    }
  }

  predicate ReadsBack(attrs: seq<Attribute>, id: Identifier)
    requires AllWellFormed(attrs)
  {
    ParseFrom(EncodeAll(attrs, id), id, 0, map[]) == Ok(Fields(attrs, map[]))
  }

  lemma UnalignedDoesNotReadBack(attrs: seq<Attribute>, id: Identifier, n: nat)
    requires AllWellFormed(attrs) && n < |attrs| && !Aligned(attrs[n]) && forall i :: 0 <= i < n ==> Aligned(attrs[i])
    ensures !ReadsBack(attrs[..n + 1], id)
  {
    hide ParseFrom, Encode;
    var last := [attrs[n]];
    assert attrs[..n + 1] == attrs[..n] + last && last[1..] == [];
    EncodeSum(attrs[..n], last, id);
    assert EncodeAll(last, id) == Encode(attrs[n], id) + [] == Encode(attrs[n], id);
    AlignedAreRead(attrs[..n], id, Encode(attrs[n], id), map[]);
    PaddingIsAnError(attrs[n], id, Fields(attrs[..n], map[]));
  }

  /** The messages made of a list's first attributes all read back exactly when every length is a
      multiple of four: the padding the standard asks for is not skipped. */
  lemma ReadsBackIffAligned(attrs: seq<Attribute>, id: Identifier)
    requires AllWellFormed(attrs)
    ensures (forall n :: 0 <= n <= |attrs| ==> ReadsBack(attrs[..n], id))
       <==> (forall i :: 0 <= i < |attrs| ==> Aligned(attrs[i]))
  {
    hide ReadsBack;
    if forall i :: 0 <= i < |attrs| ==> Aligned(attrs[i]) {
      forall n | 0 <= n <= |attrs| ensures ReadsBack(attrs[..n], id) {
        PrefixReadsBack(attrs, id, n);
      }
    } else {
      var n := 0;
      while Aligned(attrs[n])
        invariant n < |attrs| && forall i :: 0 <= i < n ==> Aligned(attrs[i])
        decreases |attrs| - n
      {
        n := n + 1;
      }
      UnalignedDoesNotReadBack(attrs, id, n);
    }
  }

  lemma PrefixReadsBack(attrs: seq<Attribute>, id: Identifier, n: nat)
    requires AllWellFormed(attrs) && n <= |attrs| && forall i :: 0 <= i < |attrs| ==> Aligned(attrs[i])
    ensures ReadsBack(attrs[..n], id)
  {
    AttributesRoundTrip(attrs[..n], id);
  }

  // ----- The whole message -----

  datatype HeaderFailure = TooShort | InvalidType(kind: Word) | IdMismatch

  /** The header: type, length, and the identifier the request was sent with. */
  function Payload(resp: Bytes, id: Identifier): Result<Bytes, HeaderFailure> {
    if |resp| < 4 then Err(TooShort)
    else
      var kind, len: nat := Number(resp[..2]), Number(resp[2..4]);
      if kind != 0x0101 then Err(InvalidType(kind))
      else if Slice(resp, 4, 20) != id then Err(IdMismatch)
      else Ok(Slice(resp, 20, 20 + len))
  }

  /** When a datagram is taken for the answer: it is a binding response, number 0x0101, under the
      identifier; the payload is what follows, as far as the length in it goes. */
  lemma PayloadIff(resp: Bytes, id: Identifier)
    requires |id| == 16
    ensures var r := Payload(resp, id);
      && (r.Ok? <==> |resp| >= 20 && resp[0] == 1 && resp[1] == 1 && resp[4..20] == id)
      && (r.Ok? ==>
            var len := resp[2] as int * 256 + resp[3] as int;
            r.value == if |resp| <= 20 + len then resp[20..] else resp[20..20 + len])
      && (r.Err? ==>
            r.error == (if |resp| < 4 then TooShort
                        else if resp[0] != 1 || resp[1] != 1 then InvalidType(Number(resp[..2])) else IdMismatch))
  {
  }

  lemma PayloadRoundTrip(body: Bytes, id: Identifier, tail: Bytes)
    requires |id| == 16 && |body| < 0x10000
    ensures Payload(OctetsOf(0x0101) + OctetsOf(|body|) + id + body + tail, id) == Ok(body)
  {
    hide Slice;
    var head := OctetsOf(0x0101) + OctetsOf(|body|);
    var resp := head + id + body + tail;
    assert resp[..2] == OctetsOf(0x0101) && resp[2..4] == OctetsOf(|body|);
    assert resp == head + id + (body + tail);
    SliceOfSum(head, id, body + tail);
    SliceOfSum(head + id, body, tail);
  }

  /** A well-formed answer, whatever follows it in the datagram, gives the addresses in it. */
  lemma MessageRoundTrip(attrs: seq<Attribute>, id: Identifier, tail: Bytes)
    requires |id| == 16 && AllWellFormed(attrs) && forall i :: 0 <= i < |attrs| ==> Aligned(attrs[i])
    requires |EncodeAll(attrs, id)| < 0x10000
    ensures var body := EncodeAll(attrs, id);
      var payload := Payload(OctetsOf(0x0101) + OctetsOf(|body|) + id + body + tail, id);
      payload == Ok(body) && ParseFrom(payload.value, id, 0, map[]) == Ok(Fields(attrs, map[]))
  {
    hide ParseFrom, EncodeAll, Payload;
    PayloadRoundTrip(EncodeAll(attrs, id), id, tail);
    AttributesRoundTrip(attrs, id);
  }
}
