/** The wire format: messages inside packets, and the in-place encoders. */
module Codec {
  import opened Basics

  type uint16 = x: int | 0 <= x < 0x1_0000
  type uint32 = x: int | 0 <= x < 0x1_0000_0000
  type int32 = x: int | -0x8000_0000 <= x < 0x8000_0000

  datatype Error = UnknownType | PacketTooLarge | TooShort | LengthMismatch

  datatype Result<T> = Ok(value: T) | Err(error: Error)

  const REQUEST: byte := 0x01
  const RESPONSE: byte := 0x02
  const NOTIFY: byte := 0x03

  const PACKET_DATA: byte := 0x04

  const MAX_BODY: nat := 0xFFFFFF

  datatype Message = Message(kind: byte, seqId: uint16, cmdId: uint32, errCode: int32, body: seq<byte>)

  datatype Packet = Packet(kind: byte, body: seq<byte>)

  // ----- Big-endian integers -----

  function PutU16(v: uint16): seq<byte> {
    [v / 0x100, v % 0x100]
  }

  function PutU24(v: int): seq<byte>
    requires 0 <= v <= MAX_BODY
  {
    [v / 0x1_0000, v / 0x100 % 0x100, v % 0x100]
  }

  function PutU32(v: uint32): seq<byte> {
    [v / 0x100_0000, v / 0x1_0000 % 0x100, v / 0x100 % 0x100, v % 0x100]
  }

  function GetU16(b: seq<byte>): uint16
    requires |b| == 2
  {
    b[0] as int * 0x100 + b[1]
  }

  function GetU24(b: seq<byte>): (v: nat)
    requires |b| == 3
    ensures v <= MAX_BODY
  {
    b[0] as int * 0x1_0000 + b[1] as int * 0x100 + b[2]
  }

  function GetU32(b: seq<byte>): uint32
    requires |b| == 4
  {
    b[0] as int * 0x100_0000 + b[1] as int * 0x1_0000 + b[2] as int * 0x100 + b[3]
  }

  /** Go's conversions between int32 and uint32 keep the bits. */
  function ToU32(x: int32): uint32 {
    if x < 0 then x + 0x1_0000_0000 else x
  }

  function ToI32(x: uint32): int32 {
    if x >= 0x8000_0000 then x - 0x1_0000_0000 else x
  }

  lemma U16RoundTrip(v: uint16)
    ensures GetU16(PutU16(v)) == v
  {
  }

  lemma U24RoundTrip(v: nat)
    requires v <= MAX_BODY
    ensures GetU24(PutU24(v)) == v
  {
    assert v / 0x1_0000 == v / 0x100 / 0x100;
  }

  lemma U32RoundTrip(v: uint32)
    ensures GetU32(PutU32(v)) == v
  {
    assert v / 0x1_0000 == v / 0x100 / 0x100 && v / 0x100_0000 == v / 0x1_0000 / 0x100;
  }

  lemma U16BytesRoundTrip(b: seq<byte>)
    requires |b| == 2
    ensures PutU16(GetU16(b)) == b
  {
  }

  lemma U24BytesRoundTrip(b: seq<byte>)
    requires |b| == 3
    ensures PutU24(GetU24(b)) == b
  {
    var v := GetU24(b);
    assert v / 0x100 == b[0] as int * 0x100 + b[1] && v / 0x1_0000 == b[0];
  }

  lemma U32BytesRoundTrip(b: seq<byte>)
    requires |b| == 4
    ensures PutU32(GetU32(b)) == b
  {
    var v := GetU32(b);
    assert v / 0x100 == b[0] as int * 0x1_0000 + b[1] as int * 0x100 + b[2];
    assert v / 0x1_0000 == b[0] as int * 0x100 + b[1];
    assert v / 0x100_0000 == b[0];
  }

  // ----- Messages -----

  function EncodeMessage(m: Message): Result<seq<byte>> {
    if m.kind == REQUEST then Ok([m.kind] + PutU16(m.seqId) + PutU32(m.cmdId) + m.body)
    else if m.kind == RESPONSE then
      Ok([m.kind] + PutU16(m.seqId) + PutU32(m.cmdId) + PutU32(ToU32(m.errCode)) + m.body)
    else if m.kind == NOTIFY then Ok([m.kind] + PutU32(m.cmdId) + m.body)
    else Err(UnknownType)
  }

  function DecodeMessage(data: seq<byte>): Result<Message> {
    if |data| < 1 then Err(TooShort)
    else if data[0] == REQUEST then
      if |data| < 7 then Err(TooShort)
      else Ok(Message(data[0], GetU16(data[1..3]), GetU32(data[3..7]), 0, data[7..]))
    else if data[0] == RESPONSE then
      if |data| < 11 then Err(TooShort)
      else Ok(Message(data[0], GetU16(data[1..3]), GetU32(data[3..7]), ToI32(GetU32(data[7..11])), data[11..]))
    else if data[0] == NOTIFY then
      if |data| < 5 then Err(TooShort)
      else Ok(Message(data[0], 0, GetU32(data[1..5]), 0, data[5..]))
    else Err(UnknownType)
  }

  /** The fields a message's type does not transmit, zeroed. */
  function Transmitted(m: Message): Message {
    m.(seqId := if m.kind == NOTIFY then 0 else m.seqId, errCode := if m.kind == RESPONSE then m.errCode else 0)
  }

  lemma DecodeAfterEncode(m: Message)
    requires EncodeMessage(m).Ok?
    ensures DecodeMessage(EncodeMessage(m).value) == Ok(Transmitted(m))
  {
    U16RoundTrip(m.seqId);
    U32RoundTrip(m.cmdId);
    U32RoundTrip(ToU32(m.errCode));
    var b := EncodeMessage(m).value;
    if m.kind == NOTIFY {
      assert b[1..5] == PutU32(m.cmdId) && b[5..] == m.body;
    } else {
      assert b[1..3] == PutU16(m.seqId) && b[3..7] == PutU32(m.cmdId);
      if m.kind == RESPONSE {
        assert b[7..11] == PutU32(ToU32(m.errCode)) && b[11..] == m.body;
      } else {
        assert b[7..] == m.body;
      }
    }
  }

  /** Decoding loses nothing: what decodes encodes back to the same bytes. */
  lemma EncodeAfterDecode(data: seq<byte>)
    requires DecodeMessage(data).Ok?
    ensures EncodeMessage(DecodeMessage(data).value) == Ok(data)
  {
    if data[0] == NOTIFY {
      U32BytesRoundTrip(data[1..5]);
      assert data == [data[0]] + data[1..5] + data[5..];
    } else {
      U16BytesRoundTrip(data[1..3]);
      U32BytesRoundTrip(data[3..7]);
      if data[0] == RESPONSE {
        U32BytesRoundTrip(data[7..11]);
        assert data == [data[0]] + data[1..3] + data[3..7] + data[7..11] + data[11..];
      } else {
        assert data == [data[0]] + data[1..3] + data[3..7] + data[7..];
      }
    }
  }

  // ----- Packets -----

  function EncodePacket(p: Packet): Result<seq<byte>> {
    if |p.body| > MAX_BODY then Err(PacketTooLarge) else Ok(Frame(p))
  }

  function Frame(p: Packet): (b: seq<byte>)
    requires |p.body| <= MAX_BODY
    ensures |b| == 4 + |p.body|
  {
    [p.kind] + PutU24(|p.body|) + p.body
  }

  function DecodePacket(data: seq<byte>): Result<Packet> {
    if |data| < 4 then Err(TooShort)
    else if |data| != 4 + GetU24(data[1..4]) then Err(LengthMismatch)
    else Ok(Packet(data[0], data[4..]))
  }

  lemma PacketRoundTrip(p: Packet)
    requires |p.body| <= MAX_BODY
    ensures DecodePacket(Frame(p)) == Ok(p)
  {
    U24RoundTrip(|p.body|);
    assert Frame(p)[1..4] == PutU24(|p.body|) && Frame(p)[4..] == p.body;
  }

  /** A byte string decodes exactly when it is the encoding of the packet it decodes to. */
  lemma PacketDecodesIffEncoded(data: seq<byte>, p: Packet)
    ensures DecodePacket(data) == Ok(p) <==> EncodePacket(p) == Ok(data)
  {
    if EncodePacket(p) == Ok(data) {
      PacketRoundTrip(p);
    }
    if DecodePacket(data) == Ok(p) {
      U24BytesRoundTrip(data[1..4]);
      assert data == [data[0]] + data[1..4] + data[4..];
    }
  }

  /** The one-pass encoder's meaning: a data packet around the encoded message. */
  function DataPacket(m: Message): Result<seq<byte>> {
    match EncodeMessage(m)
    case Err(e) => Err(e)
    case Ok(body) => EncodePacket(Packet(PACKET_DATA, body))
  }

  // ----- The wire format in numbers -----

  /** The number that bytes stand for, most significant first. */
  ghost function BigEndian(b: seq<byte>): nat {
    if b == [] then 0 else 0x100 * BigEndian(b[..|b| - 1]) + b[|b| - 1]
  }

  lemma BigEndianPair(a: byte, b: byte)
    ensures BigEndian([a, b]) == 0x100 * a as int + b
  {
    assert [a, b][..1] == [a] && [a][..0] == [];
    assert BigEndian([a]) == 0x100 * BigEndian([]) + a;
  }

  lemma BigEndianQuad(a: byte, b: byte, c: byte, d: byte)
    ensures BigEndian([a, b, c, d]) == 0x100_0000 * a as int + 0x1_0000 * b as int + 0x100 * c as int + d
  {
    BigEndianPair(a, b);
    assert [a, b, c, d][..3] == [a, b, c] && [a, b, c][..2] == [a, b];
  }

  lemma PutsAreBigEndian(v: uint16, w: uint32)
    ensures BigEndian(PutU16(v)) == v && BigEndian(PutU32(w)) == w
  {
    U32RoundTrip(w);
    BigEndianPair(PutU16(v)[0], PutU16(v)[1]);
    BigEndianQuad(PutU32(w)[0], PutU32(w)[1], PutU32(w)[2], PutU32(w)[3]);
  }

  /** The bytes of a message: its type, 1, 2 or 3; the sequence number of requests and
      responses; the command; the error code of responses, modulo 2^32; and the body. Other
      types have no encoding. */
  lemma MessageOnTheWire(m: Message)
    ensures EncodeMessage(m).Ok? <==> 1 <= m.kind <= 3
    ensures m.kind == 1 ==>
              var b := EncodeMessage(m).value;
              && |b| == 7 + |m.body| && b[0] == 1 && BigEndian(b[1..3]) == m.seqId && BigEndian(b[3..7]) == m.cmdId
              && b[7..] == m.body
    ensures m.kind == 2 ==>
              var b := EncodeMessage(m).value;
              && |b| == 11 + |m.body| && b[0] == 2 && BigEndian(b[1..3]) == m.seqId && BigEndian(b[3..7]) == m.cmdId
              && BigEndian(b[7..11]) == (if m.errCode < 0 then m.errCode + 0x1_0000_0000 else m.errCode) && b[11..] == m.body
    ensures m.kind == 3 ==>
              var b := EncodeMessage(m).value;
              |b| == 5 + |m.body| && b[0] == 3 && BigEndian(b[1..5]) == m.cmdId && b[5..] == m.body
  {
    PutsAreBigEndian(m.seqId, m.cmdId);
    PutsAreBigEndian(m.seqId, ToU32(m.errCode));
    if 1 <= m.kind <= 3 {
      var b := EncodeMessage(m).value;
      if m.kind == 3 {
        assert b[1..5] == PutU32(m.cmdId) && b[5..] == m.body;
      } else {
        assert b[1..3] == PutU16(m.seqId) && b[3..7] == PutU32(m.cmdId);
        if m.kind == 2 {
          assert b[7..11] == PutU32(ToU32(m.errCode)) && b[11..] == m.body;
        } else {
          assert b[7..] == m.body;
        }
      }
    }
  }

  /** Which byte strings decode. */
  lemma MessageDecodesIff(data: seq<byte>)
    ensures DecodeMessage(data).Ok? <==>
            |data| >= 1 && ((data[0] == 1 && |data| >= 7) || (data[0] == 2 && |data| >= 11) || (data[0] == 3 && |data| >= 5))
    ensures |data| >= 1 && !(1 <= data[0] <= 3) <==> DecodeMessage(data) == Err(UnknownType)
  {
  }

  /** The bytes of a packet: its type, its length in three bytes, and its body. */
  lemma PacketOnTheWire(p: Packet)
    ensures EncodePacket(p).Ok? <==> |p.body| <= 16777215
    ensures |p.body| <= 16777215 ==>
              var n := |p.body|;
              EncodePacket(p).value == [p.kind, n / 65536, n / 256 % 256, n % 256] + p.body
  {
  }

  /** A data packet has type 4. */
  lemma DataPacketOnTheWire(m: Message)
    ensures DataPacket(m).Ok? <==> 1 <= m.kind <= 3 && |EncodeMessage(m).value| <= 16777215
    ensures DataPacket(m).Ok? ==>
              var body := EncodeMessage(m).value;
              DataPacket(m).value == [4, |body| / 65536, |body| / 256 % 256, |body| % 256] + body
  {
    MessageOnTheWire(m);
    if EncodeMessage(m).Ok? {
      PacketOnTheWire(Packet(4, EncodeMessage(m).value));
    }
  }

  // ----- Byte slices -----

  /** A Go slice that starts at the front of its backing array. */
  datatype Slice = Slice(arr: array<byte>, len: nat)

  ghost predicate Fits(s: Slice) {
    s.len <= s.arr.Length
  }

  ghost function Contents(s: Slice): seq<byte>
    requires Fits(s)
    reads s.arr
  {
    s.arr[..s.len]
  }

  /** An array that differs from an earlier value exactly by `bytes` at `pos`. */
  ghost predicate Written(was: seq<byte>, now: seq<byte>, pos: nat, bytes: seq<byte>) {
    pos + |bytes| <= |was| && now == was[..pos] + bytes + was[pos + |bytes|..]
  }

  lemma WriteNext(was: seq<byte>, mid: seq<byte>, now: seq<byte>, pos: nat, first: seq<byte>, second: seq<byte>)
    requires Written(was, mid, pos, first) && Written(mid, now, pos + |first|, second)
    requires pos + |first| + |second| <= |was|
    ensures Written(was, now, pos, first + second)
  {
    assert mid[..pos + |first|] == was[..pos] + first;
    assert mid[pos + |first| + |second|..] == was[pos + |first| + |second|..];
    assert was[..pos] + first + second == was[..pos] + (first + second);
  }

  /** Copies bytes into an array, as copy and the PutUint functions do. */
  method CopyInto(a: array<byte>, pos: nat, bytes: seq<byte>)
    requires pos + |bytes| <= a.Length
    modifies a
    ensures Written(old(a[..]), a[..], pos, bytes)
  {
    var i := 0;
    while i < |bytes|
      invariant 0 <= i <= |bytes|
      invariant forall k :: 0 <= k < i ==> a[pos + k] == bytes[k]
      invariant forall k :: 0 <= k < a.Length && !(pos <= k < pos + i) ==> a[k] == old(a[k])
    {
      a[pos + i] := bytes[i];
      i := i + 1;
    }
    ghost var was := old(a[..]);
    assert a[..] == was[..pos] + bytes + was[pos + |bytes|..];
  }

  /** Makes room for `n` more bytes: the same array when it has the capacity, otherwise a
      copy in one at least twice as large. */
  method Grow(dst: Slice, n: nat) returns (r: Slice)
    requires Fits(dst)
    ensures Fits(r) && r.len == dst.len + n
    ensures r.arr[..dst.len] == Contents(dst)
    ensures if dst.len + n <= dst.arr.Length then r.arr == dst.arr else fresh(r.arr) && r.arr.Length >= 2 * dst.arr.Length
  {
    var need := dst.len + n;
    if dst.arr.Length < need {
      var newCap := dst.arr.Length * 2;
      if newCap < need {
        newCap := need;
      }
      var grown := new byte[newCap](_ => 0);
      CopyInto(grown, 0, dst.arr[..dst.len]);
      r := Slice(grown, need);
    } else {
      r := Slice(dst.arr, need);
    }
  }

  /** Writes the next field at its offset, right behind the fields already written. */
  method PutNext(a: array<byte>, at: nat, bytes: seq<byte>, ghost was: seq<byte>, ghost pos: nat, ghost done: seq<byte>)
    requires Written(was, a[..], pos, done) && at == pos + |done| && at + |bytes| <= a.Length
    modifies a
    ensures Written(was, a[..], pos, done + bytes)
  {
    ghost var mid := a[..];
    CopyInto(a, at, bytes);
    WriteNext(was, mid, a[..], pos, done, bytes);
  }

  /** Writes a message of known type field by field. */
  method PutMessage(a: array<byte>, pos: nat, m: Message)
    requires EncodeMessage(m).Ok? && pos + |EncodeMessage(m).value| <= a.Length
    modifies a
    ensures Written(old(a[..]), a[..], pos, EncodeMessage(m).value)
  {
    ghost var was := a[..];
    CopyInto(a, pos, [m.kind]);
    if m.kind == NOTIFY {
      PutNext(a, pos + 1, PutU32(m.cmdId), was, pos, [m.kind]);
      PutNext(a, pos + 5, m.body, was, pos, [m.kind] + PutU32(m.cmdId));
    } else {
      PutNext(a, pos + 1, PutU16(m.seqId), was, pos, [m.kind]);
      ghost var head := [m.kind] + PutU16(m.seqId) + PutU32(m.cmdId);
      PutNext(a, pos + 3, PutU32(m.cmdId), was, pos, [m.kind] + PutU16(m.seqId));
      if m.kind == RESPONSE {
        PutNext(a, pos + 7, PutU32(ToU32(m.errCode)), was, pos, head);
        PutNext(a, pos + 11, m.body, was, pos, head + PutU32(ToU32(m.errCode)));
      } else {
        PutNext(a, pos + 7, m.body, was, pos, head);
      }
    }
  }

  /** What an append promises whatever the buffer's capacity: the old bytes followed by the
      new ones, in the old array or a fresh one, with the rest of the old array untouched. */
  twostate predicate Appended(dst: Slice, new r: Slice, bytes: seq<byte>)
    requires Fits(dst)
    reads dst.arr, r.arr
  {
    && Fits(r)
    && Contents(r) == old(Contents(dst)) + bytes
    && (if dst.len + |bytes| <= dst.arr.Length
        then r.arr == dst.arr && dst.arr[r.len..] == old(dst.arr[dst.len + |bytes|..])
        else fresh(r.arr) && dst.arr[..] == old(dst.arr[..]))
  }

  method AppendMessage(dst: Slice, m: Message) returns (r: Result<Slice>)
    requires Fits(dst)
    modifies dst.arr
    ensures match EncodeMessage(m)
            case Err(e) => r == Err(e) && dst.arr[..] == old(dst.arr[..])
            case Ok(bytes) => r.Ok? && Appended(dst, r.value, bytes)
  {
    var len := EncodedMessageLen(m);
    if len.Err? {
      return Err(len.error);
    }
    var s := Grow(dst, len.value);
    ghost var was := s.arr[..];
    PutMessage(s.arr, dst.len, m);
    assert was[..dst.len] == old(Contents(dst));
    r := Ok(s);
  }

  method EncodedMessageLen(m: Message) returns (r: Result<nat>)
    ensures match EncodeMessage(m)
            case Err(e) => r == Err(e)
            case Ok(bytes) => r == Ok(|bytes|)
  {
    if m.kind == REQUEST {
      r := Ok(1 + 2 + 4 + |m.body|);
    } else if m.kind == RESPONSE {
      r := Ok(1 + 2 + 4 + 4 + |m.body|);
    } else if m.kind == NOTIFY {
      r := Ok(1 + 4 + |m.body|);
    } else {
      r := Err(UnknownType);
    }
  }

  method AppendPacket(dst: Slice, p: Packet) returns (r: Result<Slice>)
    requires Fits(dst)
    modifies dst.arr
    ensures match EncodePacket(p)
            case Err(e) => r == Err(e) && dst.arr[..] == old(dst.arr[..])
            case Ok(bytes) => r.Ok? && Appended(dst, r.value, bytes)
  {
    if |p.body| > MAX_BODY {
      return Err(PacketTooLarge);
    }
    var s := Grow(dst, 4 + |p.body|);
    ghost var was := s.arr[..];
    CopyInto(s.arr, dst.len, [p.kind]);
    PutNext(s.arr, dst.len + 1, PutU24(|p.body|), was, dst.len, [p.kind]);
    PutNext(s.arr, dst.len + 4, p.body, was, dst.len, [p.kind] + PutU24(|p.body|));
    assert was[..dst.len] == old(Contents(dst));
    r := Ok(s);
  }

  /** The one-pass encoder equals encoding the message and then the packet around it, with
      the same failures. */
  method EncodeDataMessagePacket(m: Message) returns (r: Result<Slice>)
    ensures match DataPacket(m)
            case Err(e) => r == Err(e)
            case Ok(bytes) => r.Ok? && fresh(r.value.arr) && Fits(r.value) && Contents(r.value) == bytes
  {
    var len := EncodedMessageLen(m);
    if len.Err? {
      return Err(len.error);
    }
    if len.value > MAX_BODY {
      return Err(PacketTooLarge);
    }
    var buf := new byte[4 + len.value](_ => 0);
    CopyInto(buf, 0, [PACKET_DATA]);
    CopyInto(buf, 1, PutU24(len.value));
    assert buf[..4] == [PACKET_DATA] + PutU24(len.value);
    r := AppendMessage(Slice(buf, 4), m);
  }
}
