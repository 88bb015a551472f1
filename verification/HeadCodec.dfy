/**
 The frame head, a proto3 message of three varint fields: MsgID = 1 (an open enum),
 BodyLen = 2 (int32) and IsCompressed = 3 (bool).
 */
module HeadCodec {
  import opened Common
  import opened Bytes

  datatype Head = Head(msgID: int32, bodyLen: int32, isCompressed: bool)

  const EMPTY_HEAD := Head(0, 0, false)

  // ----- base-128 varints

  function Varint(n: nat): (r: seq<byte>)
    ensures |r| >= 1
  {
    if n < 128 then [n] else [128 + n % 128] + Varint(n / 128)
  }

  /** Read a varint whose first byte here is byte number `k`; the tenth byte may only add one bit. */
  function ReadVarint(s: seq<byte>, k: nat): (r: Option<(nat, nat)>)
    requires k <= 9
    ensures r.Some? ==> 1 <= r.value.1 <= |s|
    decreases 9 - k
  {
    if s == [] then None
    else if k == 9 then (if s[0] < 2 then Some((s[0], 1)) else None)
    else if s[0] < 128 then Some((s[0], 1))
    else match ReadVarint(s[1..], k + 1)
      case None => None
      case Some((v, used)) => Some((s[0] - 128 + 128 * v, used + 1))
  }

  /** One more than the largest value that bytes number `k` to 9 can hold. */
  function Room(k: nat): nat
    requires k <= 9
    decreases 9 - k
  {
    if k == 9 then 2 else 128 * Room(k + 1)
  }

  lemma RoomIs64Bits()
    ensures Room(0) == TWO_64
  {
    assert Room(6) == 128 * 128 * 128 * 2;
    assert Room(3) == 128 * 128 * 128 * Room(6);
    assert Room(0) == 128 * 128 * 128 * Room(3);
  }

  lemma {:induction false} VarintRoundTripFrom(n: nat, k: nat, rest: seq<byte>)
    requires k <= 9 && n < Room(k)
    ensures ReadVarint(Varint(n) + rest, k) == Some((n, |Varint(n)|))
    decreases 9 - k
  {
    var s := Varint(n) + rest;
    if n >= 128 {
      assert s[0] == 128 + n % 128;
      assert s[1..] == Varint(n / 128) + rest;
      VarintRoundTripFrom(n / 128, k + 1, rest);
    } else {
      assert s[0] == n;
    }
  }

  lemma VarintRoundTrip(n: nat, rest: seq<byte>)
    requires n < TWO_64
    ensures ReadVarint(Varint(n) + rest, 0) == Some((n, |Varint(n)|))
  {
    RoomIs64Bits();
    VarintRoundTripFrom(n, 0, rest);
  }

  lemma {:induction false} VarintLength(n: nat, k: nat)
    requires k <= 9 && n < Room(k)
    ensures |Varint(n)| <= 10 - k
    decreases 9 - k
  {
    if n >= 128 { VarintLength(n / 128, k + 1); }
  }

  /** The number that base-128 digits stand for, least significant first. */
  function Digits(s: seq<byte>): nat {
    if s == [] then 0 else s[0] % 128 + 128 * Digits(s[1..])
  }

  /** A varint is the shortest row of base-128 digits of its number, and all bytes but the last have the top bit. */
  lemma {:induction false} VarintIsBase128(n: nat)
    ensures var s := Varint(n);
      && Digits(s) == n && s[|s| - 1] < 128 && (forall k :: 0 <= k < |s| - 1 ==> s[k] >= 128)
      && (s[|s| - 1] == 0 ==> |s| == 1)
  {
    if n >= 128 {
      VarintIsBase128(n / 128);
      var s := Varint(n);
      assert s[1..] == Varint(n / 128) && s[0] == 128 + n % 128;
    }
  }

  // ----- the message

  /** Fields in number order; a field with its default value is not written. */
  function EncodeHead(h: Head): seq<byte> {
    (if h.msgID == 0 then [] else [0x08] + Varint(ToUint64(h.msgID))) +
    (if h.bodyLen == 0 then [] else [0x10] + Varint(ToUint64(h.bodyLen))) +
    (if h.isCompressed then [0x18] + Varint(1) else [])
  }

  function SetField(h: Head, num: nat, v: nat): Head {
    match num
    case 1 => h.(msgID := ToInt32(v))
    case 2 => h.(bodyLen := ToInt32(v))
    case 3 => h.(isCompressed := v != 0)
    case _ => h
  }

  /** The number of bytes that an unknown field takes after its tag. */
  function SkipField(s: seq<byte>, wire: nat): (r: Option<nat>)
    ensures r.Some? ==> r.value <= |s|
  {
    match wire
    case 0 => (match ReadVarint(s, 0) case None => None case Some((_, used)) => Some(used))
    case 1 => if |s| >= 8 then Some(8) else None
    case 2 =>
      (match ReadVarint(s, 0)
       case None => None
       case Some((len, used)) => if used + len <= |s| then Some(used + len) else None)
    case 5 => if |s| >= 4 then Some(4) else None
    case _ => None
  }

  /** Parse the fields of `s` on top of `h`: the last value of a field wins, unknown fields are skipped. */
  function DecodeHead(s: seq<byte>, h: Head): Option<Head>
    decreases |s|
  {
    if s == [] then Some(h)
    else match ReadVarint(s, 0)
      case None => None
      case Some((tag, used)) =>
        var num, wire, after := tag / 8, tag % 8, s[used..];
        if num < 1 || num >= 0x2000_0000 then None
        else if num <= 3 && wire == 0 then
          (match ReadVarint(after, 0)
           case None => None
           case Some((v, n)) => DecodeHead(after[n..], SetField(h, num, v)))
        else
          (match SkipField(after, wire)
           case None => None
           case Some(n) => DecodeHead(after[n..], h))
  }

  lemma DecodeStep(s: seq<byte>, num: nat, v: nat, used: nat, h: Head)
    requires 1 <= num <= 3 && s != [] && s[0] == 8 * num && ReadVarint(s[1..], 0) == Some((v, used))
    ensures DecodeHead(s, h) == DecodeHead(s[1..][used..], SetField(h, num, v))
  {
    assert ReadVarint(s, 0) == Some((8 * num, 1));
  }

  /** A field that was written sets just that field, on top of what was read before. */
  lemma DecodeField(num: nat, v: nat, rest: seq<byte>, h: Head)
    requires 1 <= num <= 3 && v < TWO_64
    ensures DecodeHead([8 * num] + Varint(v) + rest, h) == DecodeHead(rest, SetField(h, num, v))
  {
    var s: seq<byte> := [8 * num] + Varint(v) + rest;
    assert s[1..] == Varint(v) + rest;
    VarintRoundTrip(v, rest);
    assert s[1..][|Varint(v)|..] == rest;
    DecodeStep(s, num, v, |Varint(v)|, h);
  }

  lemma SetFieldMeans(h: Head, v: nat)
    ensures SetField(h, 1, v) == Head(ToInt32(v), h.bodyLen, h.isCompressed)
    ensures SetField(h, 2, v) == Head(h.msgID, ToInt32(v), h.isCompressed)
    ensures SetField(h, 3, v) == Head(h.msgID, h.bodyLen, v != 0)
  {}

  /** Every head survives the wire, whatever its message id. */
  lemma HeadRoundTrip(h: Head)
    ensures DecodeHead(EncodeHead(h), EMPTY_HEAD) == Some(h)
  {
    var id: seq<byte> := if h.msgID == 0 then [] else [0x08] + Varint(ToUint64(h.msgID));
    var len: seq<byte> := if h.bodyLen == 0 then [] else [0x10] + Varint(ToUint64(h.bodyLen));
    var zip: seq<byte> := if h.isCompressed then [0x18] + Varint(1) else [];
    Int32RoundTrip(h.msgID);
    Int32RoundTrip(h.bodyLen);
    var h1 := EMPTY_HEAD.(msgID := h.msgID);
    var h2 := h1.(bodyLen := h.bodyLen);
    assert DecodeHead(id + (len + zip), EMPTY_HEAD) == DecodeHead(len + zip, h1) by {
      if h.msgID != 0 {
        DecodeField(1, ToUint64(h.msgID), len + zip, EMPTY_HEAD);
        assert [0x08] + Varint(ToUint64(h.msgID)) + (len + zip) == id + (len + zip);
      } else {
        assert id + (len + zip) == len + zip;
      }
    }
    assert DecodeHead(len + zip, h1) == DecodeHead(zip, h2) by {
      if h.bodyLen != 0 {
        DecodeField(2, ToUint64(h.bodyLen), zip, h1);
      } else {
        assert len + zip == zip;
      }
    }
    assert DecodeHead(zip, h2) == Some(h) by {
      if h.isCompressed {
        DecodeField(3, 1, [], h2);
        assert [0x18] + Varint(1) + [] == zip;
      }
    }
    assert id + len + zip == id + (len + zip);
  }

  /** A head always fits its one-byte length, and it is empty only for the default head. */
  lemma HeadLength(h: Head)
    ensures |EncodeHead(h)| <= 24
    ensures EncodeHead(h) == [] <==> h == EMPTY_HEAD
  {
    RoomIs64Bits();
    VarintLength(ToUint64(h.msgID), 0);
    VarintLength(ToUint64(h.bodyLen), 0);
  }

  lemma TwoByteVarint()
    ensures Varint(300) == [172, 2] && Varint(5) == [5] && Varint(1) == [1]
  {
    assert Varint(2) == [2];
    assert 300 % 128 == 44 && 300 / 128 == 2;
  }

  /** A head on the wire: message id 300, body length 5, compressed. */
  lemma HeadSample()
    ensures EncodeHead(Head(300, 5, true)) == [0x08, 172, 2, 0x10, 5, 0x18, 1]
  {
    TwoByteVarint();
    assert ToUint64(300) == 300 && ToUint64(5) == 5;
  }

  /** Fields that the message does not know are passed over whole: a varint, 8 bytes, 4 bytes, counted bytes. */
  lemma UnknownVarintSkipped(num: nat, v: nat, rest: seq<byte>, h: Head)
    requires 4 <= num <= 15 && v < TWO_64
    ensures DecodeHead([8 * num] + Varint(v) + rest, h) == DecodeHead(rest, h)
  {
    var s: seq<byte> := [8 * num] + Varint(v) + rest;
    VarintRoundTrip(v, rest);
    assert s[1..] == Varint(v) + rest;
    SkipOne(s, 8 * num, |Varint(v)|, rest, h);
  }

  lemma UnknownFixedSkipped(num: nat, payload: seq<byte>, rest: seq<byte>, h: Head)
    requires 4 <= num <= 15 && |payload| in {4, 8}
    ensures DecodeHead([8 * num + if |payload| == 8 then 1 else 5] + payload + rest, h) == DecodeHead(rest, h)
  {
    var tag: byte := 8 * num + if |payload| == 8 then 1 else 5;
    var s: seq<byte> := [tag] + payload + rest;
    assert s[1..] == payload + rest;
    SkipOne(s, tag, |payload|, rest, h);
  }

  lemma UnknownBytesSkipped(num: nat, payload: seq<byte>, rest: seq<byte>, h: Head)
    requires 4 <= num <= 15 && |payload| < TWO_64
    ensures DecodeHead([8 * num + 2] + Varint(|payload|) + payload + rest, h) == DecodeHead(rest, h)
  {
    var s: seq<byte> := [8 * num + 2] + Varint(|payload|) + payload + rest;
    VarintRoundTrip(|payload|, payload + rest);
    assert s[1..] == Varint(|payload|) + (payload + rest);
    SkipOne(s, 8 * num + 2, |Varint(|payload|)| + |payload|, rest, h);
  }

  lemma SkipOne(s: seq<byte>, tag: byte, used: nat, rest: seq<byte>, h: Head)
    requires s != [] && s[0] == tag && 32 <= tag < 128 && SkipField(s[1..], tag % 8) == Some(used)
    requires s[1..][used..] == rest
    ensures DecodeHead(s, h) == DecodeHead(rest, h)
  {
    assert ReadVarint(s, 0) == Some((tag as nat, 1));
  }
}
