/** One frame on the wire, and what one call of the reader does with its buffer, as functions. */
module Framing {
  import opened Common
  import opened Bytes
  import opened HeadCodec
  import C = Cipher
  import R = Reassembly

  /** The longest run of frames that one call of `DealMsgExt` handles. */
  const MAX_PACKETS := 16

  datatype Message = Message(id: int32, body: seq<byte>)

  datatype WireError = TooLong | TooShort | BadHead | NoKey | BadCipher(e: C.CipherError) | BadZip | Rejected

  /** `key` is None for a nil key pointer, and Some(None) for a key object without key bytes. */
  datatype Config = Config(
    maxMsgLen: int32,
    encrypt: bool,
    key: Option<Option<seq<byte>>>,
    mode: C.BlockMode,
    zip: seq<byte> -> Option<seq<byte>>,
    handler: Message -> bool
  )

  // ----- writing

  function Seal(cfg: Config, body: seq<byte>): Result<seq<byte>, WireError> {
    if cfg.encrypt && |body| > 0 then
      (match cfg.key
       case None => Err(NoKey)
       case Some(k) =>
         match C.Encrypt(cfg.mode, body, k)
         case Err(e) => Err(BadCipher(e))
         case Ok(sealed) => Ok(sealed))
    else Ok(body)
  }

  /** `GetCompressData`: bodies of at least `min` bytes are compressed when that makes them shorter. */
  function CompressData(cfg: Config, min: int32, body: seq<byte>): (seq<byte>, bool) {
    if |body| > 0 && min != 0 && |body| >= min then
      match cfg.zip(body)
      case None => (body, false)
      case Some(z) => if |z| < |body| then (z, true) else (body, false)
    else (body, false)
  }

  function HeadOf(id: int32, sealed: seq<byte>, compressed: bool): Head
    requires |sealed| < TWO_31
  {
    Head(id, |sealed|, compressed)
  }

  function Frame(id: int32, sealed: seq<byte>, compressed: bool): (r: seq<byte>)
    requires |sealed| < TWO_31
    ensures |r| >= 1
  {
    var head := EncodeHead(HeadOf(id, sealed, compressed));
    HeadLength(HeadOf(id, sealed, compressed));
    [|head| as byte] + head + sealed
  }

  // ----- reading

  datatype Parse = NeedMore | Malformed(e: WireError) | Packet(head: Head, sealed: seq<byte>, size: nat)

  /** The checks on the body, behind a head of `hlen` bytes. */
  function TakeBody(max: int32, buf: seq<byte>, hlen: nat, h: Head): (r: Parse)
    ensures r.Packet? ==> 1 <= r.size <= |buf| && r.head.bodyLen == |r.sealed|
  {
    if h.bodyLen > max then Malformed(TooLong)
    else if h.bodyLen < 0 then Malformed(TooShort)
    else if |buf| < hlen + 1 + h.bodyLen then NeedMore
    else Packet(h, buf[hlen + 1..hlen + 1 + h.bodyLen], hlen + 1 + h.bodyLen)
  }

  /** The checks of `DealMsgExt` on the front of its buffer, in its order. */
  function TakeFrame(max: int32, buf: seq<byte>): (r: Parse)
    ensures r.Packet? ==> 1 <= r.size <= |buf| && r.head.bodyLen == |r.sealed|
  {
    if |buf| < 1 then NeedMore
    else
      var hlen := buf[0];
      if hlen > max then Malformed(TooLong)
      else if hlen <= 0 then Malformed(TooShort)
      else if |buf| < hlen + 1 then NeedMore
      else match DecodeHead(buf[1..1 + hlen], EMPTY_HEAD)
        case None => Malformed(BadHead)
        case Some(h) => TakeBody(max, buf, hlen, h)
  }

  /** From the sealed body to the one that the handler sees; a "compressed" body is compressed again. */
  function Unseal(cfg: Config, head: Head, sealed: seq<byte>): Result<seq<byte>, WireError> {
    if sealed == [] then Ok([])
    else
      var plain :=
        if !cfg.encrypt then Ok(sealed)
        else match cfg.key
          case None => Err(NoKey)
          case Some(k) =>
            match C.Decrypt(cfg.mode, sealed, k)
            case Err(e) => Err(BadCipher(e))
            case Ok(p) => Ok(p);
      if plain.Err? || !head.isCompressed then plain
      else match cfg.zip(plain.value)
        case None => Err(BadZip)
        case Some(z) => Ok(z)
  }

  /** One round of the loop of `DealMsgExt` on the bytes `buf`. */
  function RoundOf(cfg: Config, buf: seq<byte>): R.Round<Message, WireError> {
    match TakeFrame(cfg.maxMsgLen, buf)
    case NeedMore => R.Round(R.Stop, [], buf)
    case Malformed(e) => R.Round(R.Fail(e), [], buf)
    case Packet(head, sealed, size) =>
      match Unseal(cfg, head, sealed)
      case Err(e) => R.Round(R.Fail(e), [], buf[size..])
      case Ok(body) =>
        var m := Message(head.msgID, body);
        R.Round(if cfg.handler(m) then R.Next else R.Fail(Rejected), [m], buf[size..])
  }

  function StepOf(cfg: Config): R.Step<Message, WireError> {
    (buf: seq<byte>) => RoundOf(cfg, buf)
  }

  // ----- one frame

  /** The reader's limits; a head with nothing in it has length 0 and is refused. */
  predicate Fits(max: int32, id: int32, sealed: seq<byte>, compressed: bool)
    requires |sealed| < TWO_31
  {
    && (id != 0 || sealed != [] || compressed)
    && |EncodeHead(HeadOf(id, sealed, compressed))| <= max
    && |sealed| <= max
  }

  lemma Slices<T>(x: T, a: seq<T>, b: seq<T>, rest: seq<T>)
    ensures var f := [x] + a + b; var n := 1 + |a|;
      && |f| == n + |b| && (f + rest)[0] == x
      && (f + rest)[1..n] == a && (f + rest)[n..|f|] == b && (f + rest)[|f|..] == rest
  {}

  lemma FrameParts(id: int32, sealed: seq<byte>, compressed: bool, rest: seq<byte>)
    requires |sealed| < TWO_31
    ensures var head := EncodeHead(HeadOf(id, sealed, compressed)); var f := Frame(id, sealed, compressed);
      && |head| < 256 && |f| == 1 + |head| + |sealed| && (f + rest)[0] == |head|
      && (f + rest)[1..1 + |head|] == head && (f + rest)[1 + |head|..|f|] == sealed
      && (f + rest)[|f|..] == rest
      && DecodeHead(head, EMPTY_HEAD) == Some(HeadOf(id, sealed, compressed))
      && (|head| == 0 <==> id == 0 && sealed == [] && !compressed)
  {
    var h := HeadOf(id, sealed, compressed);
    var head := EncodeHead(h);
    HeadLength(h);
    HeadRoundTrip(h);
    Slices(|head| as byte, head, sealed, rest);
  }

  /** The reader's checks on a buffer that starts with a whole frame. */
  lemma TakeWhole(max: int32, h: Head, head: seq<byte>, sealed: seq<byte>, buf: seq<byte>)
    requires |head| < 256 && DecodeHead(head, EMPTY_HEAD) == Some(h) && h.bodyLen == |sealed|
    requires var n := 1 + |head| + |sealed|;
      |buf| >= n && buf[0] == |head| && buf[1..1 + |head|] == head && buf[1 + |head|..n] == sealed
    ensures TakeFrame(max, buf) ==
      if |head| > max then Malformed(TooLong)
      else if head == [] then Malformed(TooShort)
      else if |sealed| > max then Malformed(TooLong)
      else Packet(h, sealed, 1 + |head| + |sealed|)
  {
    assert buf[|head| + 1..|head| + 1 + h.bodyLen] == sealed;
  }

  /** The reader takes a written frame off the front exactly when it fits, and then gets back what was written. */
  lemma FrameRoundTrip(max: int32, id: int32, sealed: seq<byte>, compressed: bool, rest: seq<byte>)
    requires |sealed| < TWO_31
    ensures var f := Frame(id, sealed, compressed); var p := TakeFrame(max, f + rest);
      && (p.Packet? <==> Fits(max, id, sealed, compressed))
      && (Fits(max, id, sealed, compressed) <==>
            && (id != 0 || sealed != [] || compressed)
            && |EncodeHead(Head(id, |sealed|, compressed))| <= max && |sealed| <= max)
      && (p.Packet? ==> p == Packet(HeadOf(id, sealed, compressed), sealed, |f|))
      && (!p.Packet? ==>
            p == Malformed(if 0 <= max && EncodeHead(HeadOf(id, sealed, compressed)) == [] then TooShort else TooLong))
  {
    FrameParts(id, sealed, compressed, rest);
    var h := HeadOf(id, sealed, compressed);
    TakeWhole(max, h, EncodeHead(h), sealed, Frame(id, sealed, compressed) + rest);
  }

  /** The reader's checks on a buffer that ends before its first frame does. */
  lemma TakePart(max: int32, h: Head, head: seq<byte>, buf: seq<byte>)
    requires 1 <= |head| < 256 && |head| <= max && DecodeHead(head, EMPTY_HEAD) == Some(h) && 0 <= h.bodyLen <= max
    requires |buf| < 1 + |head| + h.bodyLen && (buf != [] ==> buf[0] == |head|)
    requires 1 + |head| <= |buf| ==> buf[1..1 + |head|] == head
    ensures TakeFrame(max, buf) == NeedMore
  {}

  /** A frame cut short is never mistaken for an error. */
  lemma PartialFrame(max: int32, id: int32, sealed: seq<byte>, compressed: bool, k: nat)
    requires |sealed| < TWO_31 && Fits(max, id, sealed, compressed)
    requires k < |Frame(id, sealed, compressed)|
    ensures TakeFrame(max, Frame(id, sealed, compressed)[..k]) == NeedMore
  {
    var f, h := Frame(id, sealed, compressed), HeadOf(id, sealed, compressed);
    var head := EncodeHead(h);
    FrameParts(id, sealed, compressed, []);
    assert f + [] == f;
    assert 1 + |head| <= k ==> f[..k][1..1 + |head|] == f[1..1 + |head|];
    TakePart(max, h, head, f[..k]);
  }

  /** An uncompressed body that could be sealed is unsealed to itself. */
  lemma SealRoundTrip(cfg: Config, id: int32, body: seq<byte>)
    requires C.Lawful(cfg.mode) && Seal(cfg, body).Ok? && |Seal(cfg, body).value| < TWO_31
    ensures Unseal(cfg, HeadOf(id, Seal(cfg, body).value, false), Seal(cfg, body).value) == Ok(body)
    ensures Seal(cfg, body).value == [] <==> body == []
  {
    if cfg.encrypt && |body| > 0 {
      C.CipherRoundTrip(cfg.mode, body, cfg.key.value);
    }
  }

  /**
   The whole way of a body through compression, sealing and unsealing: the reader compresses once more
   instead of unpacking, so a body comes back if and only if it was sent uncompressed or compressing
   its packed form happens to restore it.
   */
  lemma BodyRoundTripIff(cfg: Config, min: int32, id: int32, body: seq<byte>)
    requires C.Lawful(cfg.mode)
    requires var (data, _) := CompressData(cfg, min, body); Seal(cfg, data).Ok? && |Seal(cfg, data).value| < TWO_31
    ensures var (data, packed) := CompressData(cfg, min, body); var sealed := Seal(cfg, data).value;
      (Unseal(cfg, HeadOf(id, sealed, packed), sealed) == Ok(body)) <==>
      (!packed || (data != [] && cfg.zip(data) == Some(body)))
  {
    var (data, packed) := CompressData(cfg, min, body);
    SealRoundTrip(cfg, id, data);
  }

  /**
   A packed body is lost whenever packing the packed form again does not make it longer: with a working
   compressor, as good as always.
   */
  lemma PackedBodyLost(cfg: Config, min: int32, id: int32, body: seq<byte>)
    requires C.Lawful(cfg.mode) && CompressData(cfg, min, body).1
    requires var data := CompressData(cfg, min, body).0;
      && Seal(cfg, data).Ok? && |Seal(cfg, data).value| < TWO_31
      && (cfg.zip(data).Some? ==> |cfg.zip(data).value| <= |data|)
    ensures var data := CompressData(cfg, min, body).0; var sealed := Seal(cfg, data).value;
      Unseal(cfg, HeadOf(id, sealed, true), sealed) != Ok(body)
  {
    BodyRoundTripIff(cfg, min, id, body);
  }

  /** Such a configuration and body exist: a compressor that drops one byte, without encryption. */
  lemma SomeBodyIsLost(mode: C.BlockMode, handler: Message -> bool)
    ensures exists cfg: Config, body ::
              && !cfg.encrypt && CompressData(cfg, 1, body) == ([2], true)
              && Unseal(cfg, HeadOf(0, [2], true), [2]) == Ok([])
  {
    var zip := (s: seq<byte>) => if s == [] then None else Some(s[1..]);
    var cfg := Config(1000, false, None, mode, zip, handler);
    var body: seq<byte> := [1, 2];
    assert CompressData(cfg, 1, body) == ([2], true);
    assert Unseal(cfg, HeadOf(0, [2], true), [2]) == Ok([]);
  }

  /** A body is sent packed exactly when it has at least `min` bytes, not 0, and packing makes it shorter. */
  lemma PackedIff(cfg: Config, min: int32, body: seq<byte>)
    ensures var (data, packed) := CompressData(cfg, min, body);
      && (packed <==> body != [] && min != 0 && |body| >= min && cfg.zip(body).Some? && |cfg.zip(body).value| < |body|)
      && data == if packed then cfg.zip(body).value else body
  {}

  /** What a body of the wire is refused for. */
  lemma UnsealFails(cfg: Config, head: Head, sealed: seq<byte>)
    requires sealed != []
    ensures var r := Unseal(cfg, head, sealed);
      && (r == Err(NoKey) <==> cfg.encrypt && cfg.key == None)
      && (r.Err? && r.error.BadCipher? <==>
            cfg.encrypt && cfg.key.Some? && C.Decrypt(cfg.mode, sealed, cfg.key.value).Err?)
      && (r == Err(BadZip) ==> head.isCompressed)
      && (!cfg.encrypt && !head.isCompressed ==> r == Ok(sealed))
  {}

  /**
   One round on a frame that fits: its bytes are taken off whatever comes of it, and the handler is given the
   body once, if it could be unsealed; on anything else nothing is taken off and nothing is handed over.
   */
  lemma RoundLaw(cfg: Config, id: int32, sealed: seq<byte>, compressed: bool, rest: seq<byte>)
    requires |sealed| < TWO_31 && Fits(cfg.maxMsgLen, id, sealed, compressed)
    ensures var r := RoundOf(cfg, Frame(id, sealed, compressed) + rest);
      && r.rest == rest
      && match Unseal(cfg, Head(id, |sealed|, compressed), sealed)
         case Err(e) => r.given == [] && r.outcome == R.Fail(e)
         case Ok(body) =>
           && r.given == [Message(id, body)]
           && r.outcome == if cfg.handler(Message(id, body)) then R.Next else R.Fail(Rejected)
  {
    var f := Frame(id, sealed, compressed);
    FrameRoundTrip(cfg.maxMsgLen, id, sealed, compressed, rest);
    assert (f + rest)[|f|..] == rest;
  }

  lemma NoPacketLaw(cfg: Config, buf: seq<byte>)
    requires !TakeFrame(cfg.maxMsgLen, buf).Packet?
    ensures RoundOf(cfg, buf).given == [] && RoundOf(cfg, buf).rest == buf
    ensures RoundOf(cfg, buf).outcome != R.Next
  {}
}
