/** The imperative reader and writer of cs.go, against the functions of Framing. */
module FrameProcessor {
  import opened Common
  import opened Bytes
  import opened HeadCodec
  import opened Framing
  import C = Cipher
  import R = Reassembly

  /** Go's `copy(dst[at..], src)` when there is room for all of `src`. */
  method Copy(dst: array<byte>, at: nat, src: seq<byte>)
    requires at + |src| <= dst.Length
    modifies dst
    ensures dst[..] == old(dst[..at]) + src + old(dst[at + |src|..])
  {
    var i := 0;
    while i < |src|
      invariant 0 <= i <= |src|
      invariant dst[..at] == old(dst[..at]) && dst[at..at + i] == src[..i]
      invariant dst[at + i..] == old(dst[at + i..])
    {
      dst[at + i] := src[i];
      i := i + 1;
    }
  }

  /**
   `doWriteData`: allocate the frame, print the head length, the head and the body.  The lengths are
   32-bit sums in the source, and `make` panics when they wrap around.
   */
  method DoWriteData(id: int32, encryptedData: seq<byte>, compress: bool) returns (data: array<byte>)
    requires |encryptedData| < TWO_31
    requires 1 + |EncodeHead(HeadOf(id, encryptedData, compress))| + |encryptedData| < TWO_31
    ensures fresh(data) && data[..] == Frame(id, encryptedData, compress)
  {
    var bodyLen := |encryptedData|;
    var head := Head(id, bodyLen, compress);
    var headData := EncodeHead(head);
    HeadLength(head);
    var headLen := |headData|;
    data := new byte[1 + headLen + bodyLen](_ => 0);
    data[0] := headLen;
    Copy(data, 1, headData);
    if bodyLen != 0 {
      Copy(data, 1 + headLen, encryptedData);
    }
  }

  /** One connection's read loop state; `delivered` records what the handler was given. */
  class Reader {
    const cfg: Config
    var recvBuffer: seq<byte>
    var delivered: seq<Message>

    constructor (cfg: Config)
      ensures this.cfg == cfg && recvBuffer == [] && delivered == []
    {
      this.cfg := cfg;
      recvBuffer, delivered := [], [];
    }

    /** The decryption and "decompression" of a body, and the call of the handler. */
    method Handle(head: Head, sealed: seq<byte>) returns (err: Option<WireError>)
      requires head.bodyLen == |sealed|
      modifies `delivered
      ensures match Unseal(cfg, head, sealed)
              case Err(e) => err == Some(e) && delivered == old(delivered)
              case Ok(body) =>
                var m := Message(head.msgID, body);
                delivered == old(delivered) + [m] && err == if cfg.handler(m) then None else Some(Rejected)
    {
      var bodyBuf: seq<byte> := [];
      if head.bodyLen > 0 {
        bodyBuf := sealed;
        if cfg.encrypt {
          if cfg.key.None? {
            return Some(NoKey);
          }
          match C.Decrypt(cfg.mode, bodyBuf, cfg.key.value) {
            case Err(e) => return Some(BadCipher(e));
            case Ok(plain) => bodyBuf := plain;
          }
        }
        if head.isCompressed {
          match cfg.zip(bodyBuf) {
            case None => return Some(BadZip);
            case Some(z) => bodyBuf := z;
          }
        }
      }
      var m := Message(head.msgID, bodyBuf);
      delivered := delivered + [m];
      return if cfg.handler(m) then None else Some(Rejected);
    }

    /** The checks at the head of the loop of `DealMsgExt`; nothing is consumed yet. */
    method Front() returns (p: Parse)
      ensures p == TakeFrame(cfg.maxMsgLen, recvBuffer)
    {
      var buf := recvBuffer;
      var rlen := |buf|;
      if rlen < 1 {
        return NeedMore;
      }
      var hlen := buf[0];
      if hlen > cfg.maxMsgLen {
        return Malformed(TooLong);
      } else if hlen <= 0 {
        return Malformed(TooShort);
      }
      if rlen < hlen + 1 {
        return NeedMore;
      }
      var parsed := DecodeHead(buf[1..1 + hlen], EMPTY_HEAD);
      if parsed.None? {
        return Malformed(BadHead);
      }
      p := Body(hlen, parsed.value);
    }

    /** The second half of those checks, once the head is known. */
    method Body(hlen: nat, h: Head) returns (p: Parse)
      ensures p == TakeBody(cfg.maxMsgLen, recvBuffer, hlen, h)
    {
      if h.bodyLen > cfg.maxMsgLen {
        return Malformed(TooLong);
      } else if h.bodyLen < 0 {
        return Malformed(TooShort);
      }
      var pktLen := hlen + 1 + h.bodyLen;
      if |recvBuffer| < pktLen {
        return NeedMore;
      }
      return Packet(h, recvBuffer[hlen + 1..pktLen], pktLen);
    }

    /** One round of the loop of `DealMsgExt`. */
    method Round() returns (outcome: R.Outcome<WireError>)
      modifies `recvBuffer, `delivered
      ensures var r := RoundOf(cfg, old(recvBuffer));
        outcome == r.outcome && delivered == old(delivered) + r.given && recvBuffer == r.rest
    {
      var p := Front();
      match p {
        case NeedMore => return R.Stop;
        case Malformed(e) => return R.Fail(e);
        case Packet(head, sealed, size) =>
          recvBuffer := recvBuffer[size..];
          var err := Handle(head, sealed);
          return if err.Some? then R.Fail(err.value) else R.Next;
      }
    }

    /** The loop of `DealMsgExt`, with its bound as a parameter. */
    method Deal(bound: nat) returns (err: Option<WireError>)
      modifies `recvBuffer, `delivered
      ensures var d := R.Drain(StepOf(cfg), old(recvBuffer), bound);
        recvBuffer == d.rest && delivered == old(delivered) + d.delivered && err == d.error
    {
      ghost var step := StepOf(cfg);
      ghost var all := R.Drain(step, recvBuffer, bound);
      ghost var given: seq<Message> := [];
      for i := 0 to bound
        invariant R.DrainsTo(step, all, given, recvBuffer, bound - i)
        invariant delivered == old(delivered) + given
      {
        R.DrainStep(step, all, given, recvBuffer, bound - i);
        given := given + step(recvBuffer).given;
        var outcome := Round();
        match outcome {
          case Stop => return None;
          case Fail(e) => return Some(e);
          case Next =>
        }
      }
      return None;
    }

    /** `DealMsgExt` after the read returned `chunk`: at most 16 rounds. */
    method DealMsgExt(chunk: seq<byte>) returns (err: Option<WireError>)
      modifies `recvBuffer, `delivered
      ensures var d := R.Drain(StepOf(cfg), old(recvBuffer) + chunk, MAX_PACKETS);
        recvBuffer == d.rest && delivered == old(delivered) + d.delivered && err == d.error
    {
      recvBuffer := recvBuffer + chunk;
      err := Deal(MAX_PACKETS);
    }
  }
}
