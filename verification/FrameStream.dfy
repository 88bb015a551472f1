/** The theorems of Reassembly for the frames that cs.go writes and reads. */
module FrameStream {
  import opened Common
  import opened Bytes
  import opened Framing
  import C = Cipher
  import R = Reassembly

  /**
   A message that the writer can seal and put into one 32-bit allocation, the reader's limits admit and
   the handler accepts.
   */
  predicate Sendable(cfg: Config, m: Message) {
    && Seal(cfg, m.body).Ok?
    && |Seal(cfg, m.body).value| < TWO_31
    && |Frame(m.id, Seal(cfg, m.body).value, false)| < TWO_31
    && Fits(cfg.maxMsgLen, m.id, Seal(cfg, m.body).value, false)
    && cfg.handler(m)
  }

  ghost predicate AllSendable(cfg: Config, ms: seq<Message>) {
    forall i :: 0 <= i < |ms| ==> Sendable(cfg, ms[i])
  }

  function FrameOf(cfg: Config, m: Message): seq<byte>
    requires Sendable(cfg, m)
  {
    Frame(m.id, Seal(cfg, m.body).value, false)
  }

  /** What the writer puts on the connection, frame by frame. */
  ghost function Frames(cfg: Config, ms: seq<Message>): seq<seq<byte>>
    requires AllSendable(cfg, ms)
  {
    seq(|ms|, i requires 0 <= i < |ms| => FrameOf(cfg, ms[i]))
  }

  lemma WholeFrame(cfg: Config, m: Message, rest: seq<byte>)
    requires C.Lawful(cfg.mode) && Sendable(cfg, m)
    ensures RoundOf(cfg, FrameOf(cfg, m) + rest) == R.Round(R.Next, [m], rest)
  {
    var sealed := Seal(cfg, m.body).value;
    var f := FrameOf(cfg, m);
    FrameRoundTrip(cfg.maxMsgLen, m.id, sealed, false, rest);
    SealRoundTrip(cfg, m.id, m.body);
    assert (f + rest)[|f|..] == rest;
  }

  /** Every sendable message travels: its frame is read back as that message, and never when cut short. */
  lemma FrameCarries(cfg: Config, m: Message)
    requires C.Lawful(cfg.mode) && Sendable(cfg, m)
    ensures R.Carries(StepOf(cfg), FrameOf(cfg, m), m)
  {
    var f := FrameOf(cfg, m);
    forall rest ensures StepOf(cfg)(f + rest) == R.Round(R.Next, [m], rest) {
      WholeFrame(cfg, m, rest);
    }
    forall k | 0 <= k < |f| ensures StepOf(cfg)(f[..k]) == R.Round(R.Stop, [], f[..k]) {
      PartialFrame(cfg.maxMsgLen, m.id, Seal(cfg, m.body).value, false, k);
    }
  }

  lemma FramesCarry(cfg: Config, ms: seq<Message>)
    requires C.Lawful(cfg.mode) && AllSendable(cfg, ms)
    ensures R.CarriesAll(StepOf(cfg), Frames(cfg, ms), ms)
  {
    forall i | 0 <= i < |ms| ensures R.Carries(StepOf(cfg), Frames(cfg, ms)[i], ms[i]) {
      FrameCarries(cfg, ms[i]);
    }
  }

  /**
   However the bytes written for `ms` are cut into reads, no call fails, the handler gets a prefix of
   `ms` in order, and its frames, the buffer and the unread bytes together are the stream.
   */
  lemma Delivery(cfg: Config, ms: seq<Message>, chunks: seq<seq<byte>>, unread: seq<byte>) returns (k: nat)
    requires C.Lawful(cfg.mode) && AllSendable(cfg, ms)
    requires Concat(chunks) + unread == Concat(Frames(cfg, ms))
    ensures k <= |ms|
    ensures var d := R.Receive(StepOf(cfg), [], chunks, 16);
      && d.error == None && d.delivered == ms[..k]
      && Concat(Frames(cfg, ms[..k])) + d.rest + unread == Concat(Frames(cfg, ms))
  {
    var fs := Frames(cfg, ms);
    FramesCarry(cfg, ms);
    assert [] + Concat(chunks) == Concat(chunks);
    k := R.StreamDelivery(StepOf(cfg), fs, ms, [], chunks, MAX_PACKETS);
    assert Frames(cfg, ms[..k]) == fs[..k];
  }

  /** On any bytes at all: a call without error leaves a frame it could take only after 16 deliveries. */
  lemma LeavesFrameOnlyAfterSixteen(cfg: Config, buf: seq<byte>)
    ensures var d := R.Drain(StepOf(cfg), buf, 16);
      d.error == None && TakeFrame(cfg.maxMsgLen, d.rest).Packet? ==> |d.delivered| == 16
  {
    var d := R.Drain(StepOf(cfg), buf, MAX_PACKETS);
    R.LeavesWorkOnlyWhenFull(StepOf(cfg), buf, MAX_PACKETS);
    if TakeFrame(cfg.maxMsgLen, d.rest).Packet? {
      assert StepOf(cfg)(d.rest).outcome != R.Stop;
    }
  }

  /**
   player.go reads at most 4096 bytes at once: with such reads and frames of at least 256 bytes no call
   leaves a complete frame waiting.
   */
  lemma BigFramesNeverLag(cfg: Config, ms: seq<Message>, chunks: seq<seq<byte>>, unread: seq<byte>)
    requires C.Lawful(cfg.mode) && AllSendable(cfg, ms)
    requires Concat(chunks) + unread == Concat(Frames(cfg, ms))
    requires forall i :: 0 <= i < |ms| ==> |FrameOf(cfg, ms[i])| >= 256
    requires forall c :: c in chunks ==> |c| <= 4096
    ensures R.AlwaysDrained(StepOf(cfg), [], chunks, 16)
  {
    FramesCarry(cfg, ms);
    assert [] + Concat(chunks) == Concat(chunks);
    if ms != [] { assert |Frames(cfg, ms)[0]| >= 256; }
    R.BigFramesNeverLag(StepOf(cfg), Frames(cfg, ms), ms, [], chunks, 256, MAX_PACKETS);
  }

  lemma StepOutcome(cfg: Config, buf: seq<byte>)
    ensures StepOf(cfg)(buf).outcome == R.Next ==> TakeFrame(cfg.maxMsgLen, buf).Packet?
    ensures StepOf(cfg)(buf).outcome == R.Stop ==> TakeFrame(cfg.maxMsgLen, buf) == NeedMore
  {}

  /** On any piece of a stream: a complete frame is left behind if and only if the buffer held more than 16. */
  lemma LeavesFrameIffMoreThanSixteen(cfg: Config, ms: seq<Message>, buf: seq<byte>)
    requires C.Lawful(cfg.mode) && AllSendable(cfg, ms) && buf <= Concat(Frames(cfg, ms))
    ensures var d := R.Drain(StepOf(cfg), buf, 16);
      d.error == None
      && (TakeFrame(cfg.maxMsgLen, d.rest).Packet? <==> R.Complete(Frames(cfg, ms), |buf|) > 16)
  {
    FramesCarry(cfg, ms);
    R.LeavesFrameIff(StepOf(cfg), Frames(cfg, ms), ms, buf, MAX_PACKETS);
    StepOutcome(cfg, R.Drain(StepOf(cfg), buf, MAX_PACKETS).rest);
  }

  /** Over a run: no call ever leaves a complete frame behind if and only if no read completes more than 16. */
  lemma NeverLagsIff(cfg: Config, ms: seq<Message>, chunks: seq<seq<byte>>, unread: seq<byte>)
    requires C.Lawful(cfg.mode) && AllSendable(cfg, ms)
    requires Concat(chunks) + unread == Concat(Frames(cfg, ms))
    ensures R.AlwaysDrained(StepOf(cfg), [], chunks, 16)
       <==> R.ReadsAreSmall(Frames(cfg, ms), 0, chunks, 16)
  {
    FramesCarry(cfg, ms);
    assert [] + Concat(chunks) == Concat(chunks);
    R.NeverLagsIff(StepOf(cfg), Frames(cfg, ms), ms, [], chunks, MAX_PACKETS);
  }
}
