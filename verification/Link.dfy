/**
 The packets of a run of the sender, handed one after the other to the receiver, meet the assumptions of
 `EndToEnd`.
 */
module Link {
  import opened Dif
  import opened Packetiser
  import opened PacketiserLaws
  import R = Reassembly
  import opened Playout
  import opened Wire
  import opened EndToEnd
  import PlayoutLaws

  /** Every packet read completely, in order, by the receive loop. */
  function Relay(packets: seq<Packet>): seq<Action> {
    if packets == [] then []
    else
      var p := packets[|packets| - 1];
      Relay(packets[..|packets| - 1]) + Arrivals(p.ts, p.payload)
  }

  // ----- only placeable blocks of known sections travel -----

  ghost predicate Good(bs: seq<Block>) { forall i | 0 <= i < |bs| :: Placeable(bs[i]) && Sct(bs[i]) <= 4 }

  ghost predicate AllGood(t: Tx) {
    && Good(t.out) && Good(t.red) && Good(t.aud)
    && (forall i | 0 <= i < |t.log| && !t.log[i].EmptyFlush? :: Good(t.log[i].packet.payload))
    && (forall i | 0 <= i < |t.alog| && !t.alog[i].EmptyFlush? :: Good(t.alog[i].packet.payload))
  }

  lemma {:induction false} SendCopiesGood(t: Tx, n: nat)
    requires AllGood(t)
    ensures AllGood(SendCopies(t, n))
  {
    if n > 0 { SendCopiesGood(t, n - 1); }
  }

  lemma AddGood(c: Config, t: Tx, b: Block)
    requires AllGood(t) && Placeable(b) && Sct(b) <= 4
    ensures AllGood(AddToOutbuf(c, t, b)) && AllGood(AddToAudioOutbuf(c, t, b))
  {}

  lemma AddCopyGood(c: Config, t: Tx, b: Block)
    requires AllGood(t) && Placeable(b) && Sct(b) <= 4
    ensures AllGood(AddToROutbuf(c, t, b))
  {
    SendCopiesGood(t.(red := t.red + [b]), c.redundancy);
  }

  lemma FlushGood(c: Config, t: Tx)
    requires AllGood(t)
    ensures AllGood(Flush(c, t))
  {}

  lemma StepGood(c: Config, t: Tx, b: Block)
    requires AllGood(t) && Placeable(b)
    ensures AllGood(Packetiser.Step(c, t, b))
  {
    hide AllGood, AddToOutbuf, AddToROutbuf, AddToAudioOutbuf, Flush;
    if Sct(b) <= 4 {
      AddGood(c, t, b);
      if IsAudio(b) {
        var u := if c.separateAudio then AddToAudioOutbuf(c, t, b) else AddToOutbuf(c, t, b);
        AddCopyGood(c, if c.noAudio then t else u, b);
      } else if EndOfFrame(c.format, b) {
        FlushGood(c, if c.noVideo || Drops(c, t.frame) then t else AddToOutbuf(c, t, b));
      }
    }
  }

  lemma {:induction false} RunGood(c: Config, t0: Tx, bs: seq<Block>)
    requires IsInit(t0) && forall i | 0 <= i < |bs| :: Placeable(bs[i])
    ensures AllGood(Packetiser.Run(c, t0, bs))
  {
    if bs != [] {
      RunGood(c, t0, bs[..|bs| - 1]);
      StepGood(c, Packetiser.Run(c, t0, bs[..|bs| - 1]), bs[|bs| - 1]);
    }
  }

  // ----- what the ring is given is what the packets carry -----

  lemma {:induction false} DeliveredAppend(kind: R.Kind, xs: seq<Action>, ys: seq<Action>)
    ensures Delivered(kind, xs + ys) == Delivered(kind, xs) + Delivered(kind, ys)
  {
    if ys == [] {
      assert xs + ys == xs;
    } else {
      var n := |ys| - 1;
      assert (xs + ys)[..|xs + ys| - 1] == xs + ys[..n];
      DeliveredAppend(kind, xs, ys[..n]);
    }
  }

  lemma {:induction false} PacketDelivers(kind: R.Kind, ts: nat, bs: seq<Block>)
    requires Good(bs)
    ensures Delivered(kind, Arrivals(ts, bs)) == Only(kind.AudioRing?, TimedBlocks(ts, bs))
  {
    if bs != [] {
      var n := |bs| - 1;
      PacketDelivers(kind, ts, bs[..n]);
      assert Arrivals(ts, bs)[..n] == Arrivals(ts, bs[..n]);
      assert TimedBlocks(ts, bs)[..n] == TimedBlocks(ts, bs[..n]);
    }
  }

  lemma {:induction false} RelayDelivers(kind: R.Kind, log: seq<Event>)
    requires forall i | 0 <= i < |log| && !log[i].EmptyFlush? :: Good(log[i].packet.payload)
    ensures Delivered(kind, Relay(Packets(log))) == Only(kind.AudioRing?, Feed(log))
    ensures AllPossible(Relay(Packets(log)))
  {
    hide Good, TimedBlocks, Arrivals;
    if log != [] {
      var rest, e := log[..|log| - 1], log[|log| - 1];
      RelayDelivers(kind, rest);
      if e.EmptyFlush? {
        assert Packets(rest) + [] == Packets(rest) && Feed(rest) + [] == Feed(rest);
      } else {
        var p := e.packet;
        assert (Packets(rest) + [p])[..|Packets(rest)|] == Packets(rest);
        DeliveredAppend(kind, Relay(Packets(rest)), Arrivals(p.ts, p.payload));
        OnlyAppend(kind.AudioRing?, Feed(rest), TimedBlocks(p.ts, p.payload));
        PacketDelivers(kind, p.ts, p.payload);
        ArrivalsPossible(p.ts, p.payload);
      }
    }
  }

  lemma ArrivalsPossible(ts: nat, bs: seq<Block>)
    requires Good(bs)
    ensures AllPossible(Arrivals(ts, bs))
  {}

  /**
   A lossless in-order link carries video and audio of every configuration, redundant copies included, as
   `EndToEnd` assumes.
   */
  lemma RelayIsLinked(audio: bool, kind: R.Kind, c: Config, t0: Tx, bs: seq<Block>)
    requires Valid(c) && IsInit(t0) && WholeFrames(c.format, bs) && Carries(c, audio) && (audio <==> kind.AudioRing?)
    requires audio ==> AudioInEveryFrame(c, bs)
    requires forall i | 0 <= i < |bs| :: Placeable(bs[i])
    ensures Linked(audio, kind, c, t0, bs, Relay(Packets(Packetiser.Run(c, t0, bs).log)))
  {
    hide Packetiser.Run, Feed, Only, Delivered, Relay, Packets;
    RunGood(c, t0, bs);
    RelayDelivers(kind, Packetiser.Run(c, t0, bs).log);
  }

  /**
   Received straight from the link, the frames of the sender come out of the receiver whole: the i-th
   kept frame is the finished frame `i + Ahead`, for every block it has outside the audio section.
   */
  lemma RelayedFrameIsFinished(c: Config, t0: Tx, bs: seq<Block>, maxdif: nat, vinit: seq<R.Frame>,
                               ainit: seq<R.Frame>, i: nat, s: nat)
    requires Valid(c) && IsInit(t0) && WholeFrames(c.format, bs) && !c.noVideo
    requires forall k | 0 <= k < |bs| :: Placeable(bs[k])
    requires Buffers(vinit, ainit) && maxdif <= DIFSEQ_NUM_PAL
    requires i + 1 < |Frames(false, c, bs)| && s < SLOTS && !AudioSlot(s)
    requires Covers(Part(false, Labelled(c, bs), Frames(false, c, bs)[i]), s)
    ensures var acts := Relay(Packets(Packetiser.Run(c, t0, bs).log));
      && AllPossible(acts)
      && var done := After(maxdif, vinit, ainit, acts).v.done;
         var k := i + Ahead(false, c, t0, bs);
         && k < |done| && |done[k]| == SLOTS
         && done[k][s] == LastFor(Part(false, Labelled(c, bs), Frames(false, c, bs)[i]), s, ZeroBlock())
  {
    hide Packetiser.Run, After, Relay, Frames, Part, Labelled, Ahead;
    var kind := PlayoutLaws.Video(maxdif);
    RelayIsLinked(false, kind, c, t0, bs);
    FinishedFrameIsSendersFrame(c, t0, bs, maxdif, vinit, ainit, Relay(Packets(Packetiser.Run(c, t0, bs).log)), i, s);
  }

  // ----- the writer in between -----

  /** The actions without the transmissions. */
  function OnlyArrivals(acts: seq<Action>): seq<Action> {
    if acts == [] then []
    else OnlyArrivals(acts[..|acts| - 1]) + (if acts[|acts| - 1].Arrive? then [acts[|acts| - 1]] else [])
  }

  /** What a ring is given depends on the arrivals only. */
  lemma {:induction false} DeliveredByArrivals(kind: R.Kind, acts: seq<Action>)
    requires AllPossible(OnlyArrivals(acts))
    ensures AllPossible(acts) && Delivered(kind, acts) == Delivered(kind, OnlyArrivals(acts))
  {
    if acts != [] {
      var rest, act := acts[..|acts| - 1], acts[|acts| - 1];
      var some := OnlyArrivals(rest);
      assert forall i | 0 <= i < |some| :: OnlyArrivals(acts)[i] == some[i];
      DeliveredByArrivals(kind, rest);
      if act.Arrive? {
        assert OnlyArrivals(acts) == some + [act] && (some + [act])[..|some|] == some;
        assert (some + [act])[|some|] == act;
      } else {
        assert OnlyArrivals(acts) == some && Delivered(kind, acts) == Delivered(kind, rest) + [];
      }
    }
  }

  /** The packets of the stream arrive in order, with transmissions anywhere between their blocks. */
  ghost predicate Interleaved(c: Config, t0: Tx, bs: seq<Block>, acts: seq<Action>) {
    OnlyArrivals(acts) == Relay(Packets(Packetiser.Run(c, t0, bs).log))
  }

  lemma InterleavedIsLinked(audio: bool, kind: R.Kind, c: Config, t0: Tx, bs: seq<Block>, acts: seq<Action>)
    requires Valid(c) && IsInit(t0) && WholeFrames(c.format, bs) && Carries(c, audio) && (audio <==> kind.AudioRing?)
    requires audio ==> AudioInEveryFrame(c, bs)
    requires (forall i | 0 <= i < |bs| :: Placeable(bs[i])) && Interleaved(c, t0, bs, acts)
    ensures Linked(audio, kind, c, t0, bs, acts)
  {
    hide Packetiser.Run, Feed, Only, Delivered, Relay, Packets, OnlyArrivals;
    RelayIsLinked(audio, kind, c, t0, bs);
    DeliveredByArrivals(kind, acts);
  }

  /**
   From the sender's blocks through its packets to the device: whenever the writer transmits, the frame is
   one the sender kept, at every slot outside the audio section that frame has a block for.
   */
  lemma RelayedFrameIsTransmitted(c: Config, t0: Tx, bs: seq<Block>, maxdif: nat, vinit: seq<R.Frame>,
                                  ainit: seq<R.Frame>, acts: seq<Action>, j: nat, s: nat)
    requires Valid(c) && IsInit(t0) && WholeFrames(c.format, bs) && !c.noVideo
    requires (forall k | 0 <= k < |bs| :: Placeable(bs[k])) && Interleaved(c, t0, bs, acts) && AllPossible(acts)
    requires Buffers(vinit, ainit) && |vinit| >= 2 && |ainit| >= 2 && maxdif <= DIFSEQ_NUM_PAL
    requires FirstNotZero(PlayoutLaws.Video(maxdif), acts) && FirstNotZero(R.AudioRing, acts)
    requires Frames(false, c, bs) != [] && s < SLOTS && !AudioSlot(s)
    requires j < |After(maxdif, vinit, ainit, acts).out|
    ensures var o := After(maxdif, vinit, ainit, acts).out[j];
      Shows(false, c, bs, o.frame, o.video - Ahead(false, c, t0, bs), s)
  {
    hide Packetiser.Run, After, Interleaved, Frames, Shows, Ahead, Linked;
    InterleavedIsLinked(false, PlayoutLaws.Video(maxdif), c, t0, bs, acts);
    TransmittedFrameIsSendersFrame(c, t0, bs, maxdif, vinit, ainit, acts, j, s);
  }

  /** And where it is not muted, the audio is that of one frame of the sender, redundant copies or not. */
  lemma RelayedAudioIsTransmitted(c: Config, t0: Tx, bs: seq<Block>, maxdif: nat, vinit: seq<R.Frame>,
                                  ainit: seq<R.Frame>, acts: seq<Action>, j: nat, s: nat)
    requires Valid(c) && IsInit(t0) && WholeFrames(c.format, bs) && Carries(c, true) && AudioInEveryFrame(c, bs)
    requires (forall k | 0 <= k < |bs| :: Placeable(bs[k])) && Interleaved(c, t0, bs, acts) && AllPossible(acts)
    requires Buffers(vinit, ainit) && |vinit| >= 2 && |ainit| >= 2 && maxdif <= DIFSEQ_NUM_PAL
    requires FirstNotZero(PlayoutLaws.Video(maxdif), acts) && FirstNotZero(R.AudioRing, acts)
    requires Frames(true, c, bs) != [] && s < SLOTS && AudioSlot(s) && s / 150 < maxdif
    requires j < |After(maxdif, vinit, ainit, acts).out|
    ensures var o := After(maxdif, vinit, ainit, acts).out[j];
      !o.silent ==> Shows(true, c, bs, o.frame, o.audio - Ahead(true, c, t0, bs), s)
  {
    hide Packetiser.Run, After, Interleaved, Frames, Shows, Ahead, Linked;
    InterleavedIsLinked(true, R.AudioRing, c, t0, bs, acts);
    TransmittedAudioIsSendersAudio(c, t0, bs, maxdif, vinit, ainit, acts, j, s);
  }
}
