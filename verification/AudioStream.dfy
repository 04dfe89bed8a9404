/**
 The separate audio stream at the receiver: cut into frames by its own clock, which moves only behind frames
 whose audio leaves a packet partly filled.
 */
module AudioStream {
  import opened Dif
  import opened Modular
  import H = Handoff
  import opened Packetiser
  import opened PacketiserLaws
  import R = Reassembly
  import opened Playout
  import opened PlayoutLaws
  import PT = PlayoutTheorems
  import opened Wire
  import opened EndToEnd
  import opened Link

  /** The audio ring is given the separate audio stream, in order and without loss, and no audio but that. */
  ghost predicate AudioLinked(c: Config, t0: Tx, bs: seq<Block>, acts: seq<Action>) {
    && Valid(c) && IsInit(t0) && WholeFrames(c.format, bs) && c.separateAudio && !c.noAudio
    && AllPossible(acts)
    && Delivered(R.AudioRing, acts) == Only(true, Feed(Packetiser.Run(c, t0, bs).alog))
  }

  /** The packets of the audio stream handed to the receive loop are such an input. */
  lemma RelayedAudioIsLinked(c: Config, t0: Tx, bs: seq<Block>)
    requires Valid(c) && IsInit(t0) && WholeFrames(c.format, bs) && c.separateAudio && !c.noAudio
    requires forall i | 0 <= i < |bs| :: Placeable(bs[i])
    ensures AudioLinked(c, t0, bs, Relay(Packets(Packetiser.Run(c, t0, bs).alog)))
  {
    hide Packetiser.Run, Feed, Only, Delivered, Relay, Packets;
    RunGood(c, t0, bs);
    RelayDelivers(R.AudioRing, Packetiser.Run(c, t0, bs).alog);
  }

  /** Every complete frame leaves audio blocks in the buffer at its end. */
  ghost predicate NeverFull(c: Config, bs: seq<Block>)
    requires Valid(c)
  {
    forall n: nat | n < Completed(c.format, bs) :: InFrame(AdmittedAudio(c, bs), n) % c.blocksInPkt != 0
  }

  /** Every complete frame's audio fills its packets. */
  ghost predicate AlwaysFull(c: Config, bs: seq<Block>)
    requires Valid(c)
  {
    forall n: nat | n < Completed(c.format, bs) :: InFrame(AdmittedAudio(c, bs), n) % c.blocksInPkt == 0
  }

  lemma {:induction false} AdvancesAll(d: nat, ss: seq<Stamped>, n: nat)
    requires d > 0 && forall k: nat | k < n :: InFrame(ss, k) % d != 0
    ensures Advances(d, ss, n) == n
  {
    if n > 0 { AdvancesAll(d, ss, n - 1); }
  }

  lemma {:induction false} AdvancesNone(d: nat, ss: seq<Stamped>, n: nat)
    requires d > 0 && forall k: nat | k < n :: InFrame(ss, k) % d == 0
    ensures Advances(d, ss, n) == 0
  {
    if n > 0 { AdvancesNone(d, ss, n - 1); }
  }

  // ----- the clock keeps pace -----

  lemma AudioOnTime(c: Config, t0: Tx, bs: seq<Block>)
    requires Valid(c) && IsInit(t0) && c.separateAudio && NeverFull(c, bs)
    ensures OnTime(t0.ats, Packetiser.Run(c, t0, bs).alog)
  {
    var t, ss := Packetiser.Run(c, t0, bs), AdmittedAudio(c, bs);
    AudioClock(c, t0, bs);
    RunNumbered(c, t0, bs);
    forall i | 0 <= i < |t.alog| && !t.alog[i].EmptyFlush?
      ensures t.alog[i].packet.ts == TimestampOf(t0.ats, t.alog[i].frame)
    {
      AdvancesAll(c.blocksInPkt, ss, t.alog[i].frame);
    }
  }

  lemma {:induction false} CarriedIsUnpacked(log: seq<Event>)
    requires forall i | 0 <= i < |log| :: log[i].Main?
    ensures Carried(log) == Unpack(log)
  {
    if log != [] { CarriedIsUnpacked(log[..|log| - 1]); }
  }

  lemma NoAudioPending(c: Config, t0: Tx, bs: seq<Block>)
    requires IsInit(t0) && c.separateAudio && WholeFrames(c.format, bs)
    ensures Packetiser.Run(c, t0, bs).aud == []
  {}

  lemma AudioCarried(c: Config, t0: Tx, bs: seq<Block>)
    requires Valid(c) && IsInit(t0) && c.separateAudio && WholeFrames(c.format, bs)
    ensures Carried(Packetiser.Run(c, t0, bs).alog) == AdmittedAudio(c, bs)
  {
    var t := Packetiser.Run(c, t0, bs);
    SenderConserves(c, t0, bs);
    AudioClock(c, t0, bs);
    NoAudioPending(c, t0, bs);
    CarriedIsUnpacked(t.alog);
    assert Unpack(t.alog) + Stamp(t.flushes, []) == Unpack(t.alog);
  }

  lemma {:induction false} AudioParts(c: Config, bs: seq<Block>, n: nat)
    requires c.separateAudio && !c.noAudio
    ensures Part(true, AdmittedAudio(c, bs), n) == Part(true, Labelled(c, bs), n)
  {
    if bs != [] {
      hide Part, Completed;
      var rest, b := bs[..|bs| - 1], bs[|bs| - 1];
      var s := Stamped(Completed(c.format, rest), b);
      AudioParts(c, rest, n);
      PartSnoc(true, AdmittedAudio(c, rest), s, n);
      PartSnoc(true, Labelled(c, rest), s, n);
    }
  }

  lemma {:induction false} AudioPartLength(c: Config, bs: seq<Block>, n: nat)
    ensures |Part(true, AdmittedAudio(c, bs), n)| == InFrame(AdmittedAudio(c, bs), n)
  {
    if bs == [] {
      assert Part(true, AdmittedAudio(c, bs), n) == [] && InFrame(AdmittedAudio(c, bs), n) == 0;
    } else {
      hide Part, InFrame, Completed;
      var rest, b := bs[..|bs| - 1], bs[|bs| - 1];
      var s := Stamped(Completed(c.format, rest), b);
      AudioPartLength(c, rest, n);
      PartSnoc(true, AdmittedAudio(c, rest), s, n);
      InFrameSnoc(AdmittedAudio(c, rest), s, n);
      assert AdmittedAudio(c, rest) + [] == AdmittedAudio(c, rest);
    }
  }

  lemma NeverFullPrefix(c: Config, bs: seq<Block>)
    requires Valid(c) && bs != [] && NeverFull(c, bs)
    ensures NeverFull(c, bs[..|bs| - 1])
    ensures EndOfFrame(c.format, bs[|bs| - 1]) ==>
      InFrame(AdmittedAudio(c, bs), Completed(c.format, bs[..|bs| - 1])) % c.blocksInPkt != 0
  {
    hide InFrame;
    var rest, b := bs[..|bs| - 1], bs[|bs| - 1];
    var m, ss := Completed(c.format, rest), AdmittedAudio(c, rest);
    assert AdmittedAudio(c, bs) == ss + [Stamped(m, b)] || AdmittedAudio(c, bs) == ss;
    forall n: nat | n < m ensures InFrame(ss, n) % c.blocksInPkt != 0 {
      InFrameSnoc(ss, Stamped(m, b), n);
      assert InFrame(AdmittedAudio(c, bs), n) % c.blocksInPkt != 0;
    }
  }

  lemma {:induction false} AudioCuts(c: Config, t0: Tx, bs: seq<Block>)
    requires Valid(c) && c.separateAudio && !c.noAudio && NeverFull(c, bs)
    ensures CutByFrame(true, c, t0.ats, AdmittedAudio(c, bs), Completed(c.format, bs))
    ensures WholeFrames(c.format, bs) ==>
      bs == [] || Latest(true, AdmittedAudio(c, bs)) < Completed(c.format, bs)
  {
    hide CutByFrame, Kept, Part, InFrame, NeverFull;
    if bs == [] {
      NothingCuts(true, c, t0.ats);
    } else {
      var rest, b := bs[..|bs| - 1], bs[|bs| - 1];
      var n := Completed(c.format, rest);
      NeverFullPrefix(c, bs);
      AudioCuts(c, t0, rest);
      AddCuts(true, c, t0.ats, AdmittedAudio(c, rest), n, b);
      assert AdmittedAudio(c, rest) + [] == AdmittedAudio(c, rest);
      if EndOfFrame(c.format, b) {
        AudioPartLength(c, bs, n);
        ModIs(0, 0, 0, c.blocksInPkt);
        CutEndsFrame(true, c, t0.ats, AdmittedAudio(c, bs), n);
      }
    }
  }

  /**
   As long as no frame's audio fills its packets, the receiver closes exactly the sender's audio frames in
   order, by the audio clock alone; the last one stays open.
   */
  lemma AudioGroupsAreFrames(c: Config, t0: Tx, bs: seq<Block>, acts: seq<Action>)
    requires AudioLinked(c, t0, bs, acts) && NeverFull(c, bs) && bs != []
    ensures var (past, n) := (Group(R.AudioRing, acts).past, Completed(c.format, bs));
      var lead := Lead(t0.ats, [0]);
      && |past| == n - 1 + lead
      && forall i | 0 <= i < n - 1 :: past[i + lead] == Part(true, Labelled(c, bs), i)
  {
    hide Part, Labelled, Feed, Only, Clocked, Cut, Packetiser.Run, CutByFrame, Latest, Delivered, InFrame, NeverFull;
    var n := Completed(c.format, bs);
    AudioOnTime(c, t0, bs);
    FeedClocked(t0.ats, true, Packetiser.Run(c, t0, bs).alog);
    AudioCarried(c, t0, bs);
    AudioCuts(c, t0, bs);
    NoRateKeepsAll(true, c, n);
    CutIntoKept(true, c, t0.ats, AdmittedAudio(c, bs), n);
    var past, lead := Group(R.AudioRing, acts).past, Lead(t0.ats, [0]);
    forall i | 0 <= i < n - 1 ensures past[i + lead] == Part(true, Labelled(c, bs), i) {
      assert past[i + lead] == Part(true, AdmittedAudio(c, bs), Kept(true, c, n)[i]);
      AudioParts(c, bs, i);
    }
  }

  // ----- the clock stands still -----

  ghost predicate OneClock(ts: nat, feed: seq<Timed>) { forall i | 0 <= i < |feed| :: feed[i].ts == ts }

  lemma {:induction false} OneClockCut(ts: nat, feed: seq<Timed>)
    requires OneClock(ts, feed)
    ensures |Cut(feed).past| == if feed == [] || ts == 0 then 0 else 1
    ensures Cut(feed).ts == if feed == [] then 0 else ts
  {
    if feed != [] { OneClockCut(ts, feed[..|feed| - 1]); }
  }

  lemma {:induction false} FeedOneClock(ts: nat, log: seq<Event>)
    requires forall i | 0 <= i < |log| && !log[i].EmptyFlush? :: log[i].packet.ts == ts
    ensures OneClock(ts, Feed(log))
  {
    if log != [] { FeedOneClock(ts, log[..|log| - 1]); }
  }

  lemma {:induction false} OnlyOneClock(ts: nat, feed: seq<Timed>)
    requires OneClock(ts, feed)
    ensures OneClock(ts, Only(true, feed))
  {
    if feed != [] { OnlyOneClock(ts, feed[..|feed| - 1]); }
  }

  /** If every frame's audio fills its packets, all the audio ever sent makes one group, which is never closed. */
  lemma AudioIsOneGroup(c: Config, t0: Tx, bs: seq<Block>, acts: seq<Action>)
    requires AudioLinked(c, t0, bs, acts) && AlwaysFull(c, bs)
    ensures |Group(R.AudioRing, acts).past| <= 1
  {
    hide Feed, Only, Cut, InFrame;
    var t, ss := Packetiser.Run(c, t0, bs), AdmittedAudio(c, bs);
    AudioClock(c, t0, bs);
    RunNumbered(c, t0, bs);
    forall i | 0 <= i < |t.alog| && !t.alog[i].EmptyFlush? ensures t.alog[i].packet.ts == t0.ats {
      AdvancesNone(c.blocksInPkt, ss, t.alog[i].frame);
      ModIs(t0.ats, 0, t0.ats, TWO32);
    }
    FeedOneClock(t0.ats, t.alog);
    OnlyOneClock(t0.ats, Feed(t.alog));
    OneClockCut(t0.ats, Only(true, Feed(t.alog)));
  }

  /** Before the reader's second switch the writer finds nothing new. */
  lemma NothingFresh(g: H.Ring)
    requires H.Inv(g) && g.switches <= 1
    ensures !H.Fresh(g)
  {
    var n := |g.lock|;
    if g.switches == 1 {
      H.HeldIsLatest(g.w, 1, n);
      ModIs(0, 0, 0, n);
      ModIs(1, 0, 1, n);
    }
  }

  lemma StepFindsNothing(maxdif: nat, s: State, act: Action)
    requires Playout.Bounds(s) && maxdif <= DIFSEQ_NUM_PAL && Possible(act) && !H.Fresh(s.a.ring)
    requires forall j | 0 <= j < |s.out| :: !s.out[j].newAudio
    ensures var s' := Playout.Step(maxdif, s, act); forall j | 0 <= j < |s'.out| :: !s'.out[j].newAudio
  {}

  lemma DoneGrows(maxdif: nat, s: State, act: Action)
    requires Playout.Bounds(s) && maxdif <= DIFSEQ_NUM_PAL && Possible(act)
    ensures |s.a.done| <= |Playout.Step(maxdif, s, act).a.done|
  {}

  lemma {:induction false} NoNewAudio(maxdif: nat, vinit: seq<R.Frame>, ainit: seq<R.Frame>, acts: seq<Action>)
    requires Buffers(vinit, ainit) && |vinit| >= 2 && |ainit| >= 2 && maxdif <= DIFSEQ_NUM_PAL && AllPossible(acts)
    requires FirstNotZero(Video(maxdif), acts) && FirstNotZero(R.AudioRing, acts)
    requires |After(maxdif, vinit, ainit, acts).a.done| <= 1
    ensures var out := After(maxdif, vinit, ainit, acts).out; forall j | 0 <= j < |out| :: !out[j].newAudio
  {
    hide Playout.Step, H.Inv, H.Fresh;
    if acts != [] {
      var n := |acts| - 1;
      var s := After(maxdif, vinit, ainit, acts[..n]);
      DoneGrows(maxdif, s, acts[n]);
      FirstNotZeroPrefix(Video(maxdif), acts, n);
      FirstNotZeroPrefix(R.AudioRing, acts, n);
      NoNewAudio(maxdif, vinit, ainit, acts[..n]);
      TransmitsOnlyFinishedFrames(maxdif, vinit, ainit, acts[..n]);
      NothingFresh(s.a.ring);
      StepFindsNothing(maxdif, s, acts[n]);
    }
  }

  /**
   If every frame's audio fills its packets, no audio is ever heard: under every interleaving the audio is
   never new, and from the sixth on all transmitted frames are muted.
   */
  lemma FullAudioIsNeverHeard(c: Config, t0: Tx, bs: seq<Block>, maxdif: nat, vinit: seq<R.Frame>,
                              ainit: seq<R.Frame>, acts: seq<Action>, i: nat)
    requires AudioLinked(c, t0, bs, acts) && AlwaysFull(c, bs)
    requires Buffers(vinit, ainit) && |vinit| >= 2 && |ainit| >= 2 && maxdif <= DIFSEQ_NUM_PAL
    requires FirstNotZero(Video(maxdif), acts) && FirstNotZero(R.AudioRing, acts)
    requires i < |After(maxdif, vinit, ainit, acts).out|
    ensures var out := After(maxdif, vinit, ainit, acts).out; !out[i].newAudio && (out[i].silent <==> i >= 5)
  {
    hide After, Group;
    RunGroups(maxdif, vinit, ainit, acts);
    AudioIsOneGroup(c, t0, bs, acts);
    TransmitsOnlyFinishedFrames(maxdif, vinit, ainit, acts);
    NoNewAudio(maxdif, vinit, ainit, acts);
    PT.SilenceAfterSixStaleFrames(maxdif, vinit, ainit, acts, i);
  }
}
