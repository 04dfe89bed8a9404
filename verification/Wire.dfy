/**
 What the sender's packets carry, redundant copies included, and how much of it a receiver that
 keeps the last block for each slot gets to see.
 */
module Wire {
  import opened Dif
  import opened Modular
  import opened Packetiser
  import opened PacketiserLaws
  import opened Playout

  // ----- the link -----

  function TimedBlocks(ts: nat, bs: seq<Block>): seq<Timed> {
    seq(|bs|, i requires 0 <= i < |bs| => Timed(ts, bs[i]))
  }

  /** Everything the main packets carry, block by block, with the timestamp of the packet. */
  function Feed(log: seq<Event>): seq<Timed> {
    if log == [] then []
    else
      var (rest, e) := (log[..|log| - 1], log[|log| - 1]);
      Feed(rest) + (if e.EmptyFlush? then [] else TimedBlocks(e.packet.ts, e.packet.payload))
  }

  /** The audio blocks of a feed, or the others. */
  function Only(audio: bool, feed: seq<Timed>): seq<Timed> {
    if feed == [] then []
    else
      var (rest, x) := (feed[..|feed| - 1], feed[|feed| - 1]);
      Only(audio, rest) + (if IsAudio(x.block) == audio then [x] else [])
  }

  /** The blocks that ought to be sent, each with its frame's timestamp. */
  function Clocked(audio: bool, ts0: nat, ss: seq<Stamped>): seq<Timed> {
    if ss == [] then []
    else
      var (rest, s) := (ss[..|ss| - 1], ss[|ss| - 1]);
      Clocked(audio, ts0, rest) +
      (if IsAudio(s.block) == audio then [Timed(TimestampOf(ts0, s.frame), s.block)] else [])
  }

  lemma {:induction false} OnlyAppend(audio: bool, xs: seq<Timed>, ys: seq<Timed>)
    ensures Only(audio, xs + ys) == Only(audio, xs) + Only(audio, ys)
  {
    if ys == [] {
      assert xs + ys == xs;
    } else {
      var n := |ys| - 1;
      assert (xs + ys)[..|xs + ys| - 1] == xs + ys[..n];
      OnlyAppend(audio, xs, ys[..n]);
    }
  }

  lemma {:induction false} ClockedAppend(audio: bool, ts0: nat, xs: seq<Stamped>, ys: seq<Stamped>)
    ensures Clocked(audio, ts0, xs + ys) == Clocked(audio, ts0, xs) + Clocked(audio, ts0, ys)
  {
    if ys == [] {
      assert xs + ys == xs;
    } else {
      var n := |ys| - 1;
      assert (xs + ys)[..|xs + ys| - 1] == xs + ys[..n];
      ClockedAppend(audio, ts0, xs, ys[..n]);
    }
  }

  lemma {:induction false} PacketClocked(audio: bool, ts0: nat, frame: nat, bs: seq<Block>)
    ensures Only(audio, TimedBlocks(TimestampOf(ts0, frame), bs)) == Clocked(audio, ts0, Stamp(frame, bs))
  {
    if bs != [] {
      var n, ts := |bs| - 1, TimestampOf(ts0, frame);
      PacketClocked(audio, ts0, frame, bs[..n]);
      assert TimedBlocks(ts, bs)[..n] == TimedBlocks(ts, bs[..n]);
      assert Stamp(frame, bs)[..n] == Stamp(frame, bs[..n]);
    }
  }

  // ----- redundant copies carry audio only -----

  ghost predicate AllAudio(bs: seq<Block>) { forall i | 0 <= i < |bs| :: IsAudio(bs[i]) }

  ghost predicate CopiesAudio(c: Config, t: Tx) {
    && AllAudio(t.red)
    && (forall i | 0 <= i < |t.log| && t.log[i].Copy? :: c.redundancy > 0 && AllAudio(t.log[i].packet.payload))
  }

  lemma {:induction false} SendCopiesAudio(c: Config, t: Tx, n: nat)
    requires CopiesAudio(c, t) && c.redundancy > 0
    ensures CopiesAudio(c, SendCopies(t, n))
  {
    if n > 0 { SendCopiesAudio(c, t, n - 1); }
  }

  lemma AddToROutbufAudio(c: Config, t: Tx, b: Block)
    requires CopiesAudio(c, t) && c.redundancy > 0 && IsAudio(b)
    ensures CopiesAudio(c, AddToROutbuf(c, t, b))
  {
    SendCopiesAudio(c, t.(red := t.red + [b]), c.redundancy);
  }

  lemma StepCopiesAudio(c: Config, t: Tx, b: Block)
    requires CopiesAudio(c, t)
    ensures CopiesAudio(c, Packetiser.Step(c, t, b))
  {
    if IsAudio(b) && c.redundancy > 0 {
      hide AddToROutbuf;
      AddToROutbufAudio(c, ProcessAudio(c.(redundancy := 0), t, b), b);
    }
  }

  lemma {:induction false} RunCopiesAudio(c: Config, t0: Tx, bs: seq<Block>)
    requires IsInit(t0)
    ensures CopiesAudio(c, Packetiser.Run(c, t0, bs))
  {
    if bs != [] {
      RunCopiesAudio(c, t0, bs[..|bs| - 1]);
      StepCopiesAudio(c, Packetiser.Run(c, t0, bs[..|bs| - 1]), bs[|bs| - 1]);
    }
  }

  // ----- the carried blocks with their frames -----

  /** The blocks of all packets, copies included, each with the frame whose timestamp its packet carries. */
  function Carried(log: seq<Event>): seq<Stamped> {
    if log == [] then []
    else
      var (rest, e) := (log[..|log| - 1], log[|log| - 1]);
      Carried(rest) + (if e.EmptyFlush? then [] else Stamp(e.frame, e.packet.payload))
  }

  lemma CarriedSnoc(log: seq<Event>, e: Event)
    ensures Carried(log + [e]) == Carried(log) + (if e.EmptyFlush? then [] else Stamp(e.frame, e.packet.payload))
  {}

  /** Every packet carries the timestamp of its frame. */
  ghost predicate OnTime(ts0: nat, log: seq<Event>) {
    forall i | 0 <= i < |log| && !log[i].EmptyFlush? :: log[i].packet.ts == TimestampOf(ts0, log[i].frame)
  }

  lemma NumberedIsOnTime(c: Config, t0: Tx, log: seq<Event>)
    requires LogNumbered(c, t0, log)
    ensures OnTime(t0.ts, log)
  {
    forall i | 0 <= i < |log| && !log[i].EmptyFlush? ensures log[i].packet.ts == TimestampOf(t0.ts, log[i].frame) {
      assert WellNumbered(c, t0, log[i], i);
    }
  }

  lemma {:induction false} FeedClocked(ts0: nat, audio: bool, log: seq<Event>)
    requires OnTime(ts0, log)
    ensures Only(audio, Feed(log)) == Clocked(audio, ts0, Carried(log))
  {
    if log != [] {
      var rest, e := log[..|log| - 1], log[|log| - 1];
      FeedClocked(ts0, audio, rest);
      if e.EmptyFlush? {
        assert Feed(rest) + [] == Feed(rest) && Carried(rest) + [] == Carried(rest);
      } else {
        OnlyAppend(audio, Feed(rest), TimedBlocks(e.packet.ts, e.packet.payload));
        ClockedAppend(audio, ts0, Carried(rest), Stamp(e.frame, e.packet.payload));
        PacketClocked(audio, ts0, e.frame, e.packet.payload);
      }
    }
  }

  /** The blocks of one sort, in order. */
  function Pick(audio: bool, ss: seq<Stamped>): seq<Stamped> {
    if ss == [] then []
    else
      var (rest, s) := (ss[..|ss| - 1], ss[|ss| - 1]);
      Pick(audio, rest) + (if IsAudio(s.block) == audio then [s] else [])
  }

  lemma {:induction false} PickAppend(audio: bool, xs: seq<Stamped>, ys: seq<Stamped>)
    ensures Pick(audio, xs + ys) == Pick(audio, xs) + Pick(audio, ys)
  {
    if ys == [] {
      assert xs + ys == xs;
    } else {
      var n := |ys| - 1;
      assert (xs + ys)[..|xs + ys| - 1] == xs + ys[..n];
      PickAppend(audio, xs, ys[..n]);
    }
  }

  lemma {:induction false} PickNone(audio: bool, frame: nat, bs: seq<Block>)
    requires forall i | 0 <= i < |bs| :: IsAudio(bs[i]) != audio
    ensures Pick(audio, Stamp(frame, bs)) == []
  {
    if bs != [] {
      PickNone(audio, frame, bs[..|bs| - 1]);
      assert Stamp(frame, bs)[..|bs| - 1] == Stamp(frame, bs[..|bs| - 1]);
    }
  }

  lemma {:induction false} ClockedPick(audio: bool, ts0: nat, ss: seq<Stamped>)
    ensures Clocked(audio, ts0, Pick(audio, ss)) == Clocked(audio, ts0, ss)
  {
    if ss != [] {
      var rest, s := ss[..|ss| - 1], ss[|ss| - 1];
      ClockedPick(audio, ts0, rest);
      assert Pick(audio, rest) + [] == Pick(audio, rest);
      if IsAudio(s.block) == audio { assert (Pick(audio, rest) + [s])[..|Pick(audio, rest)|] == Pick(audio, rest); }
    }
  }

  lemma {:induction false} PartPick(audio: bool, ss: seq<Stamped>, k: nat)
    ensures Part(audio, Pick(audio, ss), k) == Part(audio, ss, k)
  {
    if ss != [] {
      PartPick(audio, ss[..|ss| - 1], k);
      PartSnoc(audio, Pick(audio, ss[..|ss| - 1]), ss[|ss| - 1], k);
    }
  }

  /** Copies add nothing to the video half, and nothing to the audio half when there are none. */
  lemma {:induction false} CarriedFirstHand(c: Config, audio: bool, log: seq<Event>)
    requires audio ==> c.redundancy == 0
    requires forall i | 0 <= i < |log| && log[i].Copy? :: c.redundancy > 0 && AllAudio(log[i].packet.payload)
    ensures Pick(audio, Carried(log)) == Pick(audio, Unpack(log))
  {
    if log != [] {
      var rest, e := log[..|log| - 1], log[|log| - 1];
      CarriedFirstHand(c, audio, rest);
      match e {
        case Main(f, p) =>
          PickAppend(audio, Carried(rest), Stamp(f, p.payload));
          PickAppend(audio, Unpack(rest), Stamp(f, p.payload));
        case Copy(f, p) =>
          PickAppend(audio, Carried(rest), Stamp(f, p.payload));
          PickNone(audio, f, p.payload);
          assert Unpack(rest) + [] == Unpack(rest);
        case EmptyFlush(_) =>
          assert Carried(rest) + [] == Carried(rest) && Unpack(rest) + [] == Unpack(rest);
      }
    }
  }

  // ----- redundant copies never hide newer audio -----

  /** At every slot for which something was sent, the blocks received end with the same block. */
  ghost predicate Renders(got: seq<Block>, sent: seq<Block>) {
    forall s: nat | Covers(sent, s) :: Covers(got, s) && LastFor(got, s, ZeroBlock()) == LastFor(sent, s, ZeroBlock())
  }

  /** At every slot for which both have a block, they end with the same one. */
  ghost predicate Agrees(xs: seq<Block>, ys: seq<Block>) {
    forall s: nat | Covers(xs, s) && Covers(ys, s) :: LastFor(xs, s, ZeroBlock()) == LastFor(ys, s, ZeroBlock())
  }

  lemma CoversAppend(xs: seq<Block>, ys: seq<Block>, s: nat)
    ensures Covers(xs + ys, s) <==> Covers(xs, s) || Covers(ys, s)
  {
    if Covers(xs, s) {
      var i :| 0 <= i < |xs| && Slot(xs[i]) == s;
      assert (xs + ys)[i] == xs[i];
    }
    if Covers(ys, s) {
      var i :| 0 <= i < |ys| && Slot(ys[i]) == s;
      assert (xs + ys)[|xs| + i] == ys[i];
    }
  }

  /** Of two lists one after the other, the second decides where it has a block. */
  lemma LastOfTwo(xs: seq<Block>, ys: seq<Block>, s: nat, d: Block)
    ensures LastFor(xs + ys, s, d) == if Covers(ys, s) then LastFor(ys, s, d) else LastFor(xs, s, d)
    ensures Covers(xs + ys, s) <==> Covers(xs, s) || Covers(ys, s)
  {
    LastForSplit(xs, ys, s, d);
    CoversAppend(xs, ys, s);
    if Covers(ys, s) {
      LastForCovered(ys, s, d, LastFor(xs, s, d));
    } else {
      LastForUncovered(ys, s, LastFor(xs, s, d));
    }
  }

  lemma RendersSnoc(got: seq<Block>, sent: seq<Block>, b: Block)
    requires Renders(got, sent)
    ensures Renders(got + [b], sent + [b])
  {
    forall s: nat | Covers(sent + [b], s)
      ensures Covers(got + [b], s) && LastFor(got + [b], s, ZeroBlock()) == LastFor(sent + [b], s, ZeroBlock())
    {
      LastOfTwo(got, [b], s, ZeroBlock());
      LastOfTwo(sent, [b], s, ZeroBlock());
    }
  }

  lemma AgreesSnoc(xs: seq<Block>, ys: seq<Block>, b: Block)
    requires Agrees(xs, ys)
    ensures Agrees(xs + [b], ys + [b])
  {
    forall s: nat | Covers(xs + [b], s) && Covers(ys + [b], s)
      ensures LastFor(xs + [b], s, ZeroBlock()) == LastFor(ys + [b], s, ZeroBlock())
    {
      LastOfTwo(xs, [b], s, ZeroBlock());
      LastOfTwo(ys, [b], s, ZeroBlock());
    }
  }

  /** A copy sent between the packets already out and the block still pending, its window agreeing with the frame. */
  lemma RendersWithCopy(sent: seq<Block>, window: seq<Block>, pending: seq<Block>, own: seq<Block>)
    requires Renders(sent + pending, own) && Agrees(window, own)
    ensures Renders(sent + window + pending, own)
  {
    forall s: nat | Covers(own, s)
      ensures Covers(sent + window + pending, s)
      ensures LastFor(sent + window + pending, s, ZeroBlock()) == LastFor(own, s, ZeroBlock())
    {
      LastOfTwo(sent, pending, s, ZeroBlock());
      LastOfTwo(sent, window, s, ZeroBlock());
      LastOfTwo(sent + window, pending, s, ZeroBlock());
    }
  }

  lemma {:induction false} PartAppend(audio: bool, xs: seq<Stamped>, ys: seq<Stamped>, k: nat)
    ensures Part(audio, xs + ys, k) == Part(audio, xs, k) + Part(audio, ys, k)
  {
    if ys == [] {
      assert xs + ys == xs;
    } else {
      var n := |ys| - 1;
      assert (xs + ys)[..|xs + ys| - 1] == xs + ys[..n];
      PartAppend(audio, xs, ys[..n], k);
    }
  }

  lemma {:induction false} PartOfOther(audio: bool, frame: nat, bs: seq<Block>, k: nat)
    requires k != frame
    ensures Part(audio, Stamp(frame, bs), k) == []
  {
    if bs != [] {
      PartOfOther(audio, frame, bs[..|bs| - 1], k);
      assert Stamp(frame, bs)[..|bs| - 1] == Stamp(frame, bs[..|bs| - 1]);
    }
  }

  /** Everything carried, and the block buffer behind it. */
  function Underway(t: Tx): seq<Stamped> { Carried(t.log) + Stamp(t.flushes, t.out) }

  /** The audio of the redundant buffer as it would be received if it were sent now. */
  function Window(t: Tx): seq<Block> { Part(true, Stamp(t.flushes, t.red), t.flushes) }

  ghost predicate AllRender(t: Tx, ss: seq<Stamped>) {
    forall k: nat :: Renders(Part(true, Underway(t), k), Part(true, ss, k))
  }

  ghost predicate RedundancyLaw(c: Config, t: Tx, ss: seq<Stamped>) {
    && AllRender(t, ss)
    && Agrees(Window(t), Part(true, ss, t.flushes))
    && (c.redundancy == 0 ==> t.red == [])
    && (forall k: nat | k > t.flushes :: Part(true, ss, k) == [])
  }

  lemma StampSnoc(frame: nat, bs: seq<Block>, b: Block)
    ensures Stamp(frame, bs + [b]) == Stamp(frame, bs) + [Stamped(frame, b)]
  {}

  lemma AddToOutbufUnderway(c: Config, t: Tx, b: Block)
    ensures Underway(AddToOutbuf(c, t, b)) == Underway(t) + [Stamped(t.flushes, b)]
  {
    StampSnoc(t.flushes, t.out, b);
    CarriedSnoc(t.log, Main(t.flushes, Packet(t.seqno, t.ts, t.out + [b])));
  }

  lemma FlushUnderway(c: Config, t: Tx)
    ensures Underway(Flush(c, t)) == Underway(t)
  {
    CarriedSnoc(t.log, Main(t.flushes, Packet(t.seqno, t.ts, t.out)));
    CarriedSnoc(t.log, EmptyFlush(t.flushes));
  }

  lemma AddToOutbufRenders(c: Config, t: Tx, ss: seq<Stamped>, b: Block)
    requires AllRender(t, ss)
    ensures AllRender(AddToOutbuf(c, t, b), ss + [Stamped(t.flushes, b)])
  {
    AddToOutbufUnderway(c, t, b);
    var s := Stamped(t.flushes, b);
    forall k: nat ensures Renders(Part(true, Underway(t) + [s], k), Part(true, ss + [s], k)) {
      PartSnoc(true, Underway(t), s, k);
      PartSnoc(true, ss, s, k);
      if IsAudio(b) && k == t.flushes {
        RendersSnoc(Part(true, Underway(t), k), Part(true, ss, k), b);
      } else {
        var xs, ys := Part(true, Underway(t), k), Part(true, ss, k);
        assert xs + [] == xs && ys + [] == ys;
      }
    }
  }

  lemma CopyRenders(t: Tx, ss: seq<Stamped>, u: Tx)
    requires AllRender(t, ss) && Agrees(Window(t), Part(true, ss, t.flushes))
    requires u.flushes == t.flushes && u.out == t.out && Carried(u.log) == Carried(t.log) + Stamp(t.flushes, t.red)
    ensures AllRender(u, ss)
  {
    var n := t.flushes;
    forall k: nat ensures Renders(Part(true, Underway(u), k), Part(true, ss, k)) {
      PartAppend(true, Carried(t.log), Stamp(n, t.out), k);
      PartAppend(true, Carried(t.log), Stamp(n, t.red), k);
      PartAppend(true, Carried(t.log) + Stamp(n, t.red), Stamp(n, t.out), k);
      if k == n {
        RendersWithCopy(Part(true, Carried(t.log), k), Window(t), Part(true, Stamp(n, t.out), k), Part(true, ss, k));
      } else {
        PartOfOther(true, n, t.red, k);
        assert Part(true, Carried(t.log), k) + [] == Part(true, Carried(t.log), k);
      }
    }
  }

  lemma {:induction false} SendCopiesRenders(t: Tx, ss: seq<Stamped>, n: nat)
    requires AllRender(t, ss) && Agrees(Window(t), Part(true, ss, t.flushes))
    ensures AllRender(SendCopies(t, n), ss)
    ensures SendCopies(t, n) == t.(seqno := SendCopies(t, n).seqno, log := SendCopies(t, n).log)
  {
    hide AllRender, Agrees;
    if n > 0 {
      SendCopiesRenders(t, ss, n - 1);
      var u := SendCopies(t, n - 1);
      CarriedSnoc(u.log, Copy(u.flushes, Packet(u.seqno, u.ts, u.red)));
      CopyRenders(u, ss, SendCopies(t, n));
    }
  }

  lemma AddToROutbufLaw(c: Config, t: Tx, ss: seq<Stamped>, b: Block)
    requires c.redundancy > 0 && AllRender(t, ss) && IsAudio(b)
    requires Agrees(Window(t) + [b], Part(true, ss, t.flushes))
    requires forall k: nat | k > t.flushes :: Part(true, ss, k) == []
    ensures RedundancyLaw(c, AddToROutbuf(c, t, b), ss)
  {
    hide Agrees, Renders;
    var u := t.(red := t.red + [b]);
    StampSnoc(t.flushes, t.red, b);
    PartSnoc(true, Stamp(t.flushes, t.red), Stamped(t.flushes, b), t.flushes);
    assert Underway(u) == Underway(t);
    if |u.red| > c.blocksInPkt - 1 {
      SendCopiesRenders(u, ss, c.redundancy);
      NothingAgrees(Part(true, ss, t.flushes));
    }
  }

  lemma NothingAgrees(xs: seq<Block>)
    ensures Agrees([], xs) && Agrees(xs, [])
  {}

  lemma ProcessAudioLaw(c: Config, t: Tx, ss: seq<Stamped>, b: Block)
    requires RedundancyLaw(c, t, ss) && IsAudio(b) && Carries(c, true)
    ensures RedundancyLaw(c, ProcessAudio(c, t, b), ss + [Stamped(t.flushes, b)])
  {
    hide Agrees, Renders, AddToROutbuf;
    var s := Stamped(t.flushes, b);
    AddToOutbufRenders(c, t, ss, b);
    forall k: nat ensures Part(true, ss + [s], k) == Part(true, ss, k) + (if k == t.flushes then [b] else []) {
      PartSnoc(true, ss, s, k);
    }
    if c.redundancy > 0 {
      AgreesSnoc(Window(t), Part(true, ss, t.flushes), b);
      AddToROutbufLaw(c, AddToOutbuf(c, t, b), ss + [s], b);
    } else {
      NothingAgrees(Part(true, ss + [s], t.flushes));
    }
  }

  lemma AddOtherLaw(c: Config, t: Tx, ss: seq<Stamped>, b: Block)
    requires RedundancyLaw(c, t, ss) && !IsAudio(b)
    ensures RedundancyLaw(c, AddToOutbuf(c, t, b), ss + [Stamped(t.flushes, b)])
  {
    hide Agrees, Renders;
    AddToOutbufRenders(c, t, ss, b);
    forall k: nat ensures Part(true, ss + [Stamped(t.flushes, b)], k) == Part(true, ss, k) {
      PartSnoc(true, ss, Stamped(t.flushes, b), k);
    }
  }

  lemma FlushLaw(c: Config, t: Tx, ss: seq<Stamped>)
    requires RedundancyLaw(c, t, ss)
    ensures RedundancyLaw(c, Flush(c, t), ss)
  {
    hide Agrees, Renders;
    FlushUnderway(c, t);
    NothingAgrees(Window(Flush(c, t)));
  }

  lemma StepLaw(c: Config, t: Tx, ss: seq<Stamped>, b: Block)
    requires RedundancyLaw(c, t, ss) && Carries(c, true) && t.frame == CounterOf(t.flushes)
    ensures RedundancyLaw(c, Packetiser.Step(c, t, b),
                          ss + (if Admits(c, t.flushes, b) then [Stamped(t.flushes, b)] else []))
  {
    hide RedundancyLaw, AddToOutbuf, AddToROutbuf, Flush, CounterOf;
    assert ss + [] == ss;
    if IsAudio(b) {
      ProcessAudioLaw(c, t, ss, b);
    } else {
      var ss' := ss + (if Admits(c, t.flushes, b) then [Stamped(t.flushes, b)] else []);
      var u := if Admits(c, t.flushes, b) then AddToOutbuf(c, t, b) else t;
      if Admits(c, t.flushes, b) { AddOtherLaw(c, t, ss, b); }
      if EndOfFrame(c.format, b) { FlushLaw(c, u, ss'); }
    }
  }

  lemma {:induction false} RunLaw(c: Config, t0: Tx, bs: seq<Block>)
    requires Valid(c) && IsInit(t0) && Carries(c, true)
    ensures RedundancyLaw(c, Packetiser.Run(c, t0, bs), Admitted(c, bs))
  {
    hide RedundancyLaw, Packetiser.Step;
    if bs == [] {
      StartLaw(c, t0);
    } else {
      var rest := bs[..|bs| - 1];
      RunLaw(c, t0, rest);
      RunNumbered(c, t0, rest);
      StepLaw(c, Packetiser.Run(c, t0, rest), Admitted(c, rest), bs[|bs| - 1]);
    }
  }

  lemma StartLaw(c: Config, t0: Tx)
    requires IsInit(t0)
    ensures RedundancyLaw(c, t0, [])
  {}

  // ----- whole frames over a lossless link -----

  /** The stream stops at the end of a frame (or has not begun). */
  predicate WholeFrames(format: Format, bs: seq<Block>) { bs != [] ==> EndOfFrame(format, bs[|bs| - 1]) }

  lemma NothingPending(c: Config, t0: Tx, bs: seq<Block>)
    requires IsInit(t0) && WholeFrames(c.format, bs)
    ensures Packetiser.Run(c, t0, bs).out == []
  {}

  /** What the packets carry of one sort is what was admitted of it, block by block and frame by frame. */
  lemma LinkDelivers(c: Config, t0: Tx, audio: bool, bs: seq<Block>)
    requires Valid(c) && IsInit(t0) && WholeFrames(c.format, bs) && (audio ==> c.redundancy == 0)
    ensures var carried := Carried(Packetiser.Run(c, t0, bs).log);
      && Only(audio, Feed(Packetiser.Run(c, t0, bs).log)) == Clocked(audio, t0.ts, Admitted(c, bs))
      && forall k: nat :: Part(audio, carried, k) == Part(audio, Admitted(c, bs), k)
  {
    var t := Packetiser.Run(c, t0, bs);
    SenderConserves(c, t0, bs);
    RunCopiesAudio(c, t0, bs);
    NothingPending(c, t0, bs);
    NumberedIsOnTime(c, t0, t.log);
    FeedClocked(t0.ts, audio, t.log);
    CarriedFirstHand(c, audio, t.log);
    assert Unpack(t.log) + Stamp(t.flushes, []) == Unpack(t.log);
    ClockedPick(audio, t0.ts, Carried(t.log));
    ClockedPick(audio, t0.ts, Admitted(c, bs));
    forall k: nat ensures Part(audio, Carried(t.log), k) == Part(audio, Admitted(c, bs), k) {
      PartPick(audio, Carried(t.log), k);
      PartPick(audio, Admitted(c, bs), k);
    }
  }

  /**
   With redundant copies, whatever their number and however their buffer runs across the frames: under
   the timestamp of a frame, the last block carried for a slot is the last one the frame has for it.
   */
  lemma CopiesHideNothing(c: Config, t0: Tx, bs: seq<Block>, k: nat)
    requires Valid(c) && IsInit(t0) && WholeFrames(c.format, bs) && Carries(c, true)
    ensures Renders(Part(true, Carried(Packetiser.Run(c, t0, bs).log), k), Part(true, Admitted(c, bs), k))
  {
    var t := Packetiser.Run(c, t0, bs);
    RunLaw(c, t0, bs);
    NothingPending(c, t0, bs);
    assert Underway(t) == Carried(t.log);
  }
}
