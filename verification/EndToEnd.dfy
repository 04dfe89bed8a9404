/**
 Sender, a lossless in-order link, and both receiver processes together: which frames of the
 sender the receiver finishes and transmits. The statements hold for any number of blocks per
 packet; the packets leave no trace in them.
 */
module EndToEnd {
  import opened Dif
  import opened Modular
  import opened Packetiser
  import opened PacketiserLaws
  import R = Reassembly
  import opened Playout
  import opened Wire
  import opened PlayoutLaws
  import PT = PlayoutTheorems

  // ----- cutting by timestamp is cutting by frame -----

  const INVERSE := 3881632115

  /** 3003 is odd, so frames less than 2^32 apart have different timestamps. */
  lemma TimestampsDiffer(ts0: nat, a: nat, b: nat)
    requires 0 < b - a < TWO32
    ensures TimestampOf(ts0, a) != TimestampOf(ts0, b)
  {
    var x, y, d := ts0 + TICKS * a, ts0 + TICKS * b, b - a;
    var q := y / TWO32 - x / TWO32;
    assert INVERSE * TICKS == 1 + 2714 * TWO32;
    var r := y % TWO32 - x % TWO32;
    assert TICKS * d == TWO32 * q + r;
    assert d == TWO32 * (INVERSE * q - 2714 * d) + INVERSE * r;
  }

  lemma {:induction false} KeptPrefix(audio: bool, c: Config, m: nat, n: nat)
    requires m <= n
    ensures Kept(audio, c, m) <= Kept(audio, c, n)
    ensures m < n && Counted(audio, c, m) ==> |Kept(audio, c, m)| < |Kept(audio, c, n)|
    decreases n
  {
    if m < n { KeptPrefix(audio, c, m, n - 1); }
  }

  /** From a multiple m of k below 2^32 the next one, or the wrap to 0, is at most k away. */
  lemma NextCounter(n: nat, k: nat) returns (d: nat)
    requires 1 < k < 0x8000_0000 && CounterOf(n) % k == 0
    ensures 1 <= d < TWO32 && CounterOf(n + d) % k == 0
  {
    var m := CounterOf(n);
    if m + k < TWO32 {
      d := k;
      ModStep(n + 1, d, TWO32);
      ModIs(m + k, 0, m + k, TWO32);
      ModIs(m + k, m / k + 1, 0, k);
    } else {
      d := TWO32 - m;
      ModStep(n + 1, d, TWO32);
      ModIs(TWO32, 1, 0, TWO32);
      ModIs(0, 0, 0, k);
    }
  }

  /** After a kept frame another one follows within the drop rate, even where the frame counter wraps. */
  lemma NextKept(c: Config, n: nat) returns (d: nat)
    requires Valid(c) && !Drops(c, CounterOf(n))
    ensures 1 <= d < TWO32 && !Drops(c, CounterOf(n + d))
  {
    hide CounterOf;
    if c.frameDrop <= 1 {
      d := 1;
    } else {
      d := NextCounter(n, c.frameDrop);
    }
  }

  lemma KeptGap(audio: bool, c: Config, m: nat, n: nat)
    requires Valid(c) && Counted(audio, c, m) && m < n && Kept(audio, c, m + 1) == Kept(audio, c, n)
    ensures n - m < TWO32
  {
    if audio {
      KeptPrefix(audio, c, m + 1, n);
    } else {
      var d := NextKept(c, m);
      if m + d < n {
        KeptPrefix(audio, c, m + 1, m + d);
        KeptPrefix(audio, c, m + d, n);
      }
    }
  }

  /** The frame of the last block of a sort; -1 if there is none. */
  function Latest(audio: bool, ss: seq<Stamped>): int {
    if ss == [] then -1
    else if IsAudio(ss[|ss| - 1].block) == audio then ss[|ss| - 1].frame
    else Latest(audio, ss[..|ss| - 1])
  }

  /** 1 if the first frame makes the reader leave its first buffer, which then stays without a frame of the sender. */
  function Lead(ts0: nat, frames: seq<nat>): nat {
    if frames != [] && TimestampOf(ts0, frames[0]) == 0 then 0 else 1
  }

  /** Cutting the feed by timestamp gives the frames of the sender, n of them complete. */
  ghost predicate CutByFrame(audio: bool, c: Config, ts0: nat, ss: seq<Stamped>, n: nat) {
    var (g, l) := (Cut(Clocked(audio, ts0, ss)), Latest(audio, ss));
    if l < 0 then
      && g == Groups([], [], 0)
      && Kept(audio, c, n) == []
      && (forall k: nat {:trigger Part(audio, ss, k)} :: Part(audio, ss, k) == [])
    else
      && l <= n
      && (l < n ==> Counted(audio, c, l) && Kept(audio, c, l + 1) == Kept(audio, c, n))
      && g.ts == TimestampOf(ts0, l) && g.open == Part(audio, ss, l)
      && (forall k: nat | k > l :: Part(audio, ss, k) == [])
      && Closed(audio, ss, g.past, Kept(audio, c, l), Lead(ts0, Kept(audio, c, l) + [l]))
  }

  /** The finished groups are the listed frames, in order, after `lead` groups of nothing. */
  ghost predicate Closed(audio: bool, ss: seq<Stamped>, past: seq<seq<Block>>, frames: seq<nat>, lead: nat) {
    && |past| == |frames| + lead
    && forall i | 0 <= i < |frames| :: past[i + lead] == Part(audio, ss, frames[i])
  }

  lemma ClockedSnoc(audio: bool, ts0: nat, ss: seq<Stamped>, s: Stamped)
    ensures Clocked(audio, ts0, ss + [s]) ==
            Clocked(audio, ts0, ss) +
            (if IsAudio(s.block) == audio then [Timed(TimestampOf(ts0, s.frame), s.block)] else [])
    ensures Latest(audio, ss + [s]) == if IsAudio(s.block) == audio then s.frame else Latest(audio, ss)
  {}

  lemma CutSnoc(feed: seq<Timed>, x: Timed)
    ensures var g := Cut(feed);
      Cut(feed + [x]) ==
      if x.ts != g.ts then Groups(g.past + [g.open], [x.block], x.ts) else g.(open := g.open + [x.block])
  {}

  lemma CutSkips(audio: bool, c: Config, ts0: nat, ss: seq<Stamped>, n: nat, b: Block)
    requires CutByFrame(audio, c, ts0, ss, n) && IsAudio(b) != audio
    ensures CutByFrame(audio, c, ts0, ss + [Stamped(n, b)], n)
  {
    var s := Stamped(n, b);
    ClockedSnoc(audio, ts0, ss, s);
    assert Clocked(audio, ts0, ss) + [] == Clocked(audio, ts0, ss);
    forall k: nat ensures Part(audio, ss + [s], k) == Part(audio, ss, k) { PartSnoc(audio, ss, s, k); }
  }

  lemma CutNextFrame(audio: bool, c: Config, ts0: nat, ss: seq<Stamped>, n: nat)
    requires CutByFrame(audio, c, ts0, ss, n)
    requires if Counted(audio, c, n) then Latest(audio, ss) == n else Latest(audio, ss) != n
    ensures CutByFrame(audio, c, ts0, ss, n + 1)
  {}

  lemma PartsAfter(audio: bool, ss: seq<Stamped>, n: nat, b: Block)
    requires IsAudio(b) == audio
    ensures forall k: nat {:trigger Part(audio, ss + [Stamped(n, b)], k)} ::
      Part(audio, ss + [Stamped(n, b)], k) == if k == n then Part(audio, ss, k) + [b] else Part(audio, ss, k)
  {}

  lemma CutAddsFirst(audio: bool, c: Config, ts0: nat, ss: seq<Stamped>, n: nat, b: Block)
    requires CutByFrame(audio, c, ts0, ss, n) && Latest(audio, ss) < 0 && IsAudio(b) == audio
    ensures CutByFrame(audio, c, ts0, ss + [Stamped(n, b)], n)
  {
    hide Kept, Counted, Clocked, Cut, Latest, Part, TimestampOf;
    ClockedSnoc(audio, ts0, ss, Stamped(n, b));
    CutSnoc(Clocked(audio, ts0, ss), Timed(TimestampOf(ts0, n), b));
    PartsAfter(audio, ss, n, b);
    assert [] + [b] == [b];
  }

  lemma CutAddsSame(audio: bool, c: Config, ts0: nat, ss: seq<Stamped>, n: nat, b: Block)
    requires CutByFrame(audio, c, ts0, ss, n) && Latest(audio, ss) == n && IsAudio(b) == audio
    ensures CutByFrame(audio, c, ts0, ss + [Stamped(n, b)], n)
  {}

  /** A block of a new frame closes the group of the last one. */
  lemma NewGroup(audio: bool, c: Config, ts0: nat, ss: seq<Stamped>, n: nat, b: Block)
    requires Valid(c) && CutByFrame(audio, c, ts0, ss, n) && 0 <= Latest(audio, ss) < n && IsAudio(b) == audio
    ensures var (ss', g) := (ss + [Stamped(n, b)], Cut(Clocked(audio, ts0, ss)));
      && Cut(Clocked(audio, ts0, ss')) == Groups(g.past + [g.open], [b], TimestampOf(ts0, n))
      && Latest(audio, ss') == n
  {
    hide Closed, Lead, Part, Counted, TimestampOf, Cut, Clocked, Kept;
    var l := Latest(audio, ss);
    ClockedSnoc(audio, ts0, ss, Stamped(n, b));
    CutSnoc(Clocked(audio, ts0, ss), Timed(TimestampOf(ts0, n), b));
    KeptGap(audio, c, l, n);
    TimestampsDiffer(ts0, l, n);
  }

  lemma ClosedGrows(audio: bool, ss: seq<Stamped>, ss': seq<Stamped>, past: seq<seq<Block>>, frames: seq<nat>,
                    l: nat, lead: nat)
    requires Closed(audio, ss, past, frames, lead)
    requires forall i | 0 <= i < |frames| :: frames[i] < l
    requires forall k: nat | k <= l :: Part(audio, ss', k) == Part(audio, ss, k)
    ensures Closed(audio, ss', past + [Part(audio, ss, l)], frames + [l], lead)
  {}

  lemma KeptSnoc(audio: bool, c: Config, n: nat)
    requires Counted(audio, c, n)
    ensures Kept(audio, c, n + 1) == Kept(audio, c, n) + [n]
  {}

  lemma CutAddsNext(audio: bool, c: Config, ts0: nat, ss: seq<Stamped>, n: nat, b: Block)
    requires Valid(c) && CutByFrame(audio, c, ts0, ss, n) && 0 <= Latest(audio, ss) < n && IsAudio(b) == audio
    ensures CutByFrame(audio, c, ts0, ss + [Stamped(n, b)], n)
  {
    hide Kept, Counted, Clocked, Cut, Latest, Part, TimestampOf, Closed;
    var l := Latest(audio, ss);
    var frames := Kept(audio, c, l) + [l];
    KeptSnoc(audio, c, l);
    NewGroup(audio, c, ts0, ss, n, b);
    PartsAfter(audio, ss, n, b);
    ClosedGrows(audio, ss, ss + [Stamped(n, b)], Cut(Clocked(audio, ts0, ss)).past, Kept(audio, c, l), l,
                Lead(ts0, frames));
    assert Kept(audio, c, n) == frames && Lead(ts0, frames + [n]) == Lead(ts0, frames);
    assert [] + [b] == [b];
  }

  /** Every complete frame has audio in it. */
  ghost predicate AudioInEveryFrame(c: Config, bs: seq<Block>) {
    forall i | 0 <= i < |bs| && EndOfFrame(c.format, bs[i]) ::
      Part(true, Admitted(c, bs[..i]), Completed(c.format, bs[..i])) != []
  }

  lemma {:induction false} LatestHasBlock(audio: bool, ss: seq<Stamped>)
    ensures Latest(audio, ss) >= 0 ==> Part(audio, ss, Latest(audio, ss)) != []
  {
    if ss != [] && IsAudio(ss[|ss| - 1].block) != audio { LatestHasBlock(audio, ss[..|ss| - 1]); }
  }

  /** The blocks carried for frame n, if it has just ended: some if it is kept, none if it is dropped. */
  lemma EndHasBlocks(audio: bool, c: Config, t0: Tx, bs: seq<Block>)
    requires Valid(c) && IsInit(t0) && |bs| > 0 && Carries(c, audio) && EndOfFrame(c.format, bs[|bs| - 1])
    requires audio ==> AudioInEveryFrame(c, bs)
    ensures var n := Completed(c.format, bs[..|bs| - 1]);
      Part(audio, Carried(Packetiser.Run(c, t0, bs).log), n) != [] <==> Counted(audio, c, n)
  {
    var rest, b := bs[..|bs| - 1], bs[|bs| - 1];
    var n := Completed(c.format, rest);
    if audio {
      var i := |bs| - 1;
      assert Part(true, Admitted(c, bs[..i]), Completed(c.format, bs[..i])) != [];
      CopiesHideNothing(c, t0, bs, n);
      PartSnoc(true, Admitted(c, rest), Stamped(n, b), n);
      FirstCovered(Part(true, Admitted(c, bs), n));
    } else {
      LinkDelivers(c, t0, false, bs);
      FramesAreKeptWhole(false, c, bs, n);
      PartSnoc(false, Labelled(c, rest), Stamped(n, b), n);
    }
  }

  lemma FirstCovered(bs: seq<Block>)
    requires bs != []
    ensures Covers(bs, Slot(bs[0]))
  {}

  lemma CutEndsFrame(audio: bool, c: Config, ts0: nat, ss: seq<Stamped>, n: nat)
    requires CutByFrame(audio, c, ts0, ss, n) && (Part(audio, ss, n) != [] <==> Counted(audio, c, n))
    ensures CutByFrame(audio, c, ts0, ss, n + 1) && Latest(audio, ss) < n + 1
  {
    LatestHasBlock(audio, ss);
    CutNextFrame(audio, c, ts0, ss, n);
  }

  lemma AudioInPrefix(c: Config, bs: seq<Block>)
    requires |bs| > 0 && AudioInEveryFrame(c, bs)
    ensures AudioInEveryFrame(c, bs[..|bs| - 1])
  {
    var rest := bs[..|bs| - 1];
    forall i | 0 <= i < |rest| && EndOfFrame(c.format, rest[i])
      ensures Part(true, Admitted(c, rest[..i]), Completed(c.format, rest[..i])) != []
    {
      assert rest[..i] == bs[..i] && rest[i] == bs[i];
    }
  }

  lemma AddCuts(audio: bool, c: Config, ts0: nat, ss: seq<Stamped>, n: nat, b: Block)
    requires Valid(c) && CutByFrame(audio, c, ts0, ss, n)
    ensures CutByFrame(audio, c, ts0, ss + [Stamped(n, b)], n)
  {
    if IsAudio(b) != audio {
      CutSkips(audio, c, ts0, ss, n, b);
    } else if Latest(audio, ss) < 0 {
      CutAddsFirst(audio, c, ts0, ss, n, b);
    } else if Latest(audio, ss) == n {
      CutAddsSame(audio, c, ts0, ss, n, b);
    } else {
      CutAddsNext(audio, c, ts0, ss, n, b);
    }
  }

  lemma {:induction false} AddsCuts(audio: bool, c: Config, ts0: nat, ss: seq<Stamped>, n: nat, bs: seq<Block>)
    requires Valid(c) && CutByFrame(audio, c, ts0, ss, n)
    ensures CutByFrame(audio, c, ts0, ss + Stamp(n, bs), n)
  {
    hide CutByFrame;
    if bs == [] {
      assert ss + Stamp(n, bs) == ss;
    } else {
      var rest, b := bs[..|bs| - 1], bs[|bs| - 1];
      AddsCuts(audio, c, ts0, ss, n, rest);
      AddCuts(audio, c, ts0, ss + Stamp(n, rest), n, b);
      assert ss + Stamp(n, bs) == ss + Stamp(n, rest) + [Stamped(n, b)];
    }
  }

  // ----- one step of the sender carries blocks of the current frame only -----

  ghost predicate CarriesMore(t: Tx, log: seq<Event>) {
    exists bs: seq<Block> :: Carried(log) == Carried(t.log) + Stamp(t.flushes, bs)
  }

  lemma MoreThanNothing(t: Tx)
    ensures CarriesMore(t, t.log)
  {
    assert Carried(t.log) == Carried(t.log) + Stamp(t.flushes, []);
  }

  lemma OneMore(t: Tx, log: seq<Event>, e: Event)
    requires CarriesMore(t, log) && e.frame == t.flushes
    ensures CarriesMore(t, log + [e])
  {
    var bs: seq<Block> :| Carried(log) == Carried(t.log) + Stamp(t.flushes, bs);
    CarriedSnoc(log, e);
    var more := if e.EmptyFlush? then [] else e.packet.payload;
    assert Stamp(t.flushes, bs + more) == Stamp(t.flushes, bs) + Stamp(t.flushes, more);
    assert Carried(log + [e]) == Carried(t.log) + Stamp(t.flushes, bs + more);
  }

  lemma {:induction false} CopiesMore(t: Tx, u: Tx, n: nat)
    requires CarriesMore(t, u.log) && u.flushes == t.flushes
    ensures CarriesMore(t, SendCopies(u, n).log) && SendCopies(u, n).flushes == t.flushes
  {
    hide CarriesMore;
    if n > 0 {
      CopiesMore(t, u, n - 1);
      var v := SendCopies(u, n - 1);
      OneMore(t, v.log, Copy(v.flushes, Packet(v.seqno, v.ts, v.red)));
    }
  }

  lemma AddToOutbufMore(c: Config, t: Tx, b: Block)
    ensures CarriesMore(t, AddToOutbuf(c, t, b).log)
  {
    hide CarriesMore;
    MoreThanNothing(t);
    OneMore(t, t.log, Main(t.flushes, Packet(t.seqno, t.ts, t.out + [b])));
  }

  lemma AddToROutbufMore(c: Config, t: Tx, u: Tx, b: Block)
    requires CarriesMore(t, u.log) && u.flushes == t.flushes
    ensures CarriesMore(t, AddToROutbuf(c, u, b).log)
  {
    hide CarriesMore;
    CopiesMore(t, u.(red := u.red + [b]), c.redundancy);
  }

  lemma FlushMore(c: Config, t: Tx, u: Tx)
    requires CarriesMore(t, u.log) && u.flushes == t.flushes
    ensures CarriesMore(t, Flush(c, u).log)
  {
    hide CarriesMore;
    OneMore(t, u.log,
            if |u.out| > 0 then Main(u.flushes, Packet(u.seqno, u.ts, u.out)) else EmptyFlush(u.flushes));
  }

  lemma StepCarries(c: Config, t: Tx, b: Block)
    ensures CarriesMore(t, Packetiser.Step(c, t, b).log)
  {
    hide CarriesMore, AddToROutbuf, Flush;
    MoreThanNothing(t);
    AddToOutbufMore(c, t, b);
    if IsAudio(b) {
      AddToROutbufMore(c, t, ProcessAudio(c.(redundancy := 0), t, b), b);
    } else {
      FlushMore(c, t, if Admits(c.(frameDrop := 0), 0, b) && !Drops(c, t.frame) then AddToOutbuf(c, t, b) else t);
    }
  }

  lemma StepCuts(audio: bool, c: Config, ts0: nat, t: Tx, b: Block)
    requires Valid(c) && CutByFrame(audio, c, ts0, Carried(t.log), t.flushes)
    ensures CutByFrame(audio, c, ts0, Carried(Packetiser.Step(c, t, b).log), t.flushes)
  {
    hide CutByFrame, Packetiser.Step;
    StepCarries(c, t, b);
    var log := Packetiser.Step(c, t, b).log;
    var bs: seq<Block> :| Carried(log) == Carried(t.log) + Stamp(t.flushes, bs);
    AddsCuts(audio, c, ts0, Carried(t.log), t.flushes, bs);
  }

  lemma NothingCuts(audio: bool, c: Config, ts0: nat)
    ensures CutByFrame(audio, c, ts0, [], 0)
  {}

  /** Redundant copies, which mix the audio of neighbouring frames, do not disturb the cut either. */
  lemma {:induction false} StreamCuts(audio: bool, c: Config, t0: Tx, bs: seq<Block>)
    requires Valid(c) && IsInit(t0) && Carries(c, audio) && (audio ==> AudioInEveryFrame(c, bs))
    ensures CutByFrame(audio, c, t0.ts, Carried(Packetiser.Run(c, t0, bs).log), Completed(c.format, bs))
    ensures WholeFrames(c.format, bs) ==>
      bs == [] || Latest(audio, Carried(Packetiser.Run(c, t0, bs).log)) < Completed(c.format, bs)
  {
    hide CutByFrame, Admits, Kept, Part, Packetiser.Step, Counted;
    if bs == [] {
      NothingCuts(audio, c, t0.ts);
    } else {
      var rest, b := bs[..|bs| - 1], bs[|bs| - 1];
      if audio { AudioInPrefix(c, bs); }
      StreamCuts(audio, c, t0, rest);
      RunNumbered(c, t0, rest);
      StepCuts(audio, c, t0.ts, Packetiser.Run(c, t0, rest), b);
      if EndOfFrame(c.format, b) {
        EndHasBlocks(audio, c, t0, bs);
        CutEndsFrame(audio, c, t0.ts, Carried(Packetiser.Run(c, t0, bs).log), Completed(c.format, rest));
      }
    }
  }

  // ----- what the receiver finishes -----

  /** The frames of the sender that reach the receiver, in order. */
  function Frames(audio: bool, c: Config, bs: seq<Block>): (ks: seq<nat>)
    ensures forall i | 0 <= i < |ks| :: ks[i] < Completed(c.format, bs)
  {
    Kept(audio, c, Completed(c.format, bs))
  }

  /** How far the receiver's frame numbers run ahead of the sender's. */
  function Ahead(audio: bool, c: Config, t0: Tx, bs: seq<Block>): nat { Lead(t0.ts, Frames(audio, c, bs)) }

  /** The main stream of whole frames arrives in order and without loss, whatever else happens in between. */
  ghost predicate Linked(audio: bool, kind: R.Kind, c: Config, t0: Tx, bs: seq<Block>, acts: seq<Action>) {
    && Valid(c) && IsInit(t0) && WholeFrames(c.format, bs) && Carries(c, audio)
    && (audio <==> kind.AudioRing?)
    && (audio ==> AudioInEveryFrame(c, bs))
    && AllPossible(acts)
    && Delivered(kind, acts) == Only(audio, Feed(Packetiser.Run(c, t0, bs).log))
  }

  lemma CutIntoKept(audio: bool, c: Config, ts0: nat, ss: seq<Stamped>, n: nat)
    requires CutByFrame(audio, c, ts0, ss, n) && Latest(audio, ss) < n && Kept(audio, c, n) != []
    ensures var (past, frames) := (Cut(Clocked(audio, ts0, ss)).past, Kept(audio, c, n));
      var lead := Lead(ts0, frames);
      && |past| == |frames| - 1 + lead
      && forall i | 0 <= i < |frames| - 1 :: past[i + lead] == Part(audio, ss, frames[i])
  {
    hide Drops, Counted, Part, Clocked, Cut, Lead, Latest;
    var l := Latest(audio, ss);
    assert Kept(audio, c, n) == Kept(audio, c, l) + [l];
  }

  lemma KeptParts(audio: bool, c: Config, bs: seq<Block>, n: nat)
    requires Carries(c, audio)
    ensures forall i | 0 <= i < |Kept(audio, c, n)| ::
      Part(audio, Admitted(c, bs), Kept(audio, c, n)[i]) == Part(audio, Labelled(c, bs), Kept(audio, c, n)[i])
  {
    forall i | 0 <= i < |Kept(audio, c, n)|
      ensures Part(audio, Admitted(c, bs), Kept(audio, c, n)[i]) == Part(audio, Labelled(c, bs), Kept(audio, c, n)[i])
    {
      KeptAreCounted(audio, c, n, i);
      FramesAreKeptWhole(audio, c, bs, Kept(audio, c, n)[i]);
    }
  }

  /**
   The receiver closes exactly the sender's frames, in order; the last one stays open. Each closed group has
   exactly its frame's blocks or, where copies of audio blocks came along, ends with the same block for
   every slot the frame has a block for.
   */
  lemma GroupsAreFrames(audio: bool, kind: R.Kind, c: Config, t0: Tx, bs: seq<Block>, acts: seq<Action>)
    requires Linked(audio, kind, c, t0, bs, acts) && Frames(audio, c, bs) != []
    ensures var (past, frames, ahead) := (Group(kind, acts).past, Frames(audio, c, bs), Ahead(audio, c, t0, bs));
      && |past| == |frames| - 1 + ahead
      && (forall i | 0 <= i < |frames| - 1 :: Renders(past[i + ahead], Part(audio, Labelled(c, bs), frames[i])))
      && ((audio ==> c.redundancy == 0) ==>
            forall i | 0 <= i < |frames| - 1 :: past[i + ahead] == Part(audio, Labelled(c, bs), frames[i]))
  {
    hide Part, Labelled, Admitted, Carried, Feed, Only, Clocked, Cut, Packetiser.Run, CutByFrame, Lead, Latest,
      Delivered, Renders;
    RunNumbered(c, t0, bs);
    NumberedIsOnTime(c, t0, Packetiser.Run(c, t0, bs).log);
    FeedClocked(t0.ts, audio, Packetiser.Run(c, t0, bs).log);
    StreamCuts(audio, c, t0, bs);
    CutIntoKept(audio, c, t0.ts, Carried(Packetiser.Run(c, t0, bs).log), Completed(c.format, bs));
    KeptParts(audio, c, bs, Completed(c.format, bs));
    FramesAreRendered(audio, c, t0, bs);
  }

  lemma FramesAreRendered(audio: bool, c: Config, t0: Tx, bs: seq<Block>)
    requires Valid(c) && IsInit(t0) && WholeFrames(c.format, bs) && Carries(c, audio)
    ensures var carried := Carried(Packetiser.Run(c, t0, bs).log);
      && (forall k: nat :: Renders(Part(audio, carried, k), Part(audio, Admitted(c, bs), k)))
      && ((audio ==> c.redundancy == 0) ==>
            forall k: nat :: Part(audio, carried, k) == Part(audio, Admitted(c, bs), k))
  {
    hide Packetiser.Run, Carried, Admitted, Part;
    if audio {
      forall k: nat
        ensures Renders(Part(true, Carried(Packetiser.Run(c, t0, bs).log), k), Part(true, Admitted(c, bs), k))
      {
        CopiesHideNothing(c, t0, bs, k);
      }
    }
    if audio ==> c.redundancy == 0 { LinkDelivers(c, t0, audio, bs); }
  }

  lemma {:induction false} KeptAreCounted(audio: bool, c: Config, n: nat, i: nat)
    requires i < |Kept(audio, c, n)|
    ensures Counted(audio, c, Kept(audio, c, n)[i])
  {
    if i < |Kept(audio, c, n - 1)| { KeptAreCounted(audio, c, n - 1, i); }
  }

  lemma CoveredPosition(kind: R.Kind, init: seq<R.Frame>, st: R.Store, k: nat, p: nat, s: nat)
    requires R.Inv(kind, init, st) && k < |st.done| && p < R.Size(kind) && R.Owned(kind, p)
    requires s == R.SlotOf(kind, p) && Covers(st.past[k], s)
    ensures |st.done[k]| == R.Size(kind) && st.done[k][p] == LastFor(st.past[k], s, ZeroBlock())
  {
    assert st.done[k][p] == LastFor(st.past[k], R.SlotOf(kind, p), R.Behind(kind, init, st.done, k, p)[p]);
    LastForCovered(st.past[k], s, R.Behind(kind, init, st.done, k, p)[p], ZeroBlock());
  }

  lemma FinishedPart(audio: bool, kind: R.Kind, c: Config, t0: Tx, bs: seq<Block>, acts: seq<Action>,
                     init: seq<R.Frame>, st: R.Store, i: nat, p: nat, s: nat)
    requires Linked(audio, kind, c, t0, bs, acts) && R.Inv(kind, init, st) && GroupsOf(st) == Group(kind, acts)
    requires p < R.Size(kind) && R.Owned(kind, p) && s == R.SlotOf(kind, p)
    requires i + 1 < |Frames(audio, c, bs)| && Covers(Part(audio, Labelled(c, bs), Frames(audio, c, bs)[i]), s)
    ensures var k := i + Ahead(audio, c, t0, bs);
      && k < |st.done| && |st.done[k]| == R.Size(kind)
      && st.done[k][p] == LastFor(Part(audio, Labelled(c, bs), Frames(audio, c, bs)[i]), s, ZeroBlock())
  {
    GroupsAreFrames(audio, kind, c, t0, bs, acts);
    CoveredPosition(kind, init, st, i + Ahead(audio, c, t0, bs), p, s);
  }

  /**
   End to end: for any packet size, drop rate, redundancy and audio mode, with video enabled, and any
   interleaving with the writer, the frame the receiver finishes with number i + `Ahead` is the i-th
   frame the sender kept, at every header, subcode, VAUX and video slot that frame has a block for.
   */
  lemma FinishedFrameIsSendersFrame(c: Config, t0: Tx, bs: seq<Block>, maxdif: nat, vinit: seq<R.Frame>,
                                    ainit: seq<R.Frame>, acts: seq<Action>, i: nat, s: nat)
    requires Linked(false, Video(maxdif), c, t0, bs, acts) && Buffers(vinit, ainit) && maxdif <= DIFSEQ_NUM_PAL
    requires i + 1 < |Frames(false, c, bs)| && s < SLOTS && !AudioSlot(s)
    requires Covers(Part(false, Labelled(c, bs), Frames(false, c, bs)[i]), s)
    ensures var done := After(maxdif, vinit, ainit, acts).v.done;
      var k := i + Ahead(false, c, t0, bs);
      && k < |done| && |done[k]| == SLOTS
      && done[k][s] == LastFor(Part(false, Labelled(c, bs), Frames(false, c, bs)[i]), s, ZeroBlock())
  {
    hide After, R.Inv, Group, Ahead, Part, Labelled;
    RunGroups(maxdif, vinit, ainit, acts);
    PT.DataInvariant(maxdif, vinit, ainit, acts);
    FinishedPart(false, Video(maxdif), c, t0, bs, acts, vinit,
                 After(maxdif, vinit, ainit, acts).v, i, s, s);
  }

  /** The same for audio sent in the main stream, with any redundancy, when every frame has some. */
  lemma FinishedAudioIsSendersAudio(c: Config, t0: Tx, bs: seq<Block>, maxdif: nat, vinit: seq<R.Frame>,
                                    ainit: seq<R.Frame>, acts: seq<Action>, i: nat, s: nat)
    requires Linked(true, R.AudioRing, c, t0, bs, acts) && Buffers(vinit, ainit) && maxdif <= DIFSEQ_NUM_PAL
    requires i + 1 < Completed(c.format, bs) && s < SLOTS && AudioSlot(s)
    requires Covers(Part(true, Labelled(c, bs), i), s)
    ensures var done := After(maxdif, vinit, ainit, acts).a.done;
      var k := i + Ahead(true, c, t0, bs);
      && k < |done| && |done[k]| == AUDIO_SLOTS && AudioAt(s) < AUDIO_SLOTS
      && done[k][AudioAt(s)] == LastFor(Part(true, Labelled(c, bs), i), s, ZeroBlock())
  {
    hide After, R.Inv, Group, Ahead, Part, Labelled;
    NoRateKeepsAll(true, c, Completed(c.format, bs));
    RunGroups(maxdif, vinit, ainit, acts);
    PT.DataInvariant(maxdif, vinit, ainit, acts);
    AudioAtInRange(s);
    FinishedPart(true, R.AudioRing, c, t0, bs, acts, ainit,
                 After(maxdif, vinit, ainit, acts).a, i, AudioAt(s), s);
  }

  // ----- what the receiver transmits -----

  /** Position s of a transmitted frame shows frame i of the sender, where that frame has a block for it. */
  ghost predicate Shows(audio: bool, c: Config, bs: seq<Block>, frame: R.Frame, i: int, s: nat) {
    && i + 1 < |Frames(audio, c, bs)| && s < |frame|
    && (i >= 0 && Covers(Part(audio, Labelled(c, bs), Frames(audio, c, bs)[i]), s) ==>
          frame[s] == LastFor(Part(audio, Labelled(c, bs), Frames(audio, c, bs)[i]), s, ZeroBlock()))
  }

  lemma OutputShowsVideo(c: Config, t0: Tx, bs: seq<Block>, maxdif: nat, vinit: seq<R.Frame>, ainit: seq<R.Frame>,
                         acts: seq<Action>, st: State, j: nat, s: nat)
    requires Linked(false, Video(maxdif), c, t0, bs, acts) && Frames(false, c, bs) != []
    requires SystemOk(maxdif, vinit, ainit, st) && GroupsOf(st.v) == Group(Video(maxdif), acts)
    requires j < |st.out| && s < SLOTS && !AudioSlot(s)
    ensures Shows(false, c, bs, st.out[j].frame, st.out[j].video - Ahead(false, c, t0, bs), s)
  {
    hide Linked, Group, Ahead, Part, Labelled;
    assert Intact(maxdif, vinit, ainit, st, st.out[j]);
    GroupsAreFrames(false, Video(maxdif), c, t0, bs, acts);
    var i := st.out[j].video - Ahead(false, c, t0, bs);
    if i >= 0 && Covers(Part(false, Labelled(c, bs), Frames(false, c, bs)[i]), s) {
      FinishedPart(false, Video(maxdif), c, t0, bs, acts, vinit, st.v, i, s, s);
    }
  }

  lemma OutputShowsAudio(c: Config, t0: Tx, bs: seq<Block>, maxdif: nat, vinit: seq<R.Frame>, ainit: seq<R.Frame>,
                         acts: seq<Action>, st: State, j: nat, s: nat)
    requires Linked(true, R.AudioRing, c, t0, bs, acts) && Frames(true, c, bs) != []
    requires SystemOk(maxdif, vinit, ainit, st) && GroupsOf(st.a) == Group(R.AudioRing, acts)
    requires j < |st.out| && !st.out[j].silent && s < SLOTS && AudioSlot(s) && s / 150 < maxdif
    ensures Shows(true, c, bs, st.out[j].frame, st.out[j].audio - Ahead(true, c, t0, bs), s)
  {
    hide Linked, Group, Ahead, Part, Labelled;
    assert Intact(maxdif, vinit, ainit, st, st.out[j]);
    GroupsAreFrames(true, R.AudioRing, c, t0, bs, acts);
    AudioAtInRange(s);
    var i := st.out[j].audio - Ahead(true, c, t0, bs);
    if i >= 0 && Covers(Part(true, Labelled(c, bs), Frames(true, c, bs)[i]), s) {
      FinishedPart(true, R.AudioRing, c, t0, bs, acts, ainit, st.a, i, AudioAt(s), s);
    }
  }

  /**
   From the sender's camera to the receiver's device: every frame transmitted once the stream has begun
   is one frame the sender kept, at every header, subcode, VAUX and video slot it has a block for. (That
   the frames come in order is part of `TransmitsOnlyFinishedFrames`, that none is skipped `NoFrameSkipped`.)
   */
  lemma TransmittedFrameIsSendersFrame(c: Config, t0: Tx, bs: seq<Block>, maxdif: nat, vinit: seq<R.Frame>,
                                       ainit: seq<R.Frame>, acts: seq<Action>, j: nat, s: nat)
    requires Linked(false, Video(maxdif), c, t0, bs, acts) && Buffers(vinit, ainit) && maxdif <= DIFSEQ_NUM_PAL
    requires |vinit| >= 2 && |ainit| >= 2 && FirstNotZero(Video(maxdif), acts) && FirstNotZero(R.AudioRing, acts)
    requires Frames(false, c, bs) != [] && s < SLOTS && !AudioSlot(s)
    requires j < |After(maxdif, vinit, ainit, acts).out|
    ensures var o := After(maxdif, vinit, ainit, acts).out[j];
      Shows(false, c, bs, o.frame, o.video - Ahead(false, c, t0, bs), s)
  {
    hide After, SystemOk, Group, Shows, Ahead, Frames, FirstNotZero, Packetiser.Run, Feed, Only, Delivered;
    TransmitsOnlyFinishedFrames(maxdif, vinit, ainit, acts);
    RunGroups(maxdif, vinit, ainit, acts);
    OutputShowsVideo(c, t0, bs, maxdif, vinit, ainit, acts, After(maxdif, vinit, ainit, acts), j, s);
  }

  /** Likewise every transmitted frame that is not muted carries the audio of one frame of the sender. */
  lemma TransmittedAudioIsSendersAudio(c: Config, t0: Tx, bs: seq<Block>, maxdif: nat, vinit: seq<R.Frame>,
                                       ainit: seq<R.Frame>, acts: seq<Action>, j: nat, s: nat)
    requires Linked(true, R.AudioRing, c, t0, bs, acts) && Buffers(vinit, ainit) && maxdif <= DIFSEQ_NUM_PAL
    requires |vinit| >= 2 && |ainit| >= 2 && FirstNotZero(Video(maxdif), acts) && FirstNotZero(R.AudioRing, acts)
    requires Frames(true, c, bs) != [] && s < SLOTS && AudioSlot(s) && s / 150 < maxdif
    requires j < |After(maxdif, vinit, ainit, acts).out|
    ensures var o := After(maxdif, vinit, ainit, acts).out[j];
      !o.silent ==> Shows(true, c, bs, o.frame, o.audio - Ahead(true, c, t0, bs), s)
  {
    hide After, SystemOk, Group, Shows, Ahead, Frames, FirstNotZero, Packetiser.Run, Feed, Only, Delivered;
    TransmitsOnlyFinishedFrames(maxdif, vinit, ainit, acts);
    RunGroups(maxdif, vinit, ainit, acts);
    var st := After(maxdif, vinit, ainit, acts);
    if !st.out[j].silent { OutputShowsAudio(c, t0, bs, maxdif, vinit, ainit, acts, st, j, s); }
  }
}
