/**
 Loss counted over a lossless link: the numbers consumed by frames that fill their packets, and what a
 second stream does to the one counter the receiver has.
 */
module LinkLoss {
  import opened Dif
  import opened Modular
  import opened Packetiser
  import opened PacketiserLaws
  import opened Loss

  function Seqnos(log: seq<Event>): seq<nat> {
    if log == [] then []
    else Seqnos(log[..|log| - 1]) + (if log[|log| - 1].EmptyFlush? then [] else [log[|log| - 1].packet.seqno])
  }

  /** The same before they are taken modulo 2^16, counted up from the first. */
  function Positions(first: nat, log: seq<Event>): seq<nat> {
    if log == [] then []
    else Positions(first, log[..|log| - 1]) + (if log[|log| - 1].EmptyFlush? then [] else [first + |log| - 1])
  }

  function Empties(log: seq<Event>): nat {
    if log == [] then 0 else Empties(log[..|log| - 1]) + (if log[|log| - 1].EmptyFlush? then 1 else 0)
  }

  /** Empty flushes since the last packet. */
  function Trailing(log: seq<Event>): nat {
    if log == [] || !log[|log| - 1].EmptyFlush? then 0 else 1 + Trailing(log[..|log| - 1])
  }

  /** Empty flushes before the first packet. */
  function Leading(log: seq<Event>): nat {
    if log == [] then 0
    else
      var (rest, e) := (log[..|log| - 1], log[|log| - 1]);
      Leading(rest) + (if e.EmptyFlush? && Leading(rest) == |rest| then 1 else 0)
  }

  // ----- numbers on the wire -----

  lemma {:induction false} PositionsIncrease(first: nat, log: seq<Event>)
    ensures Increasing(Positions(first, log))
    ensures forall i | 0 <= i < |Positions(first, log)| :: first <= Positions(first, log)[i] < first + |log|
  {
    if log != [] { PositionsIncrease(first, log[..|log| - 1]); }
  }

  lemma {:induction false} SeqnosWrap(c: Config, t0: Tx, log: seq<Event>)
    requires LogNumbered(c, t0, log)
    ensures Seqnos(log) == Wrapped(Positions(t0.seqno, log))
  {
    if log != [] {
      SeqnosWrap(c, t0, log[..|log| - 1]);
      assert WellNumbered(c, t0, log[|log| - 1], |log| - 1);
    }
  }

  /** The ends of the numbers sent, and how many there are. */
  lemma {:induction false} PositionsSpan(first: nat, log: seq<Event>)
    ensures |Positions(first, log)| + Empties(log) == |log|
    ensures var xs := Positions(first, log);
      if xs == [] then Leading(log) == |log| && Trailing(log) == |log|
      else
        && Leading(log) < |log| && Trailing(log) < |log|
        && xs[0] == first + Leading(log) && xs[|xs| - 1] == first + |log| - 1 - Trailing(log)
  {
    if log != [] {
      var rest := log[..|log| - 1];
      PositionsSpan(first, rest);
      assert Positions(first, rest) + [] == Positions(first, rest);
    }
  }

  /**
   With every packet delivered in order, over any number of wraps: the counted loss and the empty flushes at
   both ends are together at most all empty flushes, and exactly those if and only if every step is counted
   in full.
   */
  lemma LossWithinEmptyFlushes(c: Config, t0: Tx, log: seq<Event>)
    requires LogNumbered(c, t0, log) && Seqnos(log) != []
    ensures Gaps(Seqnos(log)) + Leading(log) + Trailing(log) <= Empties(log)
    ensures Gaps(Seqnos(log)) + Leading(log) + Trailing(log) == Empties(log) <==>
            AllCountedInFull(Positions(t0.seqno, log))
  {
    hide Missing, Wrapped, CountedInFull;
    var xs := Positions(t0.seqno, log);
    SeqnosWrap(c, t0, log);
    PositionsIncrease(t0.seqno, log);
    PositionsSpan(t0.seqno, log);
    WrappedLength(xs);
    InOrderLoss(xs);
    MissingOfIncreasing(xs);
  }

  lemma WrappedLength(xs: seq<nat>)
    ensures |Wrapped(xs)| == |xs|
  {}

  /** Numbers that neither start at 0 nor wrap are counted in full. */
  lemma NoWrapCountedInFull(first: nat, log: seq<Event>)
    requires 0 < first && first + |log| <= TWO16
    ensures AllCountedInFull(Positions(first, log))
  {
    PositionsIncrease(first, log);
    var xs := Positions(first, log);
    forall i | 0 <= i < |xs| - 1 ensures CountedInFull(xs[i], xs[i + 1]) {
      assert xs[i] < TWO16 && xs[i + 1] < TWO16;
    }
  }

  // ----- empty flushes and full frames -----

  /** How many of the first n frames fill their packets, d blocks each, without remainder. */
  function FullFrames(d: nat, ss: seq<Stamped>, n: nat): nat
    requires d > 0
  {
    if n == 0 then 0 else FullFrames(d, ss, n - 1) + (if InFrame(ss, n - 1) % d == 0 then 1 else 0)
  }

  lemma {:induction false} FullFramesStable(d: nat, ss: seq<Stamped>, s: Stamped, n: nat)
    requires d > 0 && n <= s.frame
    ensures FullFrames(d, ss + [s], n) == FullFrames(d, ss, n)
  {
    if n > 0 {
      FullFramesStable(d, ss, s, n - 1);
      InFrameSnoc(ss, s, n - 1);
    }
  }

  lemma EmptiesSnoc(log: seq<Event>, e: Event)
    ensures Empties(log + [e]) == Empties(log) + (if e.EmptyFlush? then 1 else 0)
  {}

  lemma {:induction false} SendCopiesEmpties(t: Tx, n: nat)
    ensures Empties(SendCopies(t, n).log) == Empties(t.log)
  {
    if n > 0 {
      SendCopiesEmpties(t, n - 1);
      var u := SendCopies(t, n - 1);
      EmptiesSnoc(u.log, Copy(u.flushes, Packet(u.seqno, u.ts, u.red)));
    }
  }

  /** What the sender holds when it gets to the flush, if it does. */
  function AtFlush(c: Config, t: Tx, b: Block): Tx {
    if c.noVideo || Drops(c, t.frame) then t else AddToOutbuf(c, t, b)
  }

  /** The sender after an audio block went to its stream, before it goes to the redundant buffer. */
  function Filed(c: Config, t: Tx, b: Block): Tx {
    if c.noAudio then t else if c.separateAudio then AddToAudioOutbuf(c, t, b) else AddToOutbuf(c, t, b)
  }

  lemma AddToOutbufEmpties(c: Config, t: Tx, b: Block)
    ensures Empties(AddToOutbuf(c, t, b).log) == Empties(t.log)
  {
    EmptiesSnoc(t.log, Main(t.flushes, Packet(t.seqno, t.ts, t.out + [b])));
  }

  lemma AddToROutbufEmpties(c: Config, t: Tx, b: Block)
    ensures Empties(AddToROutbuf(c, t, b).log) == Empties(t.log)
  {
    SendCopiesEmpties(t.(red := t.red + [b]), c.redundancy);
  }

  lemma FlushEmpties(c: Config, t: Tx)
    ensures Empties(Flush(c, t).log) == Empties(t.log) + (if t.out == [] then 1 else 0)
  {
    EmptiesSnoc(t.log, if |t.out| > 0 then Main(t.flushes, Packet(t.seqno, t.ts, t.out)) else EmptyFlush(t.flushes));
  }

  lemma StepEmpties(c: Config, t: Tx, b: Block)
    ensures var flushed := EndOfFrame(c.format, b) && AtFlush(c, t, b).out == [];
      Empties(Packetiser.Step(c, t, b).log) == Empties(t.log) + (if flushed then 1 else 0)
  {
    hide Drops, AddToOutbuf, AddToROutbuf, Flush, Empties;
    AddToOutbufEmpties(c, t, b);
    if IsAudio(b) {
      AddToROutbufEmpties(c, Filed(c, t, b), b);
    } else if EndOfFrame(c.format, b) {
      FlushEmpties(c, AtFlush(c, t, b));
    }
  }

  /** At the flush the buffer is empty exactly when the frame, with its last block, fills its packets. */
  lemma EmptyAtFlush(c: Config, ss: seq<Stamped>, t: Tx, b: Block)
    requires Valid(c) && FlushLaw(c, ss, t) && t.frame == CounterOf(t.flushes) && EndOfFrame(c.format, b)
    ensures var ss' := ss + (if Admits(c, t.flushes, b) then [Stamped(t.flushes, b)] else []);
      AtFlush(c, t, b).out == [] <==> InFrame(ss', t.flushes) % c.blocksInPkt == 0
  {
    assert ss + [] == ss;
    AddToOutbufFlushLaw(c, ss, t, b);
  }

  lemma {:induction false} EmptiesAreFullFrames(c: Config, t0: Tx, bs: seq<Block>)
    requires Valid(c) && IsInit(t0)
    ensures Empties(Packetiser.Run(c, t0, bs).log) ==
            FullFrames(c.blocksInPkt, Admitted(c, bs), Completed(c.format, bs))
  {
    hide Admits, Packetiser.Step, AtFlush, FlushLaw, InFrame;
    if bs != [] {
      var rest, b := bs[..|bs| - 1], bs[|bs| - 1];
      var t, n := Packetiser.Run(c, t0, rest), Completed(c.format, rest);
      EmptiesAreFullFrames(c, t0, rest);
      NumberSkippedIffPacketsAreFull(c, t0, rest);
      RunNumbered(c, t0, rest);
      StepEmpties(c, t, b);
      FullFramesStable(c.blocksInPkt, Admitted(c, rest), Stamped(n, b), n);
      assert Admitted(c, rest) + [] == Admitted(c, rest);
      if EndOfFrame(c.format, b) { EmptyAtFlush(c, Admitted(c, rest), t, b); }
    }
  }

  // ----- both streams meet one counter -----

  /** Both lists mixed, each in its own order. */
  ghost predicate Merges(ss: seq<nat>, xs: seq<nat>, ys: seq<nat>)
    decreases |ss|
  {
    if ss == [] then xs == [] && ys == []
    else
      var (rest, s) := (ss[..|ss| - 1], ss[|ss| - 1]);
      || (xs != [] && s == xs[|xs| - 1] && Merges(rest, xs[..|xs| - 1], ys))
      || (ys != [] && s == ys[|ys| - 1] && Merges(rest, xs, ys[..|ys| - 1]))
  }

  lemma {:induction false} MergesWithNothing(ss: seq<nat>, xs: seq<nat>)
    requires Merges(ss, xs, [])
    ensures ss == xs
  {
    if ss != [] { MergesWithNothing(ss[..|ss| - 1], xs[..|xs| - 1]); }
  }

  lemma CopiesAreNoAudioStream(c: Config, t: Tx, b: Block)
    ensures AddToROutbuf(c, t, b).alog == t.alog
  {
    SendCopiesConserves(t.(red := t.red + [b]), c.redundancy);
  }

  lemma StepNoAudioStream(c: Config, t: Tx, b: Block)
    requires !c.separateAudio
    ensures Packetiser.Step(c, t, b).alog == t.alog
  {
    hide AddToROutbuf, Drops;
    CopiesAreNoAudioStream(c, if c.noAudio then t else AddToOutbuf(c, t, b), b);
  }

  lemma {:induction false} RunNoAudioStream(c: Config, t0: Tx, bs: seq<Block>)
    requires IsInit(t0) && !c.separateAudio
    ensures Packetiser.Run(c, t0, bs).alog == []
  {
    if bs != [] {
      RunNoAudioStream(c, t0, bs[..|bs| - 1]);
      StepNoAudioStream(c, Packetiser.Run(c, t0, bs[..|bs| - 1]), bs[|bs| - 1]);
    }
  }

  /** The numbers the receiver counts: all of the main stream's and of the separate audio stream's, mixed anyhow. */
  ghost predicate Received(t: Tx, ss: seq<nat>) { Merges(ss, Seqnos(t.log), Seqnos(t.alog)) }

  /**
   Sender and receiver together, audio in the main stream, any number of wraps: the counted loss falls short
   of the number of frames that fill their packets by the ones at both ends of the stream, and otherwise
   equals it if and only if every step of the numbers is counted in full.
   */
  lemma SenderAndReceiverAgreeOnLoss(c: Config, t0: Tx, bs: seq<Block>, ss: seq<nat>)
    requires Valid(c) && IsInit(t0) && !c.separateAudio && Received(Packetiser.Run(c, t0, bs), ss) && ss != []
    ensures var log := Packetiser.Run(c, t0, bs).log;
      var (counted, full) := (Gaps(ss) + Leading(log) + Trailing(log),
                              FullFrames(c.blocksInPkt, Admitted(c, bs), Completed(c.format, bs)));
      && counted <= full
      && (counted == full <==> AllCountedInFull(Positions(t0.seqno, log)))
      && (0 < t0.seqno && t0.seqno + |log| <= TWO16 ==> counted == full)
  {
    hide AllCountedInFull, Admitted;
    var t := Packetiser.Run(c, t0, bs);
    RunNoAudioStream(c, t0, bs);
    MergesWithNothing(ss, Seqnos(t.log));
    RunNumbered(c, t0, bs);
    LossWithinEmptyFlushes(c, t0, t.log);
    EmptiesAreFullFrames(c, t0, bs);
    if 0 < t0.seqno && t0.seqno + |t.log| <= TWO16 { NoWrapCountedInFull(t0.seqno, t.log); }
  }

  /** With no full frame nothing is counted, whatever the number of wraps. */
  lemma NoFullFrameNoLoss(c: Config, t0: Tx, bs: seq<Block>, ss: seq<nat>)
    requires Valid(c) && IsInit(t0) && !c.separateAudio && Received(Packetiser.Run(c, t0, bs), ss)
    requires FullFrames(c.blocksInPkt, Admitted(c, bs), Completed(c.format, bs)) == 0
    ensures Gaps(ss) == 0
  {
    if ss != [] { SenderAndReceiverAgreeOnLoss(c, t0, bs, ss); }
  }

  /**
   With the audio in a stream of its own the receiver's one counter sees both sequences of numbers. A packet y
   of the one between the packets x and x + 1 of the other costs the distance from y to the nearer of them.
   */
  lemma DetourIsCounted(ss: seq<nat>, x: nat, y: nat)
    requires x > 0 && y > 0
    ensures Gaps(ss + [x, y, x + 1]) == Gaps(ss + [x]) + (if y > x then y - x - 1 else x - y)
  {
    assert ss + [x, y] == ss + [x] + [y];
    assert ss + [x, y, x + 1] == ss + [x, y] + [x + 1];
    GapsSnoc(ss + [x], y);
    GapsSnoc(ss + [x, y], x + 1);
  }

  lemma OneVideoBlock(c: Config, t: Tx, v: Block)
    requires c.blocksInPkt == 1 && c.separateAudio && Admits(c, 0, v) && !EndOfFrame(c.format, v)
    requires t.frame == CounterOf(0) && t.out == [] && t.log == []
    ensures var u := Packetiser.Step(c, t, v);
      u.log == [Main(t.flushes, Packet(t.seqno, t.ts, [v]))] && u == t.(seqno := u.seqno, log := u.log)
  {
    assert t.out + [v] == [v];
  }

  lemma OneAudioBlock(c: Config, t: Tx, a: Block)
    requires c.blocksInPkt == 1 && c.separateAudio && !c.noAudio && c.redundancy == 0 && IsAudio(a)
    requires t.aud == [] && t.alog == []
    ensures var u := Packetiser.Step(c, t, a);
      u.alog == [Main(t.flushes, Packet(t.aseq, t.ats, [a]))] && u.log == t.log
  {
    assert t.aud + [a] == [a];
  }

  /** So a lossless link shows loss: one packet of each stream, and the distance of their numbers is counted. */
  lemma SeparateAudioLooksLost(c: Config, t0: Tx, v: Block, a: Block)
    requires Valid(c) && IsInit(t0) && c.separateAudio && !c.noAudio && c.blocksInPkt == 1 && c.redundancy == 0
    requires Admits(c, 0, v) && IsAudio(a) && !EndOfFrame(c.format, v)
    requires 0 < t0.seqno < t0.aseq
    ensures Received(Packetiser.Run(c, t0, [v, a]), [t0.seqno, t0.aseq])
    ensures Gaps([t0.seqno, t0.aseq]) == t0.aseq - t0.seqno - 1
  {
    hide Packetiser.Step, Merges, Seqnos, Admits;
    assert [v, a][..1] == [v] && [v][..0] == [] && CounterOf(0) == 1;
    assert Packetiser.Run(c, t0, []) == t0;
    var t, u := Packetiser.Run(c, t0, [v]), Packetiser.Run(c, t0, [v, a]);
    OneVideoBlock(c, t0, v);
    OneAudioBlock(c, t, a);
    SeqnosOfOne(u.log);
    SeqnosOfOne(u.alog);
    MergesPair(t0.seqno, t0.aseq);
    assert [t0.seqno, t0.aseq][..1] == [t0.seqno];
  }

  lemma SeqnosOfOne(log: seq<Event>)
    requires |log| == 1 && !log[0].EmptyFlush?
    ensures Seqnos(log) == [log[0].packet.seqno]
  {}

  lemma MergesPair(x: nat, y: nat)
    ensures Merges([x, y], [x], [y])
  {
    assert [x, y][..1] == [x] && [x][..0] == [] && [y][..0] == [];
    assert Merges([], [], []);
    assert Merges([x], [x], []);
  }

  // ----- streams of full frames -----

  /** No two empty flushes in a row, and none at the start. */
  ghost predicate Spaced(log: seq<Event>) {
    forall i | 0 <= i < |log| && log[i].EmptyFlush? :: i > 0 && !log[i - 1].EmptyFlush?
  }

  ghost predicate EndsWithPacket(log: seq<Event>) { log != [] && !log[|log| - 1].EmptyFlush? }

  ghost predicate SpacedLaw(ss: seq<Stamped>, t: Tx) {
    && Spaced(t.log)
    && (InFrame(ss, t.flushes) > 0 ==> t.out != [] || EndsWithPacket(t.log))
  }

  lemma {:induction false} SendCopiesSpaced(t: Tx, n: nat)
    requires Spaced(t.log)
    ensures Spaced(SendCopies(t, n).log)
    ensures EndsWithPacket(t.log) ==> EndsWithPacket(SendCopies(t, n).log)
    ensures SendCopies(t, n) == t.(seqno := SendCopies(t, n).seqno, log := SendCopies(t, n).log)
  {
    if n > 0 { SendCopiesSpaced(t, n - 1); }
  }

  lemma AddToOutbufSpaced(c: Config, ss: seq<Stamped>, t: Tx, b: Block)
    requires SpacedLaw(ss, t)
    ensures SpacedLaw(ss + [Stamped(t.flushes, b)], AddToOutbuf(c, t, b))
    ensures var u := AddToOutbuf(c, t, b); u.out != [] || EndsWithPacket(u.log)
  {
    InFrameSnoc(ss, Stamped(t.flushes, b), t.flushes);
  }

  lemma AddToROutbufSpaced(c: Config, ss: seq<Stamped>, t: Tx, b: Block)
    requires SpacedLaw(ss, t)
    ensures SpacedLaw(ss, AddToROutbuf(c, t, b))
  {
    SendCopiesSpaced(t.(red := t.red + [b]), c.redundancy);
  }

  lemma FlushSpaced(c: Config, ss: seq<Stamped>, t: Tx)
    requires SpacedLaw(ss, t) && InFrame(ss, t.flushes) > 0 && InFrame(ss, t.flushes + 1) == 0
    ensures SpacedLaw(ss, Flush(c, t))
  {}

  lemma StepSpaced(c: Config, ss: seq<Stamped>, t: Tx, b: Block)
    requires Valid(c) && SpacedLaw(ss, t) && t.frame == CounterOf(t.flushes)
    requires forall m | m > t.flushes :: InFrame(ss, m) == 0
    requires var ss' := ss + (if Admits(c, t.flushes, b) then [Stamped(t.flushes, b)] else []);
      EndOfFrame(c.format, b) ==> InFrame(ss', t.flushes) > 0
    ensures SpacedLaw(ss + (if Admits(c, t.flushes, b) then [Stamped(t.flushes, b)] else []), Packetiser.Step(c, t, b))
  {
    hide CounterOf, AddToOutbuf, AddToROutbuf, Flush, SpacedLaw, InFrame;
    assert ss + [] == ss;
    var ss' := ss + (if Admits(c, t.flushes, b) then [Stamped(t.flushes, b)] else []);
    AddToOutbufSpaced(c, ss, t, b);
    if IsAudio(b) {
      var u := Filed(c, t, b);
      AudioStreamSpaced(c, ss, t, b);
      AddToROutbufSpaced(c, ss', u, b);
    } else if EndOfFrame(c.format, b) {
      InFrameSnoc(ss, Stamped(t.flushes, b), t.flushes + 1);
      AddToOutbufFlushes(c, t, b);
      FlushSpaced(c, ss', AtFlush(c, t, b));
    }
  }

  lemma AddToOutbufFlushes(c: Config, t: Tx, b: Block)
    ensures AddToOutbuf(c, t, b).flushes == t.flushes
  {}

  lemma AudioStreamSpaced(c: Config, ss: seq<Stamped>, t: Tx, b: Block)
    requires SpacedLaw(ss, t)
    ensures SpacedLaw(ss, AddToAudioOutbuf(c, t, b))
  {}

  /** No complete frame is without blocks in the main stream. */
  ghost predicate NoFrameEmpty(c: Config, bs: seq<Block>) {
    forall n: nat | n < Completed(c.format, bs) :: InFrame(Admitted(c, bs), n) > 0
  }

  lemma CompletedPrefix(c: Config, bs: seq<Block>)
    requires bs != [] && NoFrameEmpty(c, bs)
    ensures NoFrameEmpty(c, bs[..|bs| - 1])
    ensures EndOfFrame(c.format, bs[|bs| - 1]) ==> InFrame(Admitted(c, bs), Completed(c.format, bs[..|bs| - 1])) > 0
  {
    hide InFrame, Admits;
    var rest, b := bs[..|bs| - 1], bs[|bs| - 1];
    var m, ss := Completed(c.format, rest), Admitted(c, rest);
    assert Admitted(c, bs) == ss + [Stamped(m, b)] || Admitted(c, bs) == ss;
    forall n: nat | n < m ensures InFrame(ss, n) > 0 {
      InFrameSnoc(ss, Stamped(m, b), n);
      assert InFrame(Admitted(c, bs), n) > 0;
    }
  }

  lemma {:induction false} RunSpaced(c: Config, t0: Tx, bs: seq<Block>)
    requires Valid(c) && IsInit(t0) && NoFrameEmpty(c, bs)
    ensures SpacedLaw(Admitted(c, bs), Packetiser.Run(c, t0, bs))
  {
    hide SpacedLaw, NoFrameEmpty, Packetiser.Step, Admits, CounterOf, InFrame;
    if bs == [] {
      StartSpaced(t0);
    } else {
      var rest, b := bs[..|bs| - 1], bs[|bs| - 1];
      CompletedPrefix(c, bs);
      RunSpaced(c, t0, rest);
      RunNumbered(c, t0, rest);
      NumberSkippedIffPacketsAreFull(c, t0, rest);
      assert Admitted(c, rest) + [] == Admitted(c, rest);
      StepSpaced(c, Admitted(c, rest), Packetiser.Run(c, t0, rest), b);
    }
  }

  lemma StartSpaced(t0: Tx)
    requires IsInit(t0)
    ensures SpacedLaw([], t0)
  {}

  lemma {:induction false} SpacedEnds(log: seq<Event>)
    requires Spaced(log)
    ensures Leading(log) == 0
    ensures log != [] && log[|log| - 1].EmptyFlush? ==> Trailing(log) == 1 && Seqnos(log) != []
  {
    if log != [] {
      var rest, n := log[..|log| - 1], |log| - 1;
      assert forall i | 0 <= i < n :: rest[i] == log[i];
      SpacedEnds(rest);
      assert log[n].EmptyFlush? ==> n > 0 && !rest[n - 1].EmptyFlush?;
    }
  }

  /** A frame that fills its packets ends with an empty flush. */
  lemma EndsWithEmptyFlush(c: Config, t0: Tx, bs: seq<Block>)
    requires Valid(c) && IsInit(t0) && bs != [] && EndOfFrame(c.format, bs[|bs| - 1])
    requires InFrame(Admitted(c, bs), Completed(c.format, bs[..|bs| - 1])) % c.blocksInPkt == 0
    ensures var log := Packetiser.Run(c, t0, bs).log; log != [] && log[|log| - 1].EmptyFlush?
  {
    hide InFrame, Admits, FlushLaw, CounterOf;
    var rest, b := bs[..|bs| - 1], bs[|bs| - 1];
    RunNumbered(c, t0, rest);
    NumberSkippedIffPacketsAreFull(c, t0, rest);
    assert Admitted(c, rest) + [] == Admitted(c, rest);
    EmptyAtFlush(c, Admitted(c, rest), Packetiser.Run(c, t0, rest), b);
  }

  /**
   When every frame fills its packets, each frame but the last shows as one lost packet on a lossless link,
   as long as the numbers do not wrap.
   */
  lemma EveryFullFrameLooksLost(c: Config, t0: Tx, bs: seq<Block>, ss: seq<nat>)
    requires Valid(c) && IsInit(t0) && !c.separateAudio && Received(Packetiser.Run(c, t0, bs), ss)
    requires bs != [] && EndOfFrame(c.format, bs[|bs| - 1]) && NoFrameEmpty(c, bs)
    requires forall n: nat | n < Completed(c.format, bs) :: InFrame(Admitted(c, bs), n) % c.blocksInPkt == 0
    requires 0 < t0.seqno && t0.seqno + |Packetiser.Run(c, t0, bs).log| <= TWO16
    ensures Gaps(ss) == Completed(c.format, bs) - 1
  {
    hide Packetiser.Run, Admitted, InFrame, NoFrameEmpty;
    var log := Packetiser.Run(c, t0, bs).log;
    RunSpaced(c, t0, bs);
    EndsWithEmptyFlush(c, t0, bs);
    SpacedEnds(log);
    RunNoAudioStream(c, t0, bs);
    MergesWithNothing(ss, Seqnos(log));
    SenderAndReceiverAgreeOnLoss(c, t0, bs, ss);
    AllFull(c.blocksInPkt, Admitted(c, bs), Completed(c.format, bs));
  }

  lemma AllFull(d: nat, ss: seq<Stamped>, n: nat)
    requires d > 0 && forall k: nat | k < n :: InFrame(ss, k) % d == 0
    ensures FullFrames(d, ss, n) == n
  {}

  /** The shortest such stream: two frames of one block each, one block a packet. */
  lemma TwoFullFramesShowLoss(c: Config, t0: Tx, b: Block)
    requires Valid(c) && IsInit(t0) && c.blocksInPkt == 1 && !c.separateAudio && !c.noVideo && c.frameDrop <= 1
    requires EndOfFrame(c.format, b) && 0 < t0.seqno && t0.seqno + 4 <= TWO16
    ensures Packets(Packetiser.Run(c, t0, [b, b]).log) ==
            [Packet(t0.seqno, t0.ts, [b]), Packet(t0.seqno + 2, TimestampOf(t0.ts, 1), [b])]
    ensures Gaps([t0.seqno, t0.seqno + 2]) == 1
  {
    hide Packetiser.Step, Packets;
    assert [b, b][..1] == [b] && [b][..0] == [];
    var t := Packetiser.Run(c, t0, [b]);
    assert Packetiser.Run(c, t0, []) == t0;
    OneBlockFrame(c, t0, b);
    OneBlockFrame(c, t, b);
    PacketsOfTwo(Packet(t0.seqno, t0.ts, [b]), Packet(t0.seqno + 2, TimestampOf(t0.ts, 1), [b]));
    assert [t0.seqno, t0.seqno + 2][..1] == [t0.seqno];
  }

  lemma PacketsOfTwo(p: Packet, q: Packet)
    ensures Packets([] + [Main(0, p)] + [EmptyFlush(0)] + [Main(1, q)] + [EmptyFlush(1)]) == [p, q]
  {
    assert Packets([]) == [];
    hide Packets;
    var log: seq<Event> := [] + [Main(0, p)];
    PacketsSnoc([], Main(0, p));
    PacketsSnoc(log, EmptyFlush(0));
    PacketsSnoc(log + [EmptyFlush(0)], Main(1, q));
    PacketsSnoc(log + [EmptyFlush(0)] + [Main(1, q)], EmptyFlush(1));
    assert [p] + [] == [p] && [p] + [q] == [p, q];
  }

  lemma OneBlockFrame(c: Config, t: Tx, b: Block)
    requires c.blocksInPkt == 1 && !c.separateAudio && !c.noVideo && c.frameDrop <= 1 && EndOfFrame(c.format, b)
    requires t.out == []
    ensures var u := Packetiser.Step(c, t, b);
      && u.log == t.log + [Main(t.flushes, Packet(t.seqno, t.ts, [b]))] + [EmptyFlush(t.flushes)]
      && u.out == [] && u.seqno == ((t.seqno + 1) % TWO16 + 1) % TWO16
      && u.ts == (t.ts + TICKS) % TWO32 && u.flushes == t.flushes + 1
  {
    assert t.out + [b] == [b];
  }
}
