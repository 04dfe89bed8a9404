/** What every run of the sender keeps: numbering, conservation, end-of-frame flushes, audio clock, frame dropping. */
module PacketiserLaws {
  import opened Dif
  import opened Modular
  import opened Packetiser

  // ----- numbering -----

  lemma {:induction false} RunNumbered(c: Config, t0: Tx, bs: seq<Block>)
    requires Valid(c) && IsInit(t0)
    ensures Numbered(c, t0, Run(c, t0, bs)) && |Run(c, t0, bs).red| < c.blocksInPkt
    ensures Run(c, t0, bs).flushes == Completed(c.format, bs)
  {
    if bs != [] {
      RunNumbered(c, t0, bs[..|bs| - 1]);
      StepNumbered(c, t0, Run(c, t0, bs[..|bs| - 1]), bs[|bs| - 1]);
    }
  }

  /**
   Main packets and redundant copies share one sequence of numbers: from one packet to the next the
   number grows by one, and by one more for each empty flush between them.
   */
  lemma SequenceNumbersCountEmptyFlushes(c: Config, t0: Tx, bs: seq<Block>, i: nat, j: nat)
    requires Valid(c) && IsInit(t0) && i < j < |Run(c, t0, bs).log|
    requires var log := Run(c, t0, bs).log;
      !log[i].EmptyFlush? && !log[j].EmptyFlush? && forall k | i < k < j :: log[k].EmptyFlush?
    ensures var log := Run(c, t0, bs).log;
      log[j].packet.seqno == (log[i].packet.seqno + 1 + |log[i + 1..j]|) % TWO16
  {
    RunNumbered(c, t0, bs);
    var log := Run(c, t0, bs).log;
    assert WellNumbered(c, t0, log[i], i) && WellNumbered(c, t0, log[j], j);
    ModStep(t0.seqno + i, j - i, TWO16);
  }

  // ----- conservation -----

  function Sent(t: Tx): seq<Stamped> { Unpack(t.log) + Stamp(t.flushes, t.out) }

  function SentAudio(t: Tx): seq<Stamped> { Unpack(t.alog) + Stamp(t.flushes, t.aud) }

  lemma UnpackSnoc(log: seq<Event>, e: Event)
    ensures Unpack(log + [e]) == Unpack(log) + (if e.Main? then Stamp(e.frame, e.packet.payload) else [])
  {}

  lemma AddToOutbufConserves(c: Config, t: Tx, b: Block)
    ensures Sent(AddToOutbuf(c, t, b)) == Sent(t) + [Stamped(t.flushes, b)]
    ensures SentAudio(AddToOutbuf(c, t, b)) == SentAudio(t) && AddToOutbuf(c, t, b).aud == t.aud
  {}

  lemma AddToAudioOutbufConserves(c: Config, t: Tx, b: Block)
    ensures SentAudio(AddToAudioOutbuf(c, t, b)) == SentAudio(t) + [Stamped(t.flushes, b)]
    ensures Sent(AddToAudioOutbuf(c, t, b)) == Sent(t)
  {}

  lemma {:induction false} SendCopiesConserves(t: Tx, n: nat)
    ensures Unpack(SendCopies(t, n).log) == Unpack(t.log)
    ensures SendCopies(t, n) == t.(seqno := SendCopies(t, n).seqno, log := SendCopies(t, n).log)
  {
    if n > 0 {
      SendCopiesConserves(t, n - 1);
      var u := SendCopies(t, n - 1);
      UnpackSnoc(u.log, Copy(u.flushes, Packet(u.seqno, u.ts, u.red)));
    }
  }

  lemma AddToROutbufConserves(c: Config, t: Tx, b: Block)
    ensures Sent(AddToROutbuf(c, t, b)) == Sent(t) && SentAudio(AddToROutbuf(c, t, b)) == SentAudio(t)
    ensures AddToROutbuf(c, t, b).aud == t.aud
  {
    SendCopiesConserves(t.(red := t.red + [b]), c.redundancy);
  }

  lemma FlushConserves(c: Config, t: Tx)
    requires !c.separateAudio ==> t.aud == []
    ensures Sent(Flush(c, t)) == Sent(t) && SentAudio(Flush(c, t)) == SentAudio(t)
    ensures !c.separateAudio ==> Flush(c, t).aud == []
  {}

  lemma StepConserves(c: Config, t: Tx, b: Block)
    requires t.frame == CounterOf(t.flushes) && (!c.separateAudio ==> t.aud == [])
    ensures Sent(Step(c, t, b)) == Sent(t) + (if Admits(c, t.flushes, b) then [Stamped(t.flushes, b)] else [])
    ensures SentAudio(Step(c, t, b)) == SentAudio(t) + (if AdmitsAudio(c, b) then [Stamped(t.flushes, b)] else [])
    ensures !c.separateAudio ==> Step(c, t, b).aud == []
  {
    hide AddToOutbuf, AddToAudioOutbuf, AddToROutbuf, ProcessVideo, Sent, SentAudio;
    AddToOutbufConserves(c, t, b);
    if IsAudio(b) {
      AddToAudioOutbufConserves(c, t, b);
      var u := if c.noAudio then t else if c.separateAudio then AddToAudioOutbuf(c, t, b) else AddToOutbuf(c, t, b);
      AddToROutbufConserves(c, u, b);
    } else if Sct(b) == SCT_VIDEO {
      ProcessVideoConserves(c, t, b);
    }
  }

  lemma ProcessVideoConserves(c: Config, t: Tx, b: Block)
    requires !c.separateAudio ==> t.aud == []
    ensures Sent(ProcessVideo(c, t, b)) ==
            Sent(t) + (if c.noVideo || Drops(c, t.frame) then [] else [Stamped(t.flushes, b)])
    ensures SentAudio(ProcessVideo(c, t, b)) == SentAudio(t)
    ensures !c.separateAudio ==> ProcessVideo(c, t, b).aud == []
  {
    hide FlushMain, FlushAudio, Sent, SentAudio;
    AddToOutbufConserves(c, t, b);
    var u := if c.noVideo || Drops(c, t.frame) then t else AddToOutbuf(c, t, b);
    FlushConserves(c, u);
  }

  /**
   At every point of every run, the blocks already sent followed by those still in the
   buffer are exactly the admitted blocks, in order; and every packet holds between one and
   `blocksInPkt` blocks of a single frame n and carries the first timestamp plus 3003 n.
   */
  lemma {:induction false} SenderConserves(c: Config, t0: Tx, bs: seq<Block>)
    requires Valid(c) && IsInit(t0)
    ensures var t := Run(c, t0, bs);
      && Unpack(t.log) + Stamp(t.flushes, t.out) == Admitted(c, bs)
      && Unpack(t.alog) + Stamp(t.flushes, t.aud) == AdmittedAudio(c, bs)
      && (!c.separateAudio ==> t.aud == [])
      && LogNumbered(c, t0, t.log)
      && |t.out| < c.blocksInPkt
  {
    RunNumbered(c, t0, bs);
    if bs == [] {
      assert Stamp(0, []) == [];
    } else {
      var rest := bs[..|bs| - 1];
      SenderConserves(c, t0, rest);
      RunNumbered(c, t0, rest);
      StepConserves(c, Run(c, t0, rest), bs[|bs| - 1]);
    }
  }

  // ----- end-of-frame flushes -----

  lemma InFrameSnoc(ss: seq<Stamped>, s: Stamped, n: nat)
    ensures InFrame(ss + [s], n) == InFrame(ss, n) + (if s.frame == n then 1 else 0)
  {}

  /** Filling a buffer of d blocks with the blocks of frame n, whatever was sent before in full packets. */
  ghost predicate PendingIsRemainder(d: nat, ss: seq<Stamped>, n: nat, pending: nat)
    requires d > 0
  {
    && pending == InFrame(ss, n) % d
    && (forall m | m > n :: InFrame(ss, m) == 0)
  }

  lemma PendingGrows(d: nat, ss: seq<Stamped>, n: nat, pending: nat, b: Block)
    requires d > 0 && PendingIsRemainder(d, ss, n, pending)
    ensures PendingIsRemainder(d, ss + [Stamped(n, b)], n, if pending + 1 > d - 1 then 0 else pending + 1)
  {
    var s := Stamped(n, b);
    InFrameSnoc(ss, s, n);
    ModStep(InFrame(ss, n), 1, d);
    assert pending < d;
    if pending + 1 == d { ModIs(pending + 1, 1, 0, d); } else { ModIs(pending + 1, 0, pending + 1, d); }
    forall m | m > n ensures InFrame(ss + [s], m) == 0 { InFrameSnoc(ss, s, m); }
  }

  lemma NextFrameIsEmpty(d: nat, ss: seq<Stamped>, n: nat, pending: nat)
    requires d > 0 && PendingIsRemainder(d, ss, n, pending)
    ensures PendingIsRemainder(d, ss, n + 1, 0)
  {}

  /** Frame n ended with nothing pending exactly when its blocks filled whole packets. */
  ghost predicate FlushesOnRemainder(d: nat, ss: seq<Stamped>, log: seq<Event>, flushes: nat)
    requires d > 0
  {
    && (forall n: nat | n < flushes :: EmptyFlush(n) in log <==> InFrame(ss, n) % d == 0)
    && (forall n: nat | n >= flushes :: EmptyFlush(n) !in log)
  }

  ghost predicate FlushLaw(c: Config, ss: seq<Stamped>, t: Tx)
    requires Valid(c)
  {
    && PendingIsRemainder(c.blocksInPkt, ss, t.flushes, |t.out|)
    && FlushesOnRemainder(c.blocksInPkt, ss, t.log, t.flushes)
  }

  lemma AddToOutbufFlushLaw(c: Config, ss: seq<Stamped>, t: Tx, b: Block)
    requires Valid(c) && FlushLaw(c, ss, t)
    ensures FlushLaw(c, ss + [Stamped(t.flushes, b)], AddToOutbuf(c, t, b))
  {
    var s := Stamped(t.flushes, b);
    PendingGrows(c.blocksInPkt, ss, t.flushes, |t.out|, b);
    forall n: nat | n < t.flushes ensures InFrame(ss + [s], n) == InFrame(ss, n) { InFrameSnoc(ss, s, n); }
  }

  lemma {:induction false} SendCopiesNoFlush(t: Tx, n: nat)
    ensures forall k: nat :: EmptyFlush(k) in SendCopies(t, n).log <==> EmptyFlush(k) in t.log
    ensures SendCopies(t, n) == t.(seqno := SendCopies(t, n).seqno, log := SendCopies(t, n).log)
  {
    if n > 0 { SendCopiesNoFlush(t, n - 1); }
  }

  lemma AddToROutbufFlushLaw(c: Config, ss: seq<Stamped>, t: Tx, b: Block)
    requires Valid(c) && FlushLaw(c, ss, t)
    ensures FlushLaw(c, ss, AddToROutbuf(c, t, b))
  {
    SendCopiesNoFlush(t.(red := t.red + [b]), c.redundancy);
  }

  lemma FlushFlushLaw(c: Config, ss: seq<Stamped>, t: Tx)
    requires Valid(c) && FlushLaw(c, ss, t)
    ensures FlushLaw(c, ss, Flush(c, t))
  {
    NextFrameIsEmpty(c.blocksInPkt, ss, t.flushes, |t.out|);
  }

  lemma StepFlushLaw(c: Config, ss: seq<Stamped>, t: Tx, b: Block)
    requires Valid(c) && FlushLaw(c, ss, t) && t.frame == CounterOf(t.flushes)
    ensures FlushLaw(c, ss + (if Admits(c, t.flushes, b) then [Stamped(t.flushes, b)] else []), Step(c, t, b))
  {
    assert ss + [] == ss;
    AddToOutbufFlushLaw(c, ss, t, b);
    var ss' := ss + (if Admits(c, t.flushes, b) then [Stamped(t.flushes, b)] else []);
    if IsAudio(b) {
      var u := if c.noAudio then t else if c.separateAudio then AddToAudioOutbuf(c, t, b) else AddToOutbuf(c, t, b);
      AddToROutbufFlushLaw(c, ss', u, b);
    } else if Sct(b) == SCT_VIDEO {
      FlushFlushLaw(c, ss', if c.noVideo || Drops(c, t.frame) then t else AddToOutbuf(c, t, b));
    }
  }

  /**
   A finished frame consumes a sequence number without sending a packet exactly when
   `blocksInPkt` divides the number of its blocks admitted to the main stream.
   */
  lemma {:induction false} NumberSkippedIffPacketsAreFull(c: Config, t0: Tx, bs: seq<Block>)
    requires Valid(c) && IsInit(t0)
    ensures FlushLaw(c, Admitted(c, bs), Run(c, t0, bs))
    ensures forall n: nat | n < Completed(c.format, bs) ::
      EmptyFlush(n) in Run(c, t0, bs).log <==> InFrame(Admitted(c, bs), n) % c.blocksInPkt == 0
  {
    RunNumbered(c, t0, bs);
    if bs == [] {
      ModIs(0, 0, 0, c.blocksInPkt);
    } else {
      var rest := bs[..|bs| - 1];
      NumberSkippedIffPacketsAreFull(c, t0, rest);
      RunNumbered(c, t0, rest);
      StepFlushLaw(c, Admitted(c, rest), Run(c, t0, rest), bs[|bs| - 1]);
    }
  }

  // ----- the separate audio stream -----

  /** How many of the first n frames leave audio blocks in the buffer at their end. */
  function Advances(d: nat, ss: seq<Stamped>, n: nat): nat
    requires d > 0
  {
    if n == 0 then 0 else Advances(d, ss, n - 1) + (if InFrame(ss, n - 1) % d != 0 then 1 else 0)
  }

  lemma {:induction false} AdvancesStable(d: nat, ss: seq<Stamped>, s: Stamped, n: nat)
    requires d > 0 && n <= s.frame
    ensures Advances(d, ss + [s], n) == Advances(d, ss, n)
  {
    if n > 0 {
      AdvancesStable(d, ss, s, n - 1);
      InFrameSnoc(ss, s, n - 1);
    }
  }

  ghost predicate AudioNumbered(c: Config, t0: Tx, ss: seq<Stamped>, alog: seq<Event>, flushes: nat)
    requires Valid(c)
  {
    forall i | 0 <= i < |alog| ::
      && alog[i].Main? && alog[i].frame <= flushes
      && 1 <= |alog[i].packet.payload| <= c.blocksInPkt
      && alog[i].packet.seqno == (t0.aseq + i) % TWO16
      && alog[i].packet.ts == TimestampOf(t0.ats, Advances(c.blocksInPkt, ss, alog[i].frame))
  }

  ghost predicate AudioLaw(c: Config, t0: Tx, ss: seq<Stamped>, t: Tx)
    requires Valid(c)
  {
    && PendingIsRemainder(c.blocksInPkt, ss, t.flushes, |t.aud|)
    && t.ats == TimestampOf(t0.ats, Advances(c.blocksInPkt, ss, t.flushes))
    && t.aseq == (t0.aseq + |t.alog|) % TWO16
    && AudioNumbered(c, t0, ss, t.alog, t.flushes)
  }

  lemma AudioNumberedStable(c: Config, t0: Tx, ss: seq<Stamped>, alog: seq<Event>, s: Stamped)
    requires Valid(c) && AudioNumbered(c, t0, ss, alog, s.frame)
    ensures AudioNumbered(c, t0, ss + [s], alog, s.frame)
    ensures Advances(c.blocksInPkt, ss + [s], s.frame) == Advances(c.blocksInPkt, ss, s.frame)
  {
    AdvancesStable(c.blocksInPkt, ss, s, s.frame);
    forall i | 0 <= i < |alog|
      ensures Advances(c.blocksInPkt, ss + [s], alog[i].frame) == Advances(c.blocksInPkt, ss, alog[i].frame)
    {
      AdvancesStable(c.blocksInPkt, ss, s, alog[i].frame);
    }
  }

  lemma AddToAudioOutbufLaw(c: Config, t0: Tx, ss: seq<Stamped>, t: Tx, b: Block)
    requires Valid(c) && AudioLaw(c, t0, ss, t)
    ensures AudioLaw(c, t0, ss + [Stamped(t.flushes, b)], AddToAudioOutbuf(c, t, b))
  {
    hide Advances, InFrame, TimestampOf;
    var s := Stamped(t.flushes, b);
    PendingGrows(c.blocksInPkt, ss, t.flushes, |t.aud|, b);
    ModStep(t0.aseq + |t.alog|, 1, TWO16);
    AudioNumberedStable(c, t0, ss, t.alog, s);
  }

  lemma FlushAudioLaw(c: Config, t0: Tx, ss: seq<Stamped>, t: Tx)
    requires Valid(c) && c.separateAudio && AudioLaw(c, t0, ss, t)
    ensures AudioLaw(c, t0, ss, Flush(c, t))
  {
    hide InFrame, TimestampOf;
    NextFrameIsEmpty(c.blocksInPkt, ss, t.flushes, |t.aud|);
    NextTimestamp(t0.ats, Advances(c.blocksInPkt, ss, t.flushes));
    ModStep(t0.aseq + |t.alog|, 1, TWO16);
  }

  /** Redundant copies leave the audio stream alone. */
  lemma AddToROutbufAudioLaw(c: Config, t0: Tx, ss: seq<Stamped>, t: Tx, b: Block)
    requires Valid(c) && AudioLaw(c, t0, ss, t)
    ensures AudioLaw(c, t0, ss, AddToROutbuf(c, t, b))
  {
    hide PendingIsRemainder, AudioNumbered, Advances, InFrame, TimestampOf;
    SendCopiesConserves(t.(red := t.red + [b]), c.redundancy);
  }

  lemma ProcessAudioLaw(c: Config, t0: Tx, ss: seq<Stamped>, t: Tx, b: Block)
    requires Valid(c) && c.separateAudio && AudioLaw(c, t0, ss, t)
    ensures AudioLaw(c, t0, ss + (if c.noAudio then [] else [Stamped(t.flushes, b)]), ProcessAudio(c, t, b))
  {
    hide AudioLaw, AddToAudioOutbuf, AddToROutbuf;
    assert ss + [] == ss;
    AddToAudioOutbufLaw(c, t0, ss, t, b);
    var u := if c.noAudio then t else AddToAudioOutbuf(c, t, b);
    AddToROutbufAudioLaw(c, t0, ss + (if c.noAudio then [] else [Stamped(t.flushes, b)]), u, b);
  }

  lemma ProcessVideoAudioLaw(c: Config, t0: Tx, ss: seq<Stamped>, t: Tx, b: Block)
    requires Valid(c) && c.separateAudio && AudioLaw(c, t0, ss, t)
    ensures AudioLaw(c, t0, ss, ProcessVideo(c, t, b))
  {
    FlushAudioLaw(c, t0, ss, if c.noVideo || Drops(c, t.frame) then t else AddToOutbuf(c, t, b));
  }

  lemma StepAudioLaw(c: Config, t0: Tx, ss: seq<Stamped>, t: Tx, b: Block)
    requires Valid(c) && c.separateAudio && AudioLaw(c, t0, ss, t)
    ensures AudioLaw(c, t0, ss + (if AdmitsAudio(c, b) then [Stamped(t.flushes, b)] else []), Step(c, t, b))
  {
    assert ss + [] == ss;
    if Sct(b) == SCT_VIDEO { ProcessVideoAudioLaw(c, t0, ss, t, b); }
    if IsAudio(b) { ProcessAudioLaw(c, t0, ss, t, b); }
  }

  /** The audio timestamp moves on once for each finished frame whose audio does not fill whole packets. */
  lemma {:induction false} AudioClock(c: Config, t0: Tx, bs: seq<Block>)
    requires Valid(c) && IsInit(t0) && c.separateAudio
    ensures AudioLaw(c, t0, AdmittedAudio(c, bs), Run(c, t0, bs))
  {
    if bs == [] {
      ModIs(0, 0, 0, c.blocksInPkt);
      ModIs(t0.aseq, 0, t0.aseq, TWO16);
    } else {
      var rest := bs[..|bs| - 1];
      AudioClock(c, t0, rest);
      RunNumbered(c, t0, rest);
      StepAudioLaw(c, t0, AdmittedAudio(c, rest), Run(c, t0, rest), bs[|bs| - 1]);
    }
  }

  lemma {:induction false} AdvancesUniform(d: nat, ss: seq<Stamped>, a: nat, n: nat)
    requires d > 0 && forall k: nat | k < n :: InFrame(ss, k) == a
    ensures Advances(d, ss, n) == if a % d == 0 then 0 else n
  {
    if n > 0 { AdvancesUniform(d, ss, a, n - 1); }
  }

  /**
   With the same number of audio blocks in every finished frame the audio clock either keeps
   its distance from the video clock for ever, or never moves: the latter exactly when
   `blocksInPkt` divides that number.
   */
  lemma AudioClockKeepsPaceOrStands(c: Config, t0: Tx, bs: seq<Block>, a: nat)
    requires Valid(c) && IsInit(t0) && c.separateAudio
    requires forall k: nat | k < Completed(c.format, bs) :: InFrame(AdmittedAudio(c, bs), k) == a
    ensures var t := Run(c, t0, bs);
      && (a % c.blocksInPkt == 0 ==> t.ats == t0.ats)
      && (a % c.blocksInPkt != 0 ==> (t.ats - t.ts) % TWO32 == (t0.ats - t0.ts) % TWO32)
  {
    var t, ss := Run(c, t0, bs), AdmittedAudio(c, bs);
    AudioClock(c, t0, bs);
    RunNumbered(c, t0, bs);
    AdvancesUniform(c.blocksInPkt, ss, a, t.flushes);
    if a % c.blocksInPkt == 0 {
      ModIs(t0.ats, 0, t0.ats, TWO32);
    } else {
      ModDifference(t0.ats + TICKS * t.flushes, t0.ts + TICKS * t.flushes, TWO32);
    }
  }

  // ----- frame dropping -----

  /** The main stream carries blocks of this sort. */
  predicate Carries(c: Config, audio: bool) { if audio then !c.noAudio && !c.separateAudio else !c.noVideo }

  /** Frame n sends its blocks of this sort: audio always, the rest unless the frame is dropped. */
  predicate Counted(audio: bool, c: Config, n: nat) { audio || !Drops(c, CounterOf(n)) }

  /** Which of the first n frames send blocks of this sort, in order. */
  function Kept(audio: bool, c: Config, n: nat): (ks: seq<nat>)
    ensures forall i | 0 <= i < |ks| :: ks[i] < n
  {
    if n == 0 then [] else Kept(audio, c, n - 1) + (if Counted(audio, c, n - 1) then [n - 1] else [])
  }

  /**
   A frame is kept whole or dropped whole, apart from its audio, which is always kept: the
   admitted blocks of frame n are all of them or none.
   */
  lemma {:induction false} FramesAreKeptWhole(audio: bool, c: Config, bs: seq<Block>, n: nat)
    requires Carries(c, audio)
    ensures Part(audio, Admitted(c, bs), n) == if Counted(audio, c, n) then Part(audio, Labelled(c, bs), n) else []
  {
    if bs != [] {
      var rest, b := bs[..|bs| - 1], bs[|bs| - 1];
      FramesAreKeptWhole(audio, c, rest, n);
      PartSnoc(audio, Admitted(c, rest), Stamped(Completed(c.format, rest), b), n);
      PartSnoc(audio, Labelled(c, rest), Stamped(Completed(c.format, rest), b), n);
    }
  }

  /** Every block of a valid section with the number of its frame. */
  function Labelled(c: Config, bs: seq<Block>): seq<Stamped> {
    if bs == [] then []
    else
      var (rest, b) := (bs[..|bs| - 1], bs[|bs| - 1]);
      Labelled(c, rest) + (if Sct(b) <= 4 then [Stamped(Completed(c.format, rest), b)] else [])
  }

  /** The audio blocks of frame n, or its other blocks. */
  function Part(audio: bool, ss: seq<Stamped>, n: nat): seq<Block> {
    if ss == [] then []
    else
      var (rest, s) := (ss[..|ss| - 1], ss[|ss| - 1]);
      Part(audio, rest, n) + (if s.frame == n && IsAudio(s.block) == audio then [s.block] else [])
  }

  lemma PartSnoc(audio: bool, ss: seq<Stamped>, s: Stamped, n: nat)
    ensures Part(audio, ss + [s], n) ==
            Part(audio, ss, n) + (if s.frame == n && IsAudio(s.block) == audio then [s.block] else [])
    ensures Part(audio, ss + [], n) == Part(audio, ss, n)
  {
    assert (ss + [s])[..|ss + [s]| - 1] == ss;
    assert ss + [] == ss;
  }

  /** Every block, of whatever section, with the number of its frame. */
  function Framed(format: Format, bs: seq<Block>): seq<Stamped> {
    if bs == [] then []
    else
      var (rest, b) := (bs[..|bs| - 1], bs[|bs| - 1]);
      Framed(format, rest) + [Stamped(Completed(format, rest), b)]
  }

  /** The blocks of one section in frame n, in order. */
  function Section(sct: nat, ss: seq<Stamped>, n: nat): seq<Block> {
    if ss == [] then []
    else
      var (rest, s) := (ss[..|ss| - 1], ss[|ss| - 1]);
      Section(sct, rest, n) + (if s.frame == n && Sct(s.block) == sct then [s.block] else [])
  }

  lemma SectionSnoc(sct: nat, ss: seq<Stamped>, s: Stamped, n: nat)
    ensures Section(sct, ss + [s], n) ==
            Section(sct, ss, n) + (if s.frame == n && Sct(s.block) == sct then [s.block] else [])
  {}

  /** The flags and the drop rule for one section: all of its blocks in a frame go to the main stream, or none. */
  predicate SendsSection(c: Config, sct: nat, n: nat) {
    match sct
    case 0 => !Drops(c, CounterOf(n))
    case 1 => !Drops(c, CounterOf(n))
    case 2 => !Drops(c, CounterOf(n))
    case 3 => !c.noAudio && !c.separateAudio
    case 4 => !c.noVideo && !Drops(c, CounterOf(n))
    case _ => false
  }

  lemma AdmitsBySection(c: Config, n: nat, b: Block)
    ensures Admits(c, n, b) <==> SendsSection(c, Sct(b), n)
  {}

  /**
   For every configuration, section and frame: the main stream has all the blocks of the section or none of
   them, as the flags and the drop rule say.
   */
  lemma {:induction false} SectionsAreSentWhole(c: Config, bs: seq<Block>, sct: nat, n: nat)
    ensures Section(sct, Admitted(c, bs), n) ==
            if SendsSection(c, sct, n) then Section(sct, Framed(c.format, bs), n) else []
  {
    hide Section, Completed, SendsSection, Admits;
    if bs == [] {
      NoSection(sct, n);
    } else {
      var rest, b := bs[..|bs| - 1], bs[|bs| - 1];
      var s := Stamped(Completed(c.format, rest), b);
      SectionsAreSentWhole(c, rest, sct, n);
      SectionSnoc(sct, Framed(c.format, rest), s, n);
      SectionSnoc(sct, Admitted(c, rest), s, n);
      AdmitsBySection(c, s.frame, b);
      assert Admitted(c, rest) + [] == Admitted(c, rest);
      var all := Section(sct, Framed(c.format, rest), n);
      assert all + [] == all;
    }
  }

  lemma NoSection(sct: nat, n: nat)
    ensures Section(sct, [], n) == []
  {}

  /** The separate stream has all the audio or none, and nothing else. */
  lemma {:induction false} AudioIsSentWhole(c: Config, bs: seq<Block>, sct: nat, n: nat)
    ensures Section(sct, AdmittedAudio(c, bs), n) ==
            if sct == SCT_AUDIO && c.separateAudio && !c.noAudio then Section(sct, Framed(c.format, bs), n) else []
  {
    hide Section, Completed;
    if bs == [] {
      NoSection(sct, n);
    } else {
      var rest, b := bs[..|bs| - 1], bs[|bs| - 1];
      var s := Stamped(Completed(c.format, rest), b);
      AudioIsSentWhole(c, rest, sct, n);
      SectionSnoc(sct, Framed(c.format, rest), s, n);
      SectionSnoc(sct, AdmittedAudio(c, rest), s, n);
      assert AdmittedAudio(c, rest) + [] == AdmittedAudio(c, rest);
      var all := Section(sct, Framed(c.format, rest), n);
      assert all + [] == all;
    }
  }

  /** Without a drop rate above 1 every frame is kept. */
  lemma {:induction false} NoRateKeepsAll(audio: bool, c: Config, n: nat)
    requires audio || c.frameDrop <= 1
    ensures |Kept(audio, c, n)| == n && forall i | 0 <= i < n :: Kept(audio, c, n)[i] == i
  {
    if n > 0 { NoRateKeepsAll(audio, c, n - 1); }
  }

  /** n div k, with one more for every time a 32-bit counter wraps to 0, a multiple of every k. */
  function OneIn(k: nat, n: nat): int
    requires k >= 1
  {
    (n / TWO32) * ((TWO32 - 1) / k + 1) + (n % TWO32) / k
  }

  lemma OneInNext(k: nat, n: nat)
    requires k >= 1
    ensures OneIn(k, n + 1) == OneIn(k, n) + (if CounterOf(n) % k == 0 then 1 else 0)
  {
    var q, r := n / TWO32, n % TWO32;
    if r == TWO32 - 1 {
      QuotientIs(n + 1, q + 1, 0, TWO32);
      NextMultiple(k, 0);
      AddOne(q, (TWO32 - 1) / k + 1);
    } else {
      QuotientIs(n + 1, q, r + 1, TWO32);
      NextMultiple(k, r);
    }
  }

  lemma AddOne(q: nat, x: nat)
    ensures (q + 1) * x == q * x + x
  {}

  lemma OneInSmall(k: nat, n: nat)
    requires k >= 1 && n < TWO32
    ensures OneIn(k, n) == n / k
  {}

  /** One frame in k is kept: of the first n frames exactly n / k, as long as the frame counter does not wrap. */
  lemma {:induction false} KeptFramesExactly(c: Config, n: nat)
    requires c.frameDrop >= 1
    ensures |Kept(false, c, n)| == OneIn(c.frameDrop, n)
    ensures n < TWO32 ==> |Kept(false, c, n)| == n / c.frameDrop
  {
    hide OneIn, CounterOf;
    if n == 0 {
      OneInSmall(c.frameDrop, 0);
      NextMultiple(c.frameDrop, 0);
    } else {
      KeptFramesExactly(c, n - 1);
      OneInNext(c.frameDrop, n - 1);
      KeptNext(c, n - 1);
    }
    if n < TWO32 { OneInSmall(c.frameDrop, n); }
  }

  lemma KeptNext(c: Config, n: nat)
    requires c.frameDrop >= 1
    ensures |Kept(false, c, n + 1)| == |Kept(false, c, n)| + (if CounterOf(n) % c.frameDrop == 0 then 1 else 0)
  {}

  lemma NextMultiple(k: nat, r: nat)
    requires k >= 1
    ensures (r + 1) / k == r / k + (if (r + 1) % k == 0 then 1 else 0)
    ensures 0 % k == 0 && 0 / k == 0
  {
    ModIs(0, 0, 0, k);
    var q, m := r / k, r % k;
    assert r == k * q + m;
    if m == k - 1 {
      assert r + 1 == k * (q + 1);
      QuotientIs(r + 1, q + 1, 0, k);
    } else {
      QuotientIs(r + 1, q, m + 1, k);
    }
  }
}
