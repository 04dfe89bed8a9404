/** What every interleaving of arriving blocks and transmissions keeps. */
module PlayoutLaws {
  import opened Dif
  import opened Modular
  import H = Handoff
  import R = Reassembly
  import opened Playout

  type Frame = R.Frame

  function Video(maxdif: nat): R.Kind { R.VideoRing(maxdif) }

  // ----- one transmitted frame -----

  /** The finished frame with this number, or the initial contents of the first buffer. */
  function Source(st: R.Store, init: seq<Frame>, number: int): Frame
    requires |init| >= 1 && -1 <= number < |st.done|
  {
    if number == -1 then init[0] else st.done[number]
  }

  ghost predicate VideoIntact(vinit: seq<Frame>, v: R.Store, o: Output)
    requires |vinit| >= 1
  {
    && |o.frame| == SLOTS && -1 <= o.video < |v.done|
    && |Source(v, vinit, o.video)| == SLOTS
    && (forall s: nat | s < SLOTS && !AudioSlot(s) :: o.frame[s] == Source(v, vinit, o.video)[s])
  }

  ghost predicate AudioIntact(maxdif: nat, ainit: seq<Frame>, a: R.Store, o: Output)
    requires |ainit| >= 1
  {
    && |o.frame| == SLOTS && -1 <= o.audio < |a.done|
    && |Source(a, ainit, o.audio)| == AUDIO_SLOTS
    && (forall s: nat | s < SLOTS && AudioSlot(s) && s / 150 < maxdif ::
          AudioAt(s) < AUDIO_SLOTS && s / 150 < 16 && SectionAt(s).1 < 256
          && o.frame[s] ==
             if o.silent then SilentBlock(s / 150, SectionAt(s).1) else Source(a, ainit, o.audio)[AudioAt(s)])
  }

  ghost predicate Intact(maxdif: nat, vinit: seq<Frame>, ainit: seq<Frame>, s: State, o: Output)
    requires |vinit| >= 1 && |ainit| >= 1
  {
    !o.torn && VideoIntact(vinit, s.v, o) && AudioIntact(maxdif, ainit, s.a, o)
  }

  ghost predicate InOrder(s: State) {
    && H.Bounds(s.v.ring) && H.Bounds(s.a.ring)
    && (forall i | 0 <= i < |s.out| :: s.out[i].video <= Number(s.v.ring) && s.out[i].audio <= Number(s.a.ring))
    && (forall i, j | 0 <= i < j < |s.out| :: s.out[i].video <= s.out[j].video && s.out[i].audio <= s.out[j].audio)
  }

  /** One of the two rings: its data, its locks, and nothing placed before the first switch. */
  ghost predicate RingOk(kind: R.Kind, init: seq<Frame>, st: R.Store) {
    && R.Inv(kind, init, st) && H.Inv(st.ring)
    && (st.ring.switches == 0 ==> st.open == [] && st.tsPrev == 0)
  }

  ghost predicate SystemOk(maxdif: nat, vinit: seq<Frame>, ainit: seq<Frame>, s: State) {
    && RingOk(Video(maxdif), vinit, s.v) && RingOk(R.AudioRing, ainit, s.a)
    && InOrder(s)
    && (forall i | 0 <= i < |s.out| :: Intact(maxdif, vinit, ainit, s, s.out[i]))
  }

  // ----- the writer's step -----

  lemma WriterKeepsStore(kind: R.Kind, init: seq<Frame>, st: R.Store, st': R.Store)
    requires R.Inv(kind, init, st) && H.Shape(st'.ring)
    requires st' == st.(ring := st'.ring, frame := st'.frame)
    requires st'.ring == st.ring.(lock := st'.ring.lock, w := st'.ring.w) && |st'.ring.lock| == |st.ring.lock|
    requires |st'.frame| == |st.frame| && forall i | 0 <= i < |st.frame| :: |st'.frame[i]| == R.Size(kind)
    requires forall i, p: nat | 0 <= i < |st.frame| && p < R.Size(kind) && R.Owned(kind, p) ::
      st'.frame[i][p] == st.frame[i][p]
    ensures R.Inv(kind, init, st')
  {
    assert forall i | 0 <= i < |init| :: R.Base(st', init, i) == R.Base(st, init, i);
  }

  /** The buffer the writer stands on after its step holds the finished frame of that number. */
  lemma WriterReadsFinished(kind: R.Kind, init: seq<Frame>, st: R.Store)
    requires RingOk(kind, init, st)
    ensures var g := H.WriterStep(st.ring);
      && -1 <= Number(g) < |st.done|
      && Number(g) >= Number(st.ring)
      && (g.w == st.ring.cur ==> st.open == [])
      && (forall p: nat | p < R.Size(kind) && R.Owned(kind, p) :: st.frame[g.w][p] == Source(st, init, Number(g))[p])
  {
    H.WriterKeepsInv(st.ring);
    H.ShapeKept(st.ring, false);
    var g, n := H.WriterStep(st.ring), |init|;
    if st.ring.switches == 0 {
      ModIs(0, 0, 0, n);
      H.HeldIsLatest(0, 0, n);
      assert st.frame[0] == st.frame[st.ring.cur] && R.Base(st, init, 0) == init[0];
    }
  }

  lemma RingAfterWriter(kind: R.Kind, init: seq<Frame>, st: R.Store, st': R.Store)
    requires RingOk(kind, init, st)
    requires st' == st.(ring := H.WriterStep(st.ring), frame := st'.frame)
    requires |st'.frame| == |st.frame| && forall i | 0 <= i < |st.frame| :: |st'.frame[i]| == R.Size(kind)
    requires forall i, p: nat | 0 <= i < |st.frame| && p < R.Size(kind) && R.Owned(kind, p) ::
      st'.frame[i][p] == st.frame[i][p]
    ensures RingOk(kind, init, st')
  {
    H.WriterKeepsInv(st.ring);
    H.ShapeKept(st.ring, false);
    WriterKeepsStore(kind, init, st, st');
  }

  lemma TransmittedFrame(maxdif: nat, vinit: seq<Frame>, ainit: seq<Frame>, s: State)
    requires SystemOk(maxdif, vinit, ainit, s) && maxdif <= DIFSEQ_NUM_PAL
    ensures var s' := FillBuffer(maxdif, s);
      Intact(maxdif, vinit, ainit, s', s'.out[|s.out|])
  {
    var s' := FillBuffer(maxdif, s);
    var o := s'.out[|s.out|];
    WriterReadsFinished(Video(maxdif), vinit, s.v);
    WriterReadsFinished(R.AudioRing, ainit, s.a);
    forall t: nat | t < SLOTS && AudioSlot(t) && t / 150 < maxdif
      ensures AudioAt(t) < AUDIO_SLOTS && t / 150 < 16 && SectionAt(t).1 < 256
      ensures o.frame[t] ==
              if o.silent then SilentBlock(t / 150, SectionAt(t).1) else Source(s'.a, ainit, o.audio)[AudioAt(t)]
    {
      AudioAtInRange(t);
      EverySlotHasItsBlock(t);
    }
  }

  lemma IntactStable(maxdif: nat, vinit: seq<Frame>, ainit: seq<Frame>, s: State, s': State, o: Output)
    requires |vinit| >= 1 && |ainit| >= 1 && Intact(maxdif, vinit, ainit, s, o)
    requires s.v.done <= s'.v.done && s.a.done <= s'.a.done
    ensures Intact(maxdif, vinit, ainit, s', o)
  {}

  lemma FillBufferInOrder(maxdif: nat, vinit: seq<Frame>, ainit: seq<Frame>, s: State)
    requires SystemOk(maxdif, vinit, ainit, s) && maxdif <= DIFSEQ_NUM_PAL
    ensures InOrder(FillBuffer(maxdif, s))
  {
    hide Merge, Intact, R.Inv;
    WriterReadsFinished(Video(maxdif), vinit, s.v);
    WriterReadsFinished(R.AudioRing, ainit, s.a);
  }

  lemma FillBufferKeeps(maxdif: nat, vinit: seq<Frame>, ainit: seq<Frame>, s: State)
    requires SystemOk(maxdif, vinit, ainit, s) && maxdif <= DIFSEQ_NUM_PAL
    ensures SystemOk(maxdif, vinit, ainit, FillBuffer(maxdif, s))
  {
    hide InOrder, Intact;
    var s' := FillBuffer(maxdif, s);
    TransmittedFrame(maxdif, vinit, ainit, s);
    FillBufferInOrder(maxdif, vinit, ainit, s);
    RingAfterWriter(Video(maxdif), vinit, s.v, s'.v);
    RingAfterWriter(R.AudioRing, ainit, s.a, s'.a);
    forall i | 0 <= i < |s'.out| ensures Intact(maxdif, vinit, ainit, s', s'.out[i]) {
      if i < |s.out| { IntactStable(maxdif, vinit, ainit, s, s', s.out[i]); }
    }
  }

  // ----- the reader's step -----

  lemma ReceiveKeepsRing(kind: R.Kind, init: seq<Frame>, st: R.Store, ts: nat, b: Block)
    requires RingOk(kind, init, st) && R.Accepts(kind, b) && (st.ring.switches == 0 ==> ts != 0)
    ensures RingOk(kind, init, R.Receive(kind, st, ts, b))
    ensures Number(R.Receive(kind, st, ts, b).ring) >= Number(st.ring)
    ensures st.done <= R.Receive(kind, st, ts, b).done
  {
    var switch := ts != st.tsPrev;
    R.ReceiveInv(kind, init, st, ts, b);
    H.ReaderKeepsInv(st.ring, switch);
    assert R.Receive(kind, st, ts, b).ring == H.ReaderStep(st.ring, switch);
  }

  lemma ReadBlockKeeps(maxdif: nat, vinit: seq<Frame>, ainit: seq<Frame>, s: State, ts: nat, b: Block)
    requires SystemOk(maxdif, vinit, ainit, s) && Placeable(b)
    requires R.Accepts(Video(maxdif), b) && s.v.ring.switches == 0 ==> ts != 0
    requires R.Accepts(R.AudioRing, b) && s.a.ring.switches == 0 ==> ts != 0
    ensures SystemOk(maxdif, vinit, ainit, ReadBlock(maxdif, s, ts, b))
  {
    var s' := ReadBlock(maxdif, s, ts, b);
    if R.Accepts(Video(maxdif), b) { ReceiveKeepsRing(Video(maxdif), vinit, s.v, ts, b); }
    if R.Accepts(R.AudioRing, b) { ReceiveKeepsRing(R.AudioRing, ainit, s.a, ts, b); }
    forall i | 0 <= i < |s'.out| ensures Intact(maxdif, vinit, ainit, s', s'.out[i]) {
      IntactStable(maxdif, vinit, ainit, s, s', s'.out[i]);
    }
  }

  // ----- whole runs -----

  lemma FirstNotZeroPrefix(kind: R.Kind, acts: seq<Action>, n: nat)
    requires n <= |acts| && FirstNotZero(kind, acts)
    ensures FirstNotZero(kind, acts[..n])
  {}

  /** Before its first switch a ring has been sent nothing. */
  ghost predicate Silent(kind: R.Kind, st: R.Store, acts: seq<Action>) {
    st.ring.switches == 0 ==> forall j | 0 <= j < |acts| :: !For(kind, acts[j])
  }

  lemma SilentStep(kind: R.Kind, acts: seq<Action>, st: R.Store, st': R.Store)
    requires |acts| > 0 && Silent(kind, st, acts[..|acts| - 1]) && FirstNotZero(kind, acts)
    requires st.ring.switches == 0 ==> st.tsPrev == 0
    requires var act := acts[|acts| - 1];
      if For(kind, act) then st'.ring.switches == st.ring.switches + (if act.ts != st.tsPrev then 1 else 0)
      else st'.ring.switches == st.ring.switches
    ensures Silent(kind, st', acts)
    ensures For(kind, acts[|acts| - 1]) && st.ring.switches == 0 ==> acts[|acts| - 1].ts != 0
  {}

  lemma StartOk(maxdif: nat, vinit: seq<Frame>, ainit: seq<Frame>)
    requires Buffers(vinit, ainit) && |vinit| >= 2 && |ainit| >= 2
    ensures SystemOk(maxdif, vinit, ainit, Playout.Start(vinit, ainit))
  {}

  lemma StepKeeps(maxdif: nat, vinit: seq<Frame>, ainit: seq<Frame>, s: State, acts: seq<Action>)
    requires SystemOk(maxdif, vinit, ainit, s) && maxdif <= DIFSEQ_NUM_PAL && |acts| > 0 && AllPossible(acts)
    requires FirstNotZero(Video(maxdif), acts) && FirstNotZero(R.AudioRing, acts)
    requires Silent(Video(maxdif), s.v, acts[..|acts| - 1]) && Silent(R.AudioRing, s.a, acts[..|acts| - 1])
    ensures var s' := Step(maxdif, s, acts[|acts| - 1]);
      SystemOk(maxdif, vinit, ainit, s') && Silent(Video(maxdif), s'.v, acts) && Silent(R.AudioRing, s'.a, acts)
  {
    var act := acts[|acts| - 1];
    var s' := Step(maxdif, s, act);
    SilentStep(Video(maxdif), acts, s.v, s'.v);
    SilentStep(R.AudioRing, acts, s.a, s'.a);
    match act
    case Arrive(ts, b) => ReadBlockKeeps(maxdif, vinit, ainit, s, ts, b);
    case Transmit => FillBufferKeeps(maxdif, vinit, ainit, s);
  }

  /**
   For every interleaving of arriving blocks with transmissions, with at least two buffers in
   each ring: every transmitted frame is a finished frame, equal to it at every header, subcode,
   VAUX and video slot and carrying in its audio slots a finished audio frame or silence; the
   reader was not filling either buffer; and the frame numbers never go back, even when the reader
   has overtaken the writer.
   */
  lemma {:induction false} TransmitsOnlyFinishedFrames(maxdif: nat, vinit: seq<Frame>, ainit: seq<Frame>,
                                                         acts: seq<Action>)
    requires Buffers(vinit, ainit) && |vinit| >= 2 && |ainit| >= 2 && maxdif <= DIFSEQ_NUM_PAL && AllPossible(acts)
    requires FirstNotZero(Video(maxdif), acts) && FirstNotZero(R.AudioRing, acts)
    ensures var s := After(maxdif, vinit, ainit, acts);
      SystemOk(maxdif, vinit, ainit, s) && Silent(Video(maxdif), s.v, acts) && Silent(R.AudioRing, s.a, acts)
  {
    if acts == [] {
      StartOk(maxdif, vinit, ainit);
    } else {
      var n := |acts| - 1;
      FirstNotZeroPrefix(Video(maxdif), acts, n);
      FirstNotZeroPrefix(R.AudioRing, acts, n);
      TransmitsOnlyFinishedFrames(maxdif, vinit, ainit, acts[..n]);
      StepKeeps(maxdif, vinit, ainit, After(maxdif, vinit, ainit, acts[..n]), acts);
    }
  }

  // ----- what a ring receives depends on the arrivals only, not on when the writer runs -----

  function GroupsOf(st: R.Store): Groups { Groups(st.past, st.open, st.tsPrev) }

  function Extend(kind: R.Kind, g: Groups, act: Action): Groups {
    if !For(kind, act) then g
    else if act.ts != g.ts then Groups(g.past + [g.open], [act.block], act.ts)
    else g.(open := g.open + [act.block])
  }

  lemma StepGroups(maxdif: nat, s: State, act: Action)
    requires Playout.Bounds(s) && maxdif <= DIFSEQ_NUM_PAL && Possible(act)
    ensures GroupsOf(Step(maxdif, s, act).v) == Extend(Video(maxdif), GroupsOf(s.v), act)
    ensures GroupsOf(Step(maxdif, s, act).a) == Extend(R.AudioRing, GroupsOf(s.a), act)
  {}

  lemma GroupSnoc(kind: R.Kind, acts: seq<Action>)
    requires |acts| > 0
    ensures Group(kind, acts) == Extend(kind, Group(kind, acts[..|acts| - 1]), acts[|acts| - 1])
  {
    var feed := Delivered(kind, acts[..|acts| - 1]);
    if For(kind, acts[|acts| - 1]) {
      var x := Timed(acts[|acts| - 1].ts, acts[|acts| - 1].block);
      assert (feed + [x])[..|feed + [x]| - 1] == feed;
    } else {
      assert feed + [] == feed;
    }
  }

  lemma {:induction false} RunGroups(maxdif: nat, vinit: seq<Frame>, ainit: seq<Frame>, acts: seq<Action>)
    requires Buffers(vinit, ainit) && maxdif <= DIFSEQ_NUM_PAL && AllPossible(acts)
    ensures var s := After(maxdif, vinit, ainit, acts);
      GroupsOf(s.v) == Group(Video(maxdif), acts) && GroupsOf(s.a) == Group(R.AudioRing, acts)
  {
    hide Playout.Step;
    if acts != [] {
      var n := |acts| - 1;
      RunGroups(maxdif, vinit, ainit, acts[..n]);
      GroupSnoc(Video(maxdif), acts);
      GroupSnoc(R.AudioRing, acts);
      StepGroups(maxdif, After(maxdif, vinit, ainit, acts[..n]), acts[n]);
    }
  }
}
