/**
 Reassembly of frames from arriving DIF blocks (dvrecv/read.c): the same scheme serves the
 ring of video frames and the ring of audio frames. A change of timestamp finishes the
 reader's frame; a video frame is then repaired from the previous buffer of the ring.

 Three fields of a store are history: `past` and `open` list the blocks that arrived in each
 finished frame and in the current one, and `done` the contents each frame was finished with.
 */
module Reassembly {
  import opened Dif
  import opened Modular
  import opened Handoff

  datatype Kind = VideoRing(maxdif: nat) | AudioRing

  type Frame = seq<Block>

  datatype Store = Store(ring: Ring, frame: seq<Frame>, got: seq<seq<bool>>, tsPrev: nat,
                         past: seq<seq<Block>>, open: seq<Block>, done: seq<Frame>)

  function Size(kind: Kind): nat { if kind.VideoRing? then SLOTS else AUDIO_SLOTS }

  function Place(kind: Kind, b: Block): nat { if kind.VideoRing? then Slot(b) else AudioIndex(b) }

  /** The place in a whole frame that position p of a ring buffer stands for. */
  function SlotOf(kind: Kind, p: nat): nat {
    if kind.VideoRing? then p else 150 * (p / 9) + Offset(SCT_AUDIO, p % 9)
  }

  /** The positions only the reader writes; the writer merges audio into the others. */
  predicate Owned(kind: Kind, p: nat) { kind.VideoRing? ==> !AudioSlot(p) }

  predicate Accepts(kind: Kind, b: Block) {
    Placeable(b) && Sct(b) <= 4 && (IsAudio(b) <==> kind.AudioRing?)
  }

  /** The position is repaired when its frame ends without its video block. */
  predicate Concealed(maxdif: nat, got: seq<bool>, s: nat) {
    && VideoSlot(s) && s / 150 < maxdif
    && var f := FlagIndex(s / 150, SectionAt(s).1); f < |got| && !got[f]
  }

  function Conceal(maxdif: nat, cur: Frame, prev: Frame, got: seq<bool>): (f: Frame)
    requires |cur| == |prev|
    ensures |f| == |cur|
  {
    seq(|cur|, s requires 0 <= s < |cur| => if Concealed(maxdif, got, s) then prev[s] else cur[s])
  }

  predicate Shaped(kind: Kind, st: Store) {
    && Bounds(st.ring)
    && |st.frame| == |st.ring.lock| == |st.got|
    && (forall i | 0 <= i < |st.frame| :: |st.frame[i]| == Size(kind) && |st.got[i]| == FLAGS)
  }

  function Start(init: seq<Frame>): Store
    requires |init| >= 1
  {
    Store(Initial(|init|), init, seq(|init|, _ => seq(FLAGS, _ => false)), 0, [], [], [])
  }

  /** The contents the reader leaves in its buffer when it moves on. */
  function Finished(kind: Kind, st: Store): Frame
    requires Shaped(kind, st)
  {
    var (cur, n) := (st.ring.cur, |st.frame|);
    if kind.VideoRing? then Conceal(kind.maxdif, st.frame[cur], st.frame[Prev(cur, n)], st.got[cur])
    else st.frame[cur]
  }

  function Finish(kind: Kind, st: Store, ts: nat): (st': Store)
    requires Shaped(kind, st)
    ensures Shaped(kind, st')
  {
    var (cur, next) := (st.ring.cur, Next(st.ring.cur, |st.frame|));
    var f := Finished(kind, st);
    Store(SwitchFrame(st.ring), st.frame[cur := f], st.got[next := seq(FLAGS, _ => false)], ts,
          st.past + [st.open], [], st.done + [f])
  }

  lemma AcceptedPlace(kind: Kind, b: Block)
    requires Accepts(kind, b)
    ensures Place(kind, b) < Size(kind) && Owned(kind, Place(kind, b))
    ensures Sct(b) == SCT_VIDEO ==> FlagIndex(Dseq(b), Dbn(b)) < FLAGS
    ensures forall p: nat | p < Size(kind) :: Place(kind, b) == p <==> Slot(b) == SlotOf(kind, p)
  {
    SlotIdentifiesBlock(b);
  }

  function Put(kind: Kind, st: Store, b: Block): (st': Store)
    requires Shaped(kind, st) && Accepts(kind, b)
    ensures Shaped(kind, st')
  {
    AcceptedPlace(kind, b);
    var cur := st.ring.cur;
    st.(ring := MarkWriting(st.ring),
        frame := st.frame[cur := st.frame[cur][Place(kind, b) := b]],
        got := if Sct(b) == SCT_VIDEO then st.got[cur := st.got[cur][FlagIndex(Dseq(b), Dbn(b)) := true]] else st.got,
        open := st.open + [b])
  }

  /** One arriving block of this ring. */
  function Receive(kind: Kind, st: Store, ts: nat, b: Block): (st': Store)
    requires Shaped(kind, st) && Accepts(kind, b)
    ensures Shaped(kind, st')
  {
    Put(kind, if ts != st.tsPrev then Finish(kind, st, ts) else st, b)
  }

  // ----- what the buffers hold -----

  /** The last finished contents of buffer i, or what it held at the start. */
  function Base(st: Store, init: seq<Frame>, i: nat): Frame
    requires i < |st.frame| == |init|
  {
    var h := Held(i, st.ring.switches, |st.frame|);
    if 0 <= h < |st.done| then st.done[h] else init[i]
  }

  /** The frame that shows through at position p of frame k when no block arrived for it. */
  function Behind(kind: Kind, init: seq<Frame>, done: seq<Frame>, k: nat, p: nat): Frame
    requires |init| >= 1 && k <= |done|
  {
    if kind.VideoRing? && VideoSlot(p) && p / 150 < kind.maxdif then
      if k >= 1 then done[k - 1] else init[|init| - 1]
    else
      if k >= |init| then done[k - |init|] else init[k]
  }

  ghost predicate History(kind: Kind, init: seq<Frame>, st: Store) {
    && Shaped(kind, st) && Shape(st.ring)
    && |init| == |st.frame|
    && |st.past| == |st.done| == st.ring.switches
    && (forall i | 0 <= i < |init| :: |init[i]| == Size(kind))
    && (forall k | 0 <= k < |st.done| :: |st.done[k]| == Size(kind))
    && (forall i | 0 <= i < |st.open| :: Accepts(kind, st.open[i]))
  }

  /** A buffer the reader is not filling holds its last finished frame. */
  ghost predicate Settled(kind: Kind, init: seq<Frame>, st: Store)
    requires History(kind, init, st)
  {
    forall i, p: nat | 0 <= i < |init| && i != st.ring.cur && p < Size(kind) && Owned(kind, p) ::
      st.frame[i][p] == Base(st, init, i)[p]
  }

  /** The reader's buffer holds the blocks received so far over what it held before. */
  ghost predicate Filling(kind: Kind, init: seq<Frame>, st: Store)
    requires History(kind, init, st)
  {
    forall p: nat | p < Size(kind) && Owned(kind, p) ::
      st.frame[st.ring.cur][p] == LastFor(st.open, SlotOf(kind, p), Base(st, init, st.ring.cur)[p])
  }

  ghost predicate Flagged(kind: Kind, st: Store)
    requires Shaped(kind, st)
  {
    kind.VideoRing? ==>
      forall s: nat | s < SLOTS && VideoSlot(s) ::
        FlagIndex(s / 150, SectionAt(s).1) < FLAGS
        && (st.got[st.ring.cur][FlagIndex(s / 150, SectionAt(s).1)] <==> Covers(st.open, s))
  }

  /**
   Every finished frame holds, at each position, the last block of its own that arrived there, or what shows
   through.
   */
  ghost predicate FinishedWell(kind: Kind, init: seq<Frame>, st: Store)
    requires History(kind, init, st)
  {
    forall k, p: nat | 0 <= k < |st.done| && p < Size(kind) && Owned(kind, p) ::
      st.done[k][p] == LastFor(st.past[k], SlotOf(kind, p), Behind(kind, init, st.done, k, p)[p])
  }

  ghost predicate Inv(kind: Kind, init: seq<Frame>, st: Store) {
    && History(kind, init, st)
    && Settled(kind, init, st) && Filling(kind, init, st) && Flagged(kind, st)
    && FinishedWell(kind, init, st)
  }

  lemma StartInv(kind: Kind, init: seq<Frame>)
    requires |init| >= 1 && forall i | 0 <= i < |init| :: |init[i]| == Size(kind)
    ensures Inv(kind, init, Start(init))
  {}

  lemma FlagOfSlot(s: nat)
    requires s < SLOTS && VideoSlot(s)
    ensures SectionAt(s).0 == SCT_VIDEO && SectionAt(s).1 < 135 && FlagIndex(s / 150, SectionAt(s).1) < FLAGS
  {}

  // ----- placing a block keeps it -----

  lemma CoversSnoc(bs: seq<Block>, b: Block, s: nat)
    ensures Covers(bs + [b], s) <==> Covers(bs, s) || Slot(b) == s
  {
    if Covers(bs, s) {
      var i :| 0 <= i < |bs| && Slot(bs[i]) == s;
      assert (bs + [b])[i] == bs[i];
    }
    if Slot(b) == s { assert (bs + [b])[|bs|] == b; }
  }

  lemma LastForSnoc(bs: seq<Block>, b: Block, s: nat, d: Block)
    ensures LastFor(bs + [b], s, d) == if Slot(b) == s then b else LastFor(bs, s, d)
  {}

  lemma PutFills(kind: Kind, init: seq<Frame>, st: Store, b: Block)
    requires Accepts(kind, b) && Inv(kind, init, st)
    ensures History(kind, init, Put(kind, st, b)) && Filling(kind, init, Put(kind, st, b))
  {
    AcceptedPlace(kind, b);
    var st' := Put(kind, st, b);
    assert Base(st', init, st.ring.cur) == Base(st, init, st.ring.cur);
    forall p: nat | p < Size(kind) && Owned(kind, p)
      ensures st'.frame[st.ring.cur][p] == LastFor(st'.open, SlotOf(kind, p), Base(st, init, st.ring.cur)[p])
    {
      LastForSnoc(st.open, b, SlotOf(kind, p), Base(st, init, st.ring.cur)[p]);
    }
  }

  lemma FlagIndexInjective(d: nat, m: nat, d': nat, m': nat)
    requires m < 135 && m' < 135 && FlagIndex(d, m) == FlagIndex(d', m')
    ensures d == d' && m == m'
  {}

  lemma FlagIdentifiesSlot(b: Block, s: nat)
    requires Placeable(b) && Sct(b) == SCT_VIDEO && s < SLOTS && VideoSlot(s)
    ensures FlagIndex(s / 150, SectionAt(s).1) == FlagIndex(Dseq(b), Dbn(b)) <==> Slot(b) == s
  {
    FlagOfSlot(s);
    var d, m := s / 150, SectionAt(s).1;
    if FlagIndex(d, m) == FlagIndex(Dseq(b), Dbn(b)) {
      FlagIndexInjective(d, m, Dseq(b), Dbn(b));
      assert Slot(b) == s by { EverySlotHasItsBlock(s); }
    }
    if Slot(b) == s {
      assert d == Dseq(b) && m == Dbn(b) by { SlotIdentifiesBlock(b); }
    }
  }

  lemma PutFlags(kind: Kind, st: Store, b: Block)
    requires Shaped(kind, st) && Accepts(kind, b) && Flagged(kind, st)
    ensures Flagged(kind, Put(kind, st, b))
  {
    AcceptedPlace(kind, b);
    SlotIdentifiesBlock(b);
    if kind.VideoRing? {
      forall s: nat | s < SLOTS && VideoSlot(s)
        ensures FlagIndex(s / 150, SectionAt(s).1) < FLAGS
        ensures Put(kind, st, b).got[st.ring.cur][FlagIndex(s / 150, SectionAt(s).1)] <==> Covers(st.open + [b], s)
      {
        FlagOfSlot(s);
        CoversSnoc(st.open, b, s);
        if Sct(b) == SCT_VIDEO { FlagIdentifiesSlot(b, s); }
      }
    }
  }

  lemma PutInv(kind: Kind, init: seq<Frame>, st: Store, b: Block)
    requires Accepts(kind, b) && Inv(kind, init, st)
    ensures Inv(kind, init, Put(kind, st, b))
  {
    PutFills(kind, init, st, b);
    PutFlags(kind, st, b);
    var st' := Put(kind, st, b);
    forall i | 0 <= i < |init| ensures Base(st', init, i) == Base(st, init, i) {}
  }

  // ----- finishing a frame keeps it -----

  lemma BaseAfterFinish(kind: Kind, init: seq<Frame>, st: Store, ts: nat, i: nat)
    requires History(kind, init, st) && i < |init|
    ensures var st' := Finish(kind, st, ts);
      Base(st', init, i) == if i == st.ring.cur then Finished(kind, st) else Base(st, init, i)
  {
    var n, r := |init|, st.ring.switches;
    HeldIsLatest(i, r, n);
    HeldIsLatest(i, r + 1, n);
    if i == st.ring.cur {
      HeldIs(i, r + 1, n, r);
    } else {
      if Held(i, r, n) == r - n { SameRemainder(r - n, n); }
      HeldIs(i, r + 1, n, Held(i, r, n));
    }
  }

  lemma FinishSettles(kind: Kind, init: seq<Frame>, st: Store, ts: nat)
    requires Inv(kind, init, st)
    ensures History(kind, init, Finish(kind, st, ts)) && Settled(kind, init, Finish(kind, st, ts))
    ensures Filling(kind, init, Finish(kind, st, ts)) && Flagged(kind, Finish(kind, st, ts))
  {
    var st' := Finish(kind, st, ts);
    ShapeKept(st.ring, true);
    assert Shape(st'.ring);
    forall i | 0 <= i < |init|
      ensures Base(st', init, i) == if i == st.ring.cur then Finished(kind, st) else Base(st, init, i)
    {
      BaseAfterFinish(kind, init, st, ts, i);
    }
    forall s: nat | s < SLOTS && VideoSlot(s) ensures FlagIndex(s / 150, SectionAt(s).1) < FLAGS { FlagOfSlot(s); }
  }

  /** What the previous buffer of the ring shows, for a frame about to be repaired from it. */
  lemma PreviousBuffer(kind: Kind, init: seq<Frame>, st: Store, p: nat)
    requires Inv(kind, init, st) && p < Size(kind) && Owned(kind, p)
    requires !Covers(st.open, SlotOf(kind, p))
    ensures st.frame[Prev(st.ring.cur, |init|)][p] ==
            (if |st.done| >= 1 then st.done[|st.done| - 1] else init[|init| - 1])[p]
  {
    var n, r, cur := |init|, st.ring.switches, st.ring.cur;
    var prev := Prev(cur, n);
    LastForUncovered(st.open, SlotOf(kind, p), Base(st, init, cur)[p]);
    assert st.frame[prev][p] == Base(st, init, prev)[p];
    if r == 0 {
      ModIs(0, 0, 0, n);
      HeldIs(n - 1, 0, n, -1) by { ModIs(-1, -1, n - 1, n); }
    } else {
      HeldIs(prev, r, n, r - 1) by { PrevIsModular(r, n); }
    }
  }

  lemma PrevIsModular(r: nat, n: nat)
    requires r >= 1 && n >= 1
    ensures r % n < n && (r - 1) % n == Prev(r % n, n)
  {
    var q, c := r / n, r % n;
    if c == 0 {
      ModIs(r - 1, q - 1, n - 1, n) by { assert n * (q - 1) == n * q - n; }
    } else {
      ModIs(r - 1, q, c - 1, n);
    }
  }

  /** What lies behind a position not repaired from the previous buffer: its buffer's last finished contents. */
  lemma OwnBuffer(kind: Kind, init: seq<Frame>, st: Store, p: nat)
    requires Inv(kind, init, st) && p < Size(kind)
    requires !(kind.VideoRing? && VideoSlot(p) && p / 150 < kind.maxdif)
    ensures Behind(kind, init, st.done, |st.done|, p) == Base(st, init, st.ring.cur)
  {
    hide Settled, Filling, Flagged, FinishedWell;
    var n, r, cur := |init|, st.ring.switches, st.ring.cur;
    if r >= n {
      HeldIs(cur, r, n, r - n) by { SameRemainder(r - n, n); }
    } else {
      ModIs(r, 0, r, n);
      HeldIs(r, r, n, r - n) by { SameRemainder(r - n, n); }
    }
  }

  lemma FinishedPosition(kind: Kind, init: seq<Frame>, st: Store, p: nat)
    requires Inv(kind, init, st) && p < Size(kind) && Owned(kind, p)
    ensures Finished(kind, st)[p] ==
            LastFor(st.open, SlotOf(kind, p), Behind(kind, init, st.done, |st.done|, p)[p])
  {
    hide LastFor, Covers, FinishedWell;
    var r, cur := st.ring.switches, st.ring.cur;
    if kind.VideoRing? && VideoSlot(p) && p / 150 < kind.maxdif {
      FlagOfSlot(p);
      if Covers(st.open, p) {
        LastForCovered(st.open, p, Base(st, init, cur)[p], Behind(kind, init, st.done, r, p)[p]);
      } else {
        PreviousBuffer(kind, init, st, p);
        LastForUncovered(st.open, p, Behind(kind, init, st.done, r, p)[p]);
      }
    } else {
      OwnBuffer(kind, init, st, p);
    }
  }

  lemma FinishedFrames(kind: Kind, init: seq<Frame>, st: Store, ts: nat)
    requires Inv(kind, init, st) && History(kind, init, Finish(kind, st, ts))
    ensures FinishedWell(kind, init, Finish(kind, st, ts))
  {
    hide LastFor, Conceal, Concealed, Settled, Filling, Flagged;
    var st', n := Finish(kind, st, ts), |st.done|;
    forall k, p: nat | 0 <= k < |st'.done| && p < Size(kind) && Owned(kind, p)
      ensures st'.done[k][p] == LastFor(st'.past[k], SlotOf(kind, p), Behind(kind, init, st'.done, k, p)[p])
    {
      assert Behind(kind, init, st'.done, k, p) == Behind(kind, init, st.done, k, p);
      if k == n { FinishedPosition(kind, init, st, p); }
    }
  }

  lemma FinishInv(kind: Kind, init: seq<Frame>, st: Store, ts: nat)
    requires Inv(kind, init, st)
    ensures Inv(kind, init, Finish(kind, st, ts))
  {
    hide Settled, Filling, Flagged, FinishedWell, History;
    FinishSettles(kind, init, st, ts);
    FinishedFrames(kind, init, st, ts);
  }

  lemma ReceiveInv(kind: Kind, init: seq<Frame>, st: Store, ts: nat, b: Block)
    requires Accepts(kind, b) && Inv(kind, init, st)
    ensures Inv(kind, init, Receive(kind, st, ts, b))
  {
    if ts != st.tsPrev { FinishInv(kind, init, st, ts); }
    PutInv(kind, init, if ts != st.tsPrev then Finish(kind, st, ts) else st, b);
  }
}
