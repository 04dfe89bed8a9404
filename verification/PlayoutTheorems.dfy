/**
 Consequences for whole runs of the receiver: concealment, no skipped frames, muting, and when two buffers
 are needed.
 */
module PlayoutTheorems {
  import opened Dif
  import opened Modular
  import H = Handoff
  import R = Reassembly
  import opened Playout
  import opened PlayoutLaws
  import opened Lists

  // ----- concealment -----

  lemma {:induction false} MostRecentBlockShown(maxdif: nat, init: seq<Frame>, st: R.Store, k: nat, s: nat)
    requires R.Inv(Video(maxdif), init, st) && k < |st.done|
    requires s < SLOTS && VideoSlot(s) && s / 150 < maxdif
    ensures st.done[k][s] == LastFor(Flatten(st.past[..k + 1]), s, init[|init| - 1][s])
  {
    var all := Flatten(st.past[..k]);
    assert st.past[..k + 1][..k] == st.past[..k];
    LastForSplit(all, st.past[k], s, init[|init| - 1][s]);
    if k > 0 { MostRecentBlockShown(maxdif, init, st, k - 1, s); }
    assert st.done[k][s] == LastFor(st.past[k], s, R.Behind(Video(maxdif), init, st.done, k, s)[s]);
  }

  lemma FinishedContents(maxdif: nat, init: seq<Frame>, st: R.Store, k: nat, s: nat)
    requires R.Inv(Video(maxdif), init, st) && k < |st.done|
    requires s < 150 * maxdif && s < SLOTS && !AudioSlot(s)
    ensures |st.done[k]| == SLOTS && (k >= |init| ==> |st.done[k - |init|]| == SLOTS)
    ensures st.done[k][s] ==
            if VideoSlot(s) then LastFor(Flatten(st.past[..k + 1]), s, init[|init| - 1][s])
            else LastFor(st.past[k], s, if k >= |init| then st.done[k - |init|][s] else init[k][s])
  {
    if VideoSlot(s) {
      MostRecentBlockShown(maxdif, init, st, k, s);
    } else {
      assert st.done[k][s] == LastFor(st.past[k], s, R.Behind(Video(maxdif), init, st.done, k, s)[s]);
    }
  }

  /**
   After any arrivals and transmissions, with any number of buffers: each video slot of a finished
   frame holds the most recent block ever received for it, and each header, subcode or VAUX slot the
   last block of its own frame or else what the same buffer was finished with F frames earlier.
   */
  lemma ConcealmentOverRuns(maxdif: nat, vinit: seq<Frame>, ainit: seq<Frame>, acts: seq<Action>, k: nat, s: nat)
    requires Buffers(vinit, ainit) && maxdif <= DIFSEQ_NUM_PAL && AllPossible(acts)
    requires k < |Group(Video(maxdif), acts).past| && s < 150 * maxdif && !AudioSlot(s)
    ensures var (v, n) := (After(maxdif, vinit, ainit, acts).v, |vinit|);
      var past := Group(Video(maxdif), acts).past;
      && |v.done| == |past| && |v.done[k]| == SLOTS
      && (k >= n ==> |v.done[k - n]| == SLOTS)
      && v.done[k][s] ==
           if VideoSlot(s) then LastFor(Flatten(past[..k + 1]), s, vinit[n - 1][s])
           else LastFor(past[k], s, if k >= n then v.done[k - n][s] else vinit[k][s])
  {
    hide After;
    RunGroups(maxdif, vinit, ainit, acts);
    DataInvariant(maxdif, vinit, ainit, acts);
    FinishedContents(maxdif, vinit, After(maxdif, vinit, ainit, acts).v, k, s);
  }

  /** The contents of the buffers do not depend on the locks, nor on the timestamp of the first block. */
  lemma {:induction false} DataInvariant(maxdif: nat, vinit: seq<Frame>, ainit: seq<Frame>, acts: seq<Action>)
    requires Buffers(vinit, ainit) && maxdif <= DIFSEQ_NUM_PAL && AllPossible(acts)
    ensures var s := After(maxdif, vinit, ainit, acts);
      R.Inv(Video(maxdif), vinit, s.v) && R.Inv(R.AudioRing, ainit, s.a)
  {
    if acts == [] {
      R.StartInv(Video(maxdif), vinit);
      R.StartInv(R.AudioRing, ainit);
    } else {
      DataInvariant(maxdif, vinit, ainit, acts[..|acts| - 1]);
      StepKeepsData(maxdif, vinit, ainit, After(maxdif, vinit, ainit, acts[..|acts| - 1]), acts[|acts| - 1]);
    }
  }

  lemma StepKeepsData(maxdif: nat, vinit: seq<Frame>, ainit: seq<Frame>, s: State, act: Action)
    requires maxdif <= DIFSEQ_NUM_PAL && Possible(act)
    requires R.Inv(Video(maxdif), vinit, s.v) && R.Inv(R.AudioRing, ainit, s.a)
    ensures var s' := Step(maxdif, s, act);
      R.Inv(Video(maxdif), vinit, s'.v) && R.Inv(R.AudioRing, ainit, s'.a)
  {
    var s' := Step(maxdif, s, act);
    match act {
      case Arrive(ts, b) =>
        if R.Accepts(Video(maxdif), b) { R.ReceiveInv(Video(maxdif), vinit, s.v, ts, b); }
        if R.Accepts(R.AudioRing, b) { R.ReceiveInv(R.AudioRing, ainit, s.a, ts, b); }
      case Transmit =>
        H.ShapeKept(s.v.ring, false);
        H.ShapeKept(s.a.ring, false);
        WriterKeepsStore(Video(maxdif), vinit, s.v, s'.v);
        WriterKeepsStore(R.AudioRing, ainit, s.a, s'.a);
    }
  }

  // ----- no skipped frames -----

  /** Frame 0 is the one shown before anything is finished. */
  function Shown(out: seq<Output>): nat {
    if out == [] || out[|out| - 1].video < 0 then 0 else out[|out| - 1].video
  }

  /** At every transmission the reader is at most as many frames ahead as there are buffers. */
  ghost predicate KeepsUp(maxdif: nat, vinit: seq<Frame>, ainit: seq<Frame>, acts: seq<Action>)
    requires Buffers(vinit, ainit) && maxdif <= DIFSEQ_NUM_PAL && AllPossible(acts)
  {
    forall i | 0 <= i < |acts| && acts[i].Transmit? ::
      var s := After(maxdif, vinit, ainit, acts[..i]);
      s.v.ring.switches <= Shown(s.out) + |vinit|
  }

  /** The writer's buffer is the one of the last frame it transmitted. */
  ghost predicate Standing(s: State)
    requires Playout.Bounds(s)
  {
    && s.v.ring.w == Shown(s.out) % |s.v.ring.lock|
    && (Shown(s.out) < s.v.ring.switches || (s.v.ring.switches == 0 && Shown(s.out) == 0))
    && forall i | 0 <= i < |s.out| :: Shown(s.out[..i]) <= Shown(s.out[..i + 1]) <= Shown(s.out[..i]) + 1
  }

  lemma TransmitSkipsNothing(maxdif: nat, s: State)
    requires Playout.Bounds(s) && maxdif <= DIFSEQ_NUM_PAL && H.Inv(s.v.ring) && Standing(s)
    requires s.v.ring.switches <= Shown(s.out) + |s.v.ring.lock|
    ensures Standing(FillBuffer(maxdif, s))
  {
    var g, n, t, s' := s.v.ring, |s.v.ring.lock|, Shown(s.out), FillBuffer(maxdif, s);
    H.WriterKeepsInv(g);
    assert s'.out[..|s.out|] == s.out;
    assert forall i | 0 <= i <= |s.out| :: s'.out[..i] == s.out[..i];
    assert s'.out[..|s'.out|] == s'.out;
    if g.switches > 0 {
      H.HeldIs(g.w, g.switches, n, t);
      H.HeldIsLatest(s'.v.ring.w, g.switches, n);
    }
  }

  lemma ArrivalKeepsStanding(maxdif: nat, s: State, ts: nat, b: Block)
    requires Playout.Bounds(s) && Placeable(b) && Standing(s)
    ensures Standing(ReadBlock(maxdif, s, ts, b))
  {}

  lemma KeepsUpPrefix(maxdif: nat, vinit: seq<Frame>, ainit: seq<Frame>, acts: seq<Action>)
    requires Buffers(vinit, ainit) && maxdif <= DIFSEQ_NUM_PAL && AllPossible(acts) && |acts| > 0
    requires KeepsUp(maxdif, vinit, ainit, acts)
    ensures AllPossible(acts[..|acts| - 1]) && KeepsUp(maxdif, vinit, ainit, acts[..|acts| - 1])
  {
    var n := |acts| - 1;
    forall i | 0 <= i < n && acts[..n][i].Transmit?
      ensures var s := After(maxdif, vinit, ainit, acts[..n][..i]);
        s.v.ring.switches <= Shown(s.out) + |vinit|
    {
      assert acts[..n][..i] == acts[..i] && acts[..n][i] == acts[i];
    }
  }

  lemma LocksHold(maxdif: nat, vinit: seq<Frame>, ainit: seq<Frame>, acts: seq<Action>)
    requires Buffers(vinit, ainit) && |vinit| >= 2 && |ainit| >= 2 && maxdif <= DIFSEQ_NUM_PAL && AllPossible(acts)
    requires FirstNotZero(Video(maxdif), acts) && FirstNotZero(R.AudioRing, acts)
    ensures var g := After(maxdif, vinit, ainit, acts).v.ring; H.Inv(g) && |g.lock| == |vinit|
  {
    TransmitsOnlyFinishedFrames(maxdif, vinit, ainit, acts);
  }

  lemma StepKeepsStanding(maxdif: nat, s: State, act: Action)
    requires Playout.Bounds(s) && maxdif <= DIFSEQ_NUM_PAL && Possible(act) && H.Inv(s.v.ring) && Standing(s)
    requires act.Transmit? ==> s.v.ring.switches <= Shown(s.out) + |s.v.ring.lock|
    ensures Standing(Step(maxdif, s, act))
  {
    match act
    case Arrive(ts, b) => ArrivalKeepsStanding(maxdif, s, ts, b);
    case Transmit => TransmitSkipsNothing(maxdif, s);
  }

  lemma {:induction false} RunKeepsStanding(maxdif: nat, vinit: seq<Frame>, ainit: seq<Frame>, acts: seq<Action>)
    requires Buffers(vinit, ainit) && |vinit| >= 2 && |ainit| >= 2 && maxdif <= DIFSEQ_NUM_PAL && AllPossible(acts)
    requires FirstNotZero(Video(maxdif), acts) && FirstNotZero(R.AudioRing, acts)
    requires KeepsUp(maxdif, vinit, ainit, acts)
    ensures Standing(After(maxdif, vinit, ainit, acts))
  {
    if acts == [] {
      ModIs(0, 0, 0, |vinit|);
    } else {
      var n := |acts| - 1;
      FirstNotZeroPrefix(Video(maxdif), acts, n);
      FirstNotZeroPrefix(R.AudioRing, acts, n);
      KeepsUpPrefix(maxdif, vinit, ainit, acts);
      RunKeepsStanding(maxdif, vinit, ainit, acts[..n]);
      LocksHold(maxdif, vinit, ainit, acts[..n]);
      var s := After(maxdif, vinit, ainit, acts[..n]);
      assert acts[n].Transmit? ==> s.v.ring.switches <= Shown(s.out) + |vinit|;
      StepKeepsStanding(maxdif, s, acts[n]);
    }
  }

  /** A writer that keeps up transmits every frame: the numbers shown go up by at most one at a time. */
  lemma NoFrameSkipped(maxdif: nat, vinit: seq<Frame>, ainit: seq<Frame>, acts: seq<Action>)
    requires Buffers(vinit, ainit) && |vinit| >= 2 && |ainit| >= 2 && maxdif <= DIFSEQ_NUM_PAL && AllPossible(acts)
    requires FirstNotZero(Video(maxdif), acts) && FirstNotZero(R.AudioRing, acts)
    requires KeepsUp(maxdif, vinit, ainit, acts)
    ensures var out := After(maxdif, vinit, ainit, acts).out;
      forall i | 0 <= i < |out| :: Shown(out[..i]) <= Shown(out[..i + 1]) <= Shown(out[..i]) + 1
  {
    RunKeepsStanding(maxdif, vinit, ainit, acts);
  }

  // ----- muting -----

  /** How many transmissions at the end of the list found no new audio. */
  function Stale(out: seq<Output>): nat {
    if out == [] || out[|out| - 1].newAudio then 0 else 1 + Stale(out[..|out| - 1])
  }

  ghost predicate MuteCounted(s: State) {
    && s.stale == (if Stale(s.out) >= 6 then 10 else Stale(s.out))
    && (forall i | 0 <= i < |s.out| ::
          && (s.out[i].silent <==> Stale(s.out[..i + 1]) >= 6)
          && (s.out[i].muted <==> Stale(s.out[..i + 1]) == 6))
  }

  /** One more transmission, its audio new or not, silent and announced as its count of stale calls says. */
  lemma CountSnoc(s: State, s': State, o: Output)
    requires MuteCounted(s) && s'.out == s.out + [o]
    requires var count := if o.newAudio then 0 else s.stale + 1;
      (o.silent <==> count > 5) && (o.muted <==> count == 6) && s'.stale == if o.silent then 10 else count
    ensures MuteCounted(s')
  {
    assert s'.out[..|s.out|] == s.out && s'.out[..|s'.out|] == s'.out;
    assert forall i | 0 <= i <= |s.out| :: s'.out[..i] == s.out[..i];
  }

  lemma FillBufferCounts(maxdif: nat, s: State)
    requires Playout.Bounds(s) && maxdif <= DIFSEQ_NUM_PAL && MuteCounted(s)
    ensures MuteCounted(FillBuffer(maxdif, s))
  {
    hide MuteCounted, Merge, SilentAudio, H.WriterStep, H.Fresh, Number, Filling;
    var s' := FillBuffer(maxdif, s);
    CountSnoc(s, s', s'.out[|s.out|]);
  }

  lemma {:induction false} RunCounts(maxdif: nat, vinit: seq<Frame>, ainit: seq<Frame>, acts: seq<Action>)
    requires Buffers(vinit, ainit) && maxdif <= DIFSEQ_NUM_PAL && AllPossible(acts)
    ensures MuteCounted(After(maxdif, vinit, ainit, acts))
  {
    if acts != [] {
      var n := |acts| - 1;
      RunCounts(maxdif, vinit, ainit, acts[..n]);
      if acts[n].Transmit? { FillBufferCounts(maxdif, After(maxdif, vinit, ainit, acts[..n])); }
    }
  }

  lemma {:induction false} StaleMeans(out: seq<Output>, n: nat)
    ensures Stale(out) >= n <==> n <= |out| && forall j | |out| - n <= j < |out| :: !out[j].newAudio
  {
    if n > 0 && out != [] {
      var rest := out[..|out| - 1];
      StaleMeans(rest, n - 1);
      assert forall j | 0 <= j < |rest| :: rest[j] == out[j];
    }
  }

  lemma MutedMeans(s: State, i: nat)
    requires MuteCounted(s) && i < |s.out|
    ensures s.out[i].silent <==> i >= 5 && forall j | i - 5 <= j <= i :: !s.out[j].newAudio
    ensures s.out[i].muted <==> s.out[i].silent && (i == 0 || !s.out[i - 1].silent)
  {
    var out := s.out;
    StaleMeans(out[..i + 1], 6);
    assert forall j | 0 <= j <= i :: out[..i + 1][j] == out[j];
    assert out[..i + 1][..i] == out[..i];
  }

  /**
   Silence replaces the audio exactly when this and at least the five preceding transmissions found
   no new audio, and MUTE AUDIO is printed exactly at the first silent transmission of each episode.
   */
  lemma SilenceAfterSixStaleFrames(maxdif: nat, vinit: seq<Frame>, ainit: seq<Frame>, acts: seq<Action>, i: nat)
    requires Buffers(vinit, ainit) && maxdif <= DIFSEQ_NUM_PAL && AllPossible(acts)
    requires i < |After(maxdif, vinit, ainit, acts).out|
    ensures var out := After(maxdif, vinit, ainit, acts).out;
      && (out[i].silent <==> i >= 5 && forall j | i - 5 <= j <= i :: !out[j].newAudio)
      && (out[i].muted <==> out[i].silent && (i == 0 || !out[i - 1].silent))
  {
    RunCounts(maxdif, vinit, ainit, acts);
    MutedMeans(After(maxdif, vinit, ainit, acts), i);
  }

  // ----- what the writer takes -----

  /** A frame behind the one in the writer's buffer is finished. */
  predicate Waiting(g: H.Ring)
    requires H.Bounds(g)
  {
    Number(g) + 1 < g.switches
  }

  /** The number of the frame to transmit: the next one if it is finished, otherwise the same once more. */
  function Due(g: H.Ring): int
    requires H.Bounds(g)
  {
    if Waiting(g) then Number(g) + 1 else Number(g)
  }

  /** The frame transmitted from state s is the one due in each ring. */
  ghost predicate TakesDue(s: State, o: Output)
    requires Playout.Bounds(s)
  {
    && (o.newAudio <==> Waiting(s.a.ring))
    && o.audio == Due(s.a.ring)
    && o.video == Due(s.v.ring)
  }

  lemma WriterTakesDue(g: H.Ring)
    requires H.Inv(g)
    ensures H.Fresh(g) <==> Waiting(g)
    ensures Number(H.WriterStep(g)) == Due(g)
  {
    H.WriterKeepsInv(g);
    var n, t := |g.lock|, H.Held(g.w, g.switches, |g.lock|);
    if g.switches > 0 {
      H.HeldIsLatest(g.w, g.switches, n);
      H.NextIsModular(g.w, n);
      ModStep(t, 1, n);
      assert H.Next(g.w, n) == (t + 1) % n;
    }
  }

  lemma FillBufferTakesDue(maxdif: nat, s: State)
    requires Playout.Bounds(s) && maxdif <= DIFSEQ_NUM_PAL && H.Inv(s.v.ring) && H.Inv(s.a.ring)
    ensures var out := FillBuffer(maxdif, s).out; |out| == |s.out| + 1 && TakesDue(s, out[|s.out|])
  {
    WriterTakesDue(s.v.ring);
    WriterTakesDue(s.a.ring);
  }

  /** The states in which the frames of a run were transmitted. */
  ghost function Befores(maxdif: nat, vinit: seq<Frame>, ainit: seq<Frame>, acts: seq<Action>): (ss: seq<State>)
    requires Buffers(vinit, ainit) && maxdif <= DIFSEQ_NUM_PAL && AllPossible(acts)
    ensures forall j | 0 <= j < |ss| :: Playout.Bounds(ss[j])
  {
    if acts == [] then []
    else
      var rest := acts[..|acts| - 1];
      Befores(maxdif, vinit, ainit, rest) +
      (if acts[|acts| - 1].Transmit? then [After(maxdif, vinit, ainit, rest)] else [])
  }

  /**
   Every transmission, under every interleaving, shows the next video frame if one is finished behind the
   one shown and that one again otherwise; the same for the audio, which is new in the first case.
   */
  lemma {:induction false} TransmitsWhatIsDue(maxdif: nat, vinit: seq<Frame>, ainit: seq<Frame>, acts: seq<Action>)
    requires Buffers(vinit, ainit) && |vinit| >= 2 && |ainit| >= 2 && maxdif <= DIFSEQ_NUM_PAL && AllPossible(acts)
    requires FirstNotZero(Video(maxdif), acts) && FirstNotZero(R.AudioRing, acts)
    ensures var (out, before) := (After(maxdif, vinit, ainit, acts).out, Befores(maxdif, vinit, ainit, acts));
      |before| == |out| && forall j | 0 <= j < |out| :: TakesDue(before[j], out[j])
  {
    hide TakesDue, FillBuffer;
    if acts != [] {
      var n := |acts| - 1;
      FirstNotZeroPrefix(Video(maxdif), acts, n);
      FirstNotZeroPrefix(R.AudioRing, acts, n);
      TransmitsWhatIsDue(maxdif, vinit, ainit, acts[..n]);
      TransmitsOnlyFinishedFrames(maxdif, vinit, ainit, acts[..n]);
      var s := After(maxdif, vinit, ainit, acts[..n]);
      if acts[n].Transmit? {
        FillBufferTakesDue(maxdif, s);
        FillBufferAppends(maxdif, s);
      }
    }
  }

  lemma FillBufferAppends(maxdif: nat, s: State)
    requires Playout.Bounds(s) && maxdif <= DIFSEQ_NUM_PAL
    ensures s.out <= FillBuffer(maxdif, s).out
  {}

  /** So silence means exactly that no finished audio frame was waiting at this and the five preceding calls. */
  lemma SilenceIffNothingWaits(maxdif: nat, vinit: seq<Frame>, ainit: seq<Frame>, acts: seq<Action>, i: nat)
    requires Buffers(vinit, ainit) && |vinit| >= 2 && |ainit| >= 2 && maxdif <= DIFSEQ_NUM_PAL && AllPossible(acts)
    requires FirstNotZero(Video(maxdif), acts) && FirstNotZero(R.AudioRing, acts)
    requires i < |After(maxdif, vinit, ainit, acts).out|
    ensures var (out, before) := (After(maxdif, vinit, ainit, acts).out, Befores(maxdif, vinit, ainit, acts));
      && |before| == |out|
      && (out[i].silent <==> i >= 5 && forall j | i - 5 <= j <= i :: !Waiting(before[j].a.ring))
  {
    hide After, Waiting;
    TransmitsWhatIsDue(maxdif, vinit, ainit, acts);
    SilenceAfterSixStaleFrames(maxdif, vinit, ainit, acts, i);
    var (out, before) := (After(maxdif, vinit, ainit, acts).out, Befores(maxdif, vinit, ainit, acts));
    assert forall j | 0 <= j < |out| :: out[j].newAudio <==> Waiting(before[j].a.ring) by {
      assert forall j | 0 <= j < |out| :: TakesDue(before[j], out[j]);
    }
  }

  // ----- what the writer gives back -----

  /** The writer's buffer, unless the reader is back at it or has filled it since, is READY. */
  ghost predicate Released(g: H.Ring, shown: int)
    requires H.Bounds(g)
  {
    shown == Number(g) && g.w != g.cur ==> g.lock[g.w] == H.Ready
  }

  lemma ReaderKeepsReleased(g: H.Ring, switch: bool, shown: int)
    requires H.Inv(g) && (g.switches == 0 ==> switch) && shown <= Number(g) && Released(g, shown)
    ensures Released(H.ReaderStep(g, switch), shown)
  {
    if switch {
      var n, r := |g.lock|, g.switches;
      H.HeldIsLatest(g.w, r, n);
      H.HeldIsLatest(g.w, r + 1, n);
      H.ReaderKeepsInv(g, switch);
      if g.w == g.cur { H.HeldIs(g.w, r + 1, n, r); }
    }
  }

  ghost predicate LastReleased(s: State)
    requires Playout.Bounds(s)
  {
    s.out != [] ==>
      Released(s.v.ring, s.out[|s.out| - 1].video) && Released(s.a.ring, s.out[|s.out| - 1].audio)
  }

  lemma TransmitReleases(maxdif: nat, s: State)
    requires Playout.Bounds(s) && maxdif <= DIFSEQ_NUM_PAL
    ensures LastReleased(FillBuffer(maxdif, s))
  {}

  lemma ArrivalKeepsReleased(maxdif: nat, vinit: seq<Frame>, ainit: seq<Frame>, s: State, ts: nat, b: Block)
    requires SystemOk(maxdif, vinit, ainit, s) && LastReleased(s) && Placeable(b)
    requires R.Accepts(Video(maxdif), b) && s.v.ring.switches == 0 ==> ts != 0
    requires R.Accepts(R.AudioRing, b) && s.a.ring.switches == 0 ==> ts != 0
    ensures LastReleased(ReadBlock(maxdif, s, ts, b))
  {
    hide Intact, R.Inv, Released;
    if s.out != [] {
      var o := s.out[|s.out| - 1];
      if R.Accepts(Video(maxdif), b) { ReaderKeepsReleased(s.v.ring, ts != s.v.tsPrev, o.video); }
      if R.Accepts(R.AudioRing, b) { ReaderKeepsReleased(s.a.ring, ts != s.a.tsPrev, o.audio); }
    }
  }

  /** Under every interleaving the buffers transmitted last are free for the reader until it comes round to them. */
  lemma {:induction false} ReleasesWhatItSent(maxdif: nat, vinit: seq<Frame>, ainit: seq<Frame>, acts: seq<Action>)
    requires Buffers(vinit, ainit) && |vinit| >= 2 && |ainit| >= 2 && maxdif <= DIFSEQ_NUM_PAL && AllPossible(acts)
    requires FirstNotZero(Video(maxdif), acts) && FirstNotZero(R.AudioRing, acts)
    ensures LastReleased(After(maxdif, vinit, ainit, acts))
  {
    hide LastReleased, FillBuffer, ReadBlock, SystemOk;
    if acts == [] {
      StartReleased(vinit, ainit);
    } else {
      var n := |acts| - 1;
      var s := After(maxdif, vinit, ainit, acts[..n]);
      FirstNotZeroPrefix(Video(maxdif), acts, n);
      FirstNotZeroPrefix(R.AudioRing, acts, n);
      ReleasesWhatItSent(maxdif, vinit, ainit, acts[..n]);
      TransmitsOnlyFinishedFrames(maxdif, vinit, ainit, acts[..n]);
      match acts[n] {
        case Transmit => TransmitReleases(maxdif, s);
        case Arrive(ts, b) => ArrivalKeepsReleased(maxdif, vinit, ainit, s, ts, b);
      }
    }
  }

  lemma StartReleased(vinit: seq<Frame>, ainit: seq<Frame>)
    requires Buffers(vinit, ainit)
    ensures LastReleased(Playout.Start(vinit, ainit))
  {}

  // ----- when the hand-off is safe -----

  const HEADER := Block(0, 0, 0, 0, [])
  const AUDIO := Block(96, 0, 0, 0, [])

  ghost predicate NothingTorn(out: seq<Output>) { forall i | 0 <= i < |out| :: !out[i].torn }

  lemma RunOfTwo(maxdif: nat, vinit: seq<Frame>, ainit: seq<Frame>, act: Action)
    requires Buffers(vinit, ainit) && maxdif <= DIFSEQ_NUM_PAL && Possible(act)
    ensures After(maxdif, vinit, ainit, [act, Transmit]) ==
            FillBuffer(maxdif, Step(maxdif, Playout.Start(vinit, ainit), act))
  {
    var s := Playout.Start(vinit, ainit);
    var one := [act];
    assert one[..0] == [];
    assert Run(maxdif, s, one[..0]) == s;
    assert Run(maxdif, s, one) == Step(maxdif, s, act);
    assert [act, Transmit][..1] == one;
  }

  lemma FirstBlockOfRing(kind: R.Kind, init: seq<Frame>, ts: nat, b: Block)
    requires |init| >= 1 && (forall i | 0 <= i < |init| :: |init[i]| == R.Size(kind)) && R.Accepts(kind, b)
    ensures var g := R.Receive(kind, R.Start(init), ts, b).ring;
      H.WriterStep(g).w == g.cur <==> ts == 0 || |init| == 1
  {}

  /**
   Transmitting right after the first block of a ring tears exactly when its timestamp is 0 or the ring has
   one buffer.
   */
  lemma FirstBlockTears(maxdif: nat, vinit: seq<Frame>, ainit: seq<Frame>, ts: nat, b: Block)
    requires Buffers(vinit, ainit) && maxdif <= DIFSEQ_NUM_PAL && Placeable(b) && Sct(b) <= 4
    ensures After(maxdif, vinit, ainit, [Arrive(ts, b), Transmit]).out[0].torn <==>
            ts == 0 || |if IsAudio(b) then ainit else vinit| == 1
  {
    RunOfTwo(maxdif, vinit, ainit, Arrive(ts, b));
    if IsAudio(b) {
      FirstBlockOfRing(R.AudioRing, ainit, ts, b);
    } else {
      FirstBlockOfRing(Video(maxdif), vinit, ts, b);
    }
  }

  ghost predicate Proper(maxdif: nat, acts: seq<Action>) {
    AllPossible(acts) && FirstNotZero(Video(maxdif), acts) && FirstNotZero(R.AudioRing, acts)
  }

  lemma TwoActionsProper(maxdif: nat, b: Block)
    requires b == HEADER || b == AUDIO
    ensures Proper(maxdif, [Arrive(1, b), Transmit]) && Placeable(b)
  {}

  lemma TwoBuffersSafe(maxdif: nat, vinit: seq<Frame>, ainit: seq<Frame>, acts: seq<Action>)
    requires Buffers(vinit, ainit) && |vinit| >= 2 && |ainit| >= 2 && maxdif <= DIFSEQ_NUM_PAL && Proper(maxdif, acts)
    ensures NothingTorn(After(maxdif, vinit, ainit, acts).out)
  {
    TransmitsOnlyFinishedFrames(maxdif, vinit, ainit, acts);
  }

  /** The two rings are safe under every interleaving exactly when each has at least two buffers. */
  lemma SafeIffTwoBuffers(maxdif: nat, vinit: seq<Frame>, ainit: seq<Frame>)
    requires Buffers(vinit, ainit) && maxdif <= DIFSEQ_NUM_PAL
    ensures (forall acts | Proper(maxdif, acts) :: NothingTorn(After(maxdif, vinit, ainit, acts).out))
            <==> |vinit| >= 2 && |ainit| >= 2
  {
    if |vinit| >= 2 && |ainit| >= 2 {
      forall acts | Proper(maxdif, acts) ensures NothingTorn(After(maxdif, vinit, ainit, acts).out) {
        TwoBuffersSafe(maxdif, vinit, ainit, acts);
      }
    } else {
      var b := if |vinit| == 1 then HEADER else AUDIO;
      TwoActionsProper(maxdif, b);
      FirstBlockTears(maxdif, vinit, ainit, 1, b);
    }
  }
}
