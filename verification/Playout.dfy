/**
 The two receiver processes together: blocks arrive and are placed by the reader
 (dvrecv/read.c), and each call of `_fill_buffer` (dvrecv/write-linux.c) takes over the
 next buffers, merges audio or silence into the video frame and transmits it.
 */
module Playout {
  import opened Dif
  import opened Modular
  import H = Handoff
  import opened Reassembly

  datatype Action = Arrive(ts: nat, block: Block) | Transmit

  /**
   A transmitted frame with what the writer did to obtain it: the numbers of the finished video
   and audio frames in the buffers it stood on (negative when none was finished yet), whether the
   audio was new, silence was sent, MUTE AUDIO was printed, and whether the reader was still
   filling one of the two buffers.
   */
  datatype Output = Output(frame: Frame, video: int, audio: int, newAudio: bool, silent: bool, muted: bool, torn: bool)

  datatype State = State(v: Store, a: Store, stale: nat, out: seq<Output>)

  function ZeroBlock(): Block { Block(0, 0, 0, 0, seq(76, _ => 0)) }

  function SilentBlock(dseq: nat, dbn: nat): Block
    requires dseq < 16 && dbn < 256
  {
    Block(SCT_AUDIO * 32, dseq * 16, dbn, 0, seq(76, _ => 0))
  }

  /** The array prepared once before the writer's loop. */
  function SilentAudio(maxdif: nat): (f: Frame)
    requires maxdif <= DIFSEQ_NUM_PAL
    ensures |f| == AUDIO_SLOTS
  {
    seq(AUDIO_SLOTS, p requires 0 <= p < AUDIO_SLOTS =>
      if p / 9 < maxdif then SilentBlock(p / 9, p % 9) else ZeroBlock())
  }

  /** The position in an audio frame of the block that belongs in an audio slot. */
  function AudioAt(s: nat): nat { 9 * (s / 150) + SectionAt(s).1 }

  lemma AudioAtInRange(s: nat)
    requires s < SLOTS && AudioSlot(s)
    ensures AudioAt(s) < AUDIO_SLOTS && SlotOf(AudioRing, AudioAt(s)) == s
    ensures AudioAt(s) / 9 == s / 150
  {
    EverySlotHasItsBlock(s);
  }

  function Merge(maxdif: nat, video: Frame, audio: Frame): (f: Frame)
    requires |video| == SLOTS && |audio| == AUDIO_SLOTS
    ensures |f| == SLOTS
  {
    seq(SLOTS, s requires 0 <= s < SLOTS =>
      if AudioSlot(s) && s / 150 < maxdif then AudioAtInRange(s); audio[AudioAt(s)] else video[s])
  }

  /** Merging takes the audio of the format's sequences from the audio frame and leaves every other block alone. */
  lemma MergeByBlock(maxdif: nat, video: Frame, audio: Frame, b: Block)
    requires |video| == SLOTS && |audio| == AUDIO_SLOTS && Placeable(b) && Sct(b) <= 4
    ensures Slot(b) < SLOTS && (IsAudio(b) ==> AudioIndex(b) < AUDIO_SLOTS)
    ensures Merge(maxdif, video, audio)[Slot(b)] ==
            if IsAudio(b) && Dseq(b) < maxdif then audio[AudioIndex(b)] else video[Slot(b)]
  {
    SlotIdentifiesBlock(b);
  }

  /** The number of the finished frame in the writer's buffer. */
  function Number(g: H.Ring): int
    requires H.Bounds(g)
  {
    if g.switches == 0 then -1 else H.Held(g.w, g.switches, |g.lock|)
  }

  predicate Filling(st: Store) { st.ring.w == st.ring.cur && st.open != [] }

  predicate Bounds(s: State) { Shaped(VideoRing(0), s.v) && Shaped(AudioRing, s.a) }

  function Start(vinit: seq<Frame>, ainit: seq<Frame>): State
    requires |vinit| >= 1 && |ainit| >= 1
  {
    State(Reassembly.Start(vinit), Reassembly.Start(ainit), 0, [])
  }

  function ReadBlock(maxdif: nat, s: State, ts: nat, b: Block): (s': State)
    requires Bounds(s) && Placeable(b)
    ensures Bounds(s')
  {
    if Sct(b) > 4 then s
    else if IsAudio(b) then s.(a := Receive(AudioRing, s.a, ts, b))
    else s.(v := Receive(VideoRing(maxdif), s.v, ts, b))
  }

  function FillBuffer(maxdif: nat, s: State): (s': State)
    requires Bounds(s) && maxdif <= DIFSEQ_NUM_PAL
    ensures Bounds(s')
  {
    var newAudio := H.Fresh(s.a.ring);
    var count := if newAudio then 0 else s.stale + 1;
    var silent := count > 5;
    var (vring, aring) := (H.WriterStep(s.v.ring), H.WriterStep(s.a.ring));
    var frame := Merge(maxdif, s.v.frame[vring.w], if silent then SilentAudio(maxdif) else s.a.frame[aring.w]);
    var v := s.v.(ring := vring, frame := s.v.frame[vring.w := frame]);
    var a := s.a.(ring := aring);
    State(v, a, if silent then 10 else count,
          s.out + [Output(frame, Number(vring), Number(aring), newAudio, silent, count == 6, Filling(v) || Filling(a))])
  }

  predicate Possible(act: Action) { act.Arrive? ==> Placeable(act.block) }

  function Step(maxdif: nat, s: State, act: Action): (s': State)
    requires Bounds(s) && maxdif <= DIFSEQ_NUM_PAL && Possible(act)
    ensures Bounds(s')
  {
    match act
    case Arrive(ts, b) => ReadBlock(maxdif, s, ts, b)
    case Transmit => FillBuffer(maxdif, s)
  }

  function Run(maxdif: nat, s: State, acts: seq<Action>): (s': State)
    requires Bounds(s) && maxdif <= DIFSEQ_NUM_PAL && forall i | 0 <= i < |acts| :: Possible(acts[i])
    ensures Bounds(s')
  {
    if acts == [] then s else Step(maxdif, Run(maxdif, s, acts[..|acts| - 1]), acts[|acts| - 1])
  }

  /** Buffers of the right size to start from, at least one in each ring. */
  ghost predicate Buffers(vinit: seq<Frame>, ainit: seq<Frame>) {
    && |vinit| >= 1 && (forall i | 0 <= i < |vinit| :: |vinit[i]| == SLOTS)
    && |ainit| >= 1 && (forall i | 0 <= i < |ainit| :: |ainit[i]| == AUDIO_SLOTS)
  }

  ghost predicate AllPossible(acts: seq<Action>) { forall i | 0 <= i < |acts| :: Possible(acts[i]) }

  /** The state of both processes after the given actions. */
  ghost function After(maxdif: nat, vinit: seq<Frame>, ainit: seq<Frame>, acts: seq<Action>): (s: State)
    requires maxdif <= DIFSEQ_NUM_PAL && Buffers(vinit, ainit) && AllPossible(acts)
    ensures Bounds(s)
  {
    Run(maxdif, Start(vinit, ainit), acts)
  }

  /** The actions one packet stands for. */
  function Arrivals(ts: nat, payload: seq<Block>): seq<Action> {
    seq(|payload|, i requires 0 <= i < |payload| => Arrive(ts, payload[i]))
  }

  // ----- the arrivals alone -----

  /** The action brings a block for the given ring. */
  predicate For(kind: Kind, act: Action) { act.Arrive? && Accepts(kind, act.block) }

  datatype Timed = Timed(ts: nat, block: Block)

  /** The blocks delivered to one ring, in order of arrival. */
  function Delivered(kind: Kind, acts: seq<Action>): seq<Timed> {
    if acts == [] then []
    else
      var (rest, act) := (acts[..|acts| - 1], acts[|acts| - 1]);
      Delivered(kind, rest) + (if For(kind, act) then [Timed(act.ts, act.block)] else [])
  }

  datatype Groups = Groups(past: seq<seq<Block>>, open: seq<Block>, ts: nat)

  /** A feed cut into frames wherever the timestamp changes; before the first block it is taken to be 0. */
  function Cut(feed: seq<Timed>): Groups {
    if feed == [] then Groups([], [], 0)
    else
      var (g, x) := (Cut(feed[..|feed| - 1]), feed[|feed| - 1]);
      if x.ts != g.ts then Groups(g.past + [g.open], [x.block], x.ts)
      else g.(open := g.open + [x.block])
  }

  function Group(kind: Kind, acts: seq<Action>): Groups { Cut(Delivered(kind, acts)) }

  /** The first block for the ring does not carry the timestamp 0, the reader's initial value. */
  ghost predicate FirstNotZero(kind: Kind, acts: seq<Action>) {
    forall i | 0 <= i < |acts| && For(kind, acts[i]) && (forall j | 0 <= j < i :: !For(kind, acts[j])) ::
      acts[i].ts != 0
  }
}
