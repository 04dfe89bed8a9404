/**
 The receiver's shared buffers and the loops of its two processes that read and write them in
 place (dvrecv/read.c, dvrecv/write-linux.c), kept equal to their `Playout.State` value.
 */
module Receiver {
  import opened Dif
  import opened Modular
  import opened Handoff
  import R = Reassembly
  import opened Playout

  type Frame = R.Frame

  // ----- in-place loops, one position at a time -----

  /** A frame repaired as far as its first f flags. */
  function ConcealUpTo(maxdif: nat, cur: Frame, prev: Frame, got: seq<bool>, f: nat): (r: Frame)
    requires |cur| == |prev| == SLOTS
    ensures |r| == SLOTS
  {
    seq(SLOTS, s requires 0 <= s < SLOTS =>
      if R.Concealed(maxdif, got, s) && FlagIndex(s / 150, SectionAt(s).1) < f then prev[s] else cur[s])
  }

  /** The repair loops visit the flags in order, and each flag's own slot. */
  lemma FlagPlace(j: nat, k: nat)
    requires j < DIFSEQ_NUM_PAL && k < 135
    ensures var (f, s) := (FlagIndex(j, k), 150 * j + Offset(SCT_VIDEO, k));
      && f < FLAGS && s < SLOTS && s / 150 == j && VideoSlot(s) && SectionAt(s).1 == k
      && forall t: nat | t < SLOTS && VideoSlot(t) && FlagIndex(t / 150, SectionAt(t).1) == f :: t == s
  {
    hide VideoSlot, SectionAt, Offset;
    var b := Block(SCT_VIDEO * 32, j * 16, k, 0, []);
    assert Slot(b) == 150 * j + Offset(SCT_VIDEO, k);
    SlotIdentifiesBlock(b);
    forall t: nat | t < SLOTS && VideoSlot(t) && FlagIndex(t / 150, SectionAt(t).1) == FlagIndex(j, k)
      ensures t == Slot(b)
    {
      R.FlagIdentifiesSlot(b, t);
    }
  }

  lemma ConcealNext(maxdif: nat, cur: Frame, prev: Frame, got: seq<bool>, j: nat, k: nat)
    requires |cur| == |prev| == SLOTS && |got| == FLAGS && j < maxdif <= DIFSEQ_NUM_PAL && k < 135
    ensures var (f, s) := (FlagIndex(j, k), 150 * j + Offset(SCT_VIDEO, k));
      && f < FLAGS && s < SLOTS
      && ConcealUpTo(maxdif, cur, prev, got, f)[s] == cur[s]
      && ConcealUpTo(maxdif, cur, prev, got, f + 1) ==
           if got[f] then ConcealUpTo(maxdif, cur, prev, got, f)
           else ConcealUpTo(maxdif, cur, prev, got, f)[s := prev[s]]
  {
    hide VideoSlot, SectionAt, Offset;
    FlagPlace(j, k);
  }

  lemma ConcealAll(maxdif: nat, cur: Frame, prev: Frame, got: seq<bool>)
    requires |cur| == |prev| == SLOTS && maxdif <= DIFSEQ_NUM_PAL
    ensures ConcealUpTo(maxdif, cur, prev, got, 0) == cur
    ensures ConcealUpTo(maxdif, cur, prev, got, 135 * maxdif) == R.Conceal(maxdif, cur, prev, got)
  {}

  /** A frame with the first f blocks of audio merged in. */
  function MergeUpTo(video: Frame, audio: Frame, f: nat): (r: Frame)
    requires |video| == SLOTS && |audio| == AUDIO_SLOTS
    ensures |r| == SLOTS
  {
    seq(SLOTS, s requires 0 <= s < SLOTS =>
      if AudioSlot(s) && AudioAt(s) < f then AudioAtInRange(s); audio[AudioAt(s)] else video[s])
  }

  lemma MergeNext(video: Frame, audio: Frame, j: nat, i: nat)
    requires |video| == SLOTS && |audio| == AUDIO_SLOTS && j < DIFSEQ_NUM_PAL && i < 9
    ensures var (f, s) := (9 * j + i, 150 * j + Offset(SCT_AUDIO, i));
      MergeUpTo(video, audio, f + 1) == MergeUpTo(video, audio, f)[s := audio[f]]
  {
    hide AudioSlot, AudioAt, SectionAt, Offset;
    var f, s := 9 * j + i, 150 * j + Offset(SCT_AUDIO, i);
    AudioPlace(j, i);
    forall t | 0 <= t < SLOTS && t != s ensures MergeUpTo(video, audio, f + 1)[t] == MergeUpTo(video, audio, f)[t] {
      if AudioSlot(t) && AudioAt(t) == f { AudioPlaceUnique(s, t); }
    }
  }

  lemma AudioPlace(j: nat, i: nat)
    requires j < DIFSEQ_NUM_PAL && i < 9
    ensures var s := 150 * j + Offset(SCT_AUDIO, i);
      s < SLOTS && AudioSlot(s) && AudioAt(s) == 9 * j + i
  {
    var o := 6 + 16 * i;
    var s := 150 * j + o;
    assert s == 150 * j + Offset(SCT_AUDIO, i);
    QuotientIs(s, j, o, 150);
    QuotientIs(16 * i, i, 0, 16);
    assert AudioSlot(s);
    assert SectionAt(s).1 == i;
  }

  lemma AudioPlaceUnique(s: nat, t: nat)
    requires s < SLOTS && t < SLOTS && AudioSlot(s) && AudioSlot(t) && AudioAt(s) == AudioAt(t)
    ensures s == t
  {
    AudioAtInRange(s);
    AudioAtInRange(t);
  }

  lemma MergeAll(maxdif: nat, video: Frame, audio: Frame)
    requires |video| == SLOTS && |audio| == AUDIO_SLOTS && maxdif <= DIFSEQ_NUM_PAL
    ensures MergeUpTo(video, audio, 0) == video
    ensures MergeUpTo(video, audio, 9 * maxdif) == Merge(maxdif, video, audio)
  {}

  // ----- silence -----

  /**
   The identifier of a silent block is the word the writer composes by shifting, and names the block's own
   audio slot.
   */
  lemma SilentBlockAddressesItsSlot(dseq: nat, dbn: nat)
    requires dseq < DIFSEQ_NUM_PAL && dbn < 9
    ensures IdWord(SilentBlock(dseq, dbn)) == SCT_AUDIO * 0x2000_0000 + dseq * 0x10_0000 + dbn * 0x100
    ensures R.Accepts(R.AudioRing, SilentBlock(dseq, dbn))
    ensures Slot(SilentBlock(dseq, dbn)) == 150 * dseq + 6 + 16 * dbn
    ensures AudioSlot(Slot(SilentBlock(dseq, dbn)))
    ensures AudioAt(Slot(SilentBlock(dseq, dbn))) == AudioIndex(SilentBlock(dseq, dbn))
  {
    SlotIdentifiesBlock(SilentBlock(dseq, dbn));
  }

  /** The loops before the writer's main loop. */
  method PrepareSilentAudio(silent: array<Block>, maxdif: nat)
    requires silent.Length == AUDIO_SLOTS && maxdif <= DIFSEQ_NUM_PAL
    modifies silent
    ensures silent[..] == SilentAudio(maxdif)
  {
    for i := 0 to silent.Length
      invariant forall p | 0 <= p < i :: silent[p] == ZeroBlock()
    {
      silent[i] := ZeroBlock();
    }
    for dseq := 0 to maxdif
      invariant forall p | 0 <= p < AUDIO_SLOTS ::
        silent[p] == if p < 9 * dseq then SilentBlock(p / 9, p % 9) else ZeroBlock()
    {
      for dbn := 0 to 9
        invariant forall p | 0 <= p < AUDIO_SLOTS ::
          silent[p] == if p < 9 * dseq + dbn then SilentBlock(p / 9, p % 9) else ZeroBlock()
      {
        silent[9 * dseq + dbn] := SilentBlock(dseq, dbn);
      }
    }
  }

  // ----- the processes -----

  /** The shape of a ring of video frames does not depend on the format. */
  lemma SameShape(m: nat, st: R.Store)
    ensures R.Shaped(R.VideoRing(m), st) <==> R.Shaped(R.VideoRing(0), st)
  {}

  class Player {
    const maxdif: nat

    const videoLock: array<Lock>
    const videoFrame: array<Frame>
    const recvFlag: array<seq<bool>>
    const audioLock: array<Lock>
    const audioFrame: array<Frame>
    const silentAudio: array<Block>

    // the buffers the reader stands on and the timestamps it has seen
    var readVideo: nat
    var readAudio: nat
    var tsPrev: nat
    var audioTsPrev: nat

    // the buffers the writer stands on, its count of frames without new audio, its output buffer
    var writeVideo: nat
    var writeAudio: nat
    var sameAudioCount: nat
    var dvframeBuf: Frame

    ghost var state: State

    ghost predicate Valid()
      reads this, videoLock, videoFrame, recvFlag, audioLock, audioFrame, silentAudio
    {
      && videoLock != audioLock && videoFrame != audioFrame
      && maxdif <= DIFSEQ_NUM_PAL
      && silentAudio[..] == SilentAudio(maxdif)
      && Playout.Bounds(state)
      && TracksVideo() && TracksAudio()
      && state.stale == sameAudioCount
    }

    ghost predicate TracksVideo()
      reads this, videoLock, videoFrame, recvFlag
    {
      && state.v.ring == Ring(videoLock[..], readVideo, writeVideo, state.v.ring.switches)
      && state.v.frame == videoFrame[..] && state.v.got == recvFlag[..] && state.v.tsPrev == tsPrev
    }

    ghost predicate TracksAudio()
      reads this, audioLock, audioFrame
    {
      && state.a.ring == Ring(audioLock[..], readAudio, writeAudio, state.a.ring.switches)
      && state.a.frame == audioFrame[..] && state.a.tsPrev == audioTsPrev
    }

    /** Both processes attached to zero-filled shared memory with this many buffers in each ring. */
    constructor (format: Format, frames: nat)
      requires frames >= 1
      ensures Valid() && maxdif == MaxDifseq(format)
      ensures var zero := ZeroBlock();
        state == Playout.Start(seq(frames, _ => seq(SLOTS, _ => zero)), seq(frames, _ => seq(AUDIO_SLOTS, _ => zero)))
    {
      var zero := ZeroBlock();
      var video, audio := seq(SLOTS, _ => zero), seq(AUDIO_SLOTS, _ => zero);
      maxdif := MaxDifseq(format);
      videoLock, audioLock := new Lock[frames](_ => Ready), new Lock[frames](_ => Ready);
      videoFrame, audioFrame := new Frame[frames](_ => video), new Frame[frames](_ => audio);
      recvFlag := new seq<bool>[frames](_ => seq(FLAGS, _ => false));
      silentAudio := new Block[AUDIO_SLOTS](_ => zero);
      readVideo, readAudio, tsPrev, audioTsPrev := 0, 0, 0, 0;
      writeVideo, writeAudio, sameAudioCount := 0, 0, 0;
      dvframeBuf := video;
      state := Playout.Start(seq(frames, _ => video), seq(frames, _ => audio));
      new;
      PrepareSilentAudio(silentAudio, maxdif);
      assert videoFrame[..] == state.v.frame && recvFlag[..] == state.v.got && videoLock[..] == state.v.ring.lock;
      assert audioFrame[..] == state.a.frame && audioLock[..] == state.a.ring.lock;
    }

    /** The reader's repair of a frame from the previous buffer: two nested loops over its flags. */
    method ConcealFrame()
      requires Valid()
      modifies videoFrame
      ensures videoFrame[..] == old(videoFrame[..])[readVideo := R.Finished(R.VideoRing(maxdif), state.v)]
    {
      hide R.Concealed, ConcealUpTo;
      var cur, prev := readVideo, Prev(readVideo, videoFrame.Length);
      var flags := recvFlag[cur];
      ghost var before := videoFrame[..];
      ConcealAll(maxdif, before[cur], before[prev], flags);
      for j := 0 to maxdif
        invariant videoFrame[..] == before[cur := ConcealUpTo(maxdif, before[cur], before[prev], flags, 135 * j)]
      {
        for k := 0 to 135
          invariant videoFrame[..] == before[cur := ConcealUpTo(maxdif, before[cur], before[prev], flags, 135 * j + k)]
        {
          ConcealNext(maxdif, before[cur], before[prev], flags, j, k);
          if !flags[135 * j + k] {
            var offset := 150 * j + 6 + 1 + k + k / 15;
            assert videoFrame[prev] == videoFrame[..][prev] && videoFrame[cur] == videoFrame[..][cur];
            videoFrame[cur] := videoFrame[cur][offset := videoFrame[prev][offset]];
          }
        }
      }
    }

    /** The reader changes to the next video frame. */
    method SwitchVideo(ts: nat)
      requires Valid()
      modifies this, videoLock, videoFrame, recvFlag
      ensures Valid() && state == old(state).(v := R.Finish(R.VideoRing(maxdif), old(state.v), ts))
    {
      hide R.Conceal, R.Finished;
      ConcealFrame();
      SameShape(maxdif, R.Finish(R.VideoRing(maxdif), state.v, ts));
      hide R.Shaped;
      videoLock[readVideo] := DataReady;
      readVideo := Next(readVideo, videoLock.Length);
      recvFlag[readVideo] := seq(FLAGS, _ => false);
      tsPrev := ts;
      state := state.(v := R.Finish(R.VideoRing(maxdif), state.v, ts));
    }

    method SwitchAudio(ts: nat)
      requires Valid()
      modifies this, audioLock
      ensures Valid() && state == old(state).(a := R.Finish(R.AudioRing, old(state.a), ts))
    {
      audioLock[readAudio] := DataReady;
      readAudio := Next(readAudio, audioLock.Length);
      audioTsPrev := ts;
      state := state.(a := R.Finish(R.AudioRing, state.a, ts));
    }

    /** The header, subcode, VAUX and video placement functions. */
    method ProcessSctVideo(b: Block)
      requires Valid() && R.Accepts(R.VideoRing(maxdif), b)
      modifies this, videoLock, videoFrame, recvFlag
      ensures Valid() && state == old(state).(v := R.Put(R.VideoRing(maxdif), old(state.v), b))
    {
      R.AcceptedPlace(R.VideoRing(maxdif), b);
      if videoLock[readVideo] != WritingData {
        videoLock[readVideo] := WritingData;
      }
      videoFrame[readVideo] := videoFrame[readVideo][150 * Dseq(b) + Offset(Sct(b), Dbn(b)) := b];
      if Sct(b) == SCT_VIDEO {
        recvFlag[readVideo] := recvFlag[readVideo][135 * Dseq(b) + Dbn(b) := true];
      }
      state := state.(v := R.Put(R.VideoRing(maxdif), state.v, b));
    }

    method ProcessSctAudio(b: Block)
      requires Valid() && R.Accepts(R.AudioRing, b)
      modifies this, audioLock, audioFrame
      ensures Valid() && state == old(state).(a := R.Put(R.AudioRing, old(state.a), b))
    {
      R.AcceptedPlace(R.AudioRing, b);
      if audioLock[readAudio] != WritingData {
        audioLock[readAudio] := WritingData;
      }
      audioFrame[readAudio] := audioFrame[readAudio][9 * Dseq(b) + Dbn(b) := b];
      state := state.(a := R.Put(R.AudioRing, state.a, b));
    }

    /** One DIF block of a packet with the given timestamp; a block of an unknown section is skipped. */
    method ReadDifBlock(ts: nat, b: Block)
      requires Valid() && Placeable(b)
      modifies this, videoLock, videoFrame, recvFlag, audioLock, audioFrame
      ensures Valid() && state == ReadBlock(maxdif, old(state), ts, b)
    {
      if Sct(b) > 4 {
        return;
      }
      if Sct(b) == SCT_AUDIO {
        if ts != audioTsPrev {
          SwitchAudio(ts);
        }
        ProcessSctAudio(b);
      } else {
        if ts != tsPrev {
          SwitchVideo(ts);
        }
        ProcessSctVideo(b);
      }
    }

    /** The blocks of one packet. */
    method ReadPacket(ts: nat, payload: seq<Block>)
      requires Valid() && forall i | 0 <= i < |payload| :: Placeable(payload[i])
      modifies this, videoLock, videoFrame, recvFlag, audioLock, audioFrame
      ensures Valid() && state == Run(maxdif, old(state), Arrivals(ts, payload))
    {
      ghost var first, acts := state, Arrivals(ts, payload);
      for i := 0 to |payload|
        invariant Valid() && state == Run(maxdif, first, acts[..i])
      {
        assert acts[..i + 1][..i] == acts[..i];
        ReadDifBlock(ts, payload[i]);
      }
      assert acts[..|payload|] == acts;
    }

    /** The buffers and the block of silence have the sizes the writer's copying loops count on. */
    ghost predicate Sized()
      reads this, videoLock, videoFrame, audioLock, audioFrame
    {
      && maxdif <= DIFSEQ_NUM_PAL && videoLock != audioLock && videoFrame != audioFrame
      && silentAudio.Length == AUDIO_SLOTS
      && writeVideo < videoFrame.Length == videoLock.Length
      && (forall i | 0 <= i < videoFrame.Length :: |videoFrame[i]| == SLOTS)
      && writeAudio < audioFrame.Length == audioLock.Length
      && (forall i | 0 <= i < audioFrame.Length :: |audioFrame[i]| == AUDIO_SLOTS)
    }

    lemma ValidSized()
      requires Valid()
      ensures Sized()
    {}

    /** Copies the audio blocks, or silence, into the writer's video frame. */
    method MergeAudio(silent: bool)
      requires Sized()
      modifies videoFrame
      ensures var audio := if silent then silentAudio[..] else audioFrame[writeAudio];
        videoFrame[..] == old(videoFrame[..])[writeVideo := Merge(maxdif, old(videoFrame[writeVideo]), audio)]
    {
      var w := writeVideo;
      ghost var before := videoFrame[..];
      ghost var audio := if silent then silentAudio[..] else audioFrame[writeAudio];
      MergeAll(maxdif, before[w], audio);
      for dseq := 0 to maxdif
        invariant videoFrame[..] == before[w := MergeUpTo(before[w], audio, 9 * dseq)]
      {
        for i := 0 to 9
          invariant videoFrame[..] == before[w := MergeUpTo(before[w], audio, 9 * dseq + i)]
        {
          MergeNext(before[w], audio, dseq, i);
          assert videoFrame[w] == videoFrame[..][w];
          if silent {
            videoFrame[w] := videoFrame[w][150 * dseq + (6 + i * 16) := silentAudio[9 * dseq + i]];
          } else {
            videoFrame[w] := videoFrame[w][150 * dseq + (6 + i * 16) := audioFrame[writeAudio][9 * dseq + i]];
          }
        }
      }
    }

    /**
     Moves to the next video buffer if its frame is complete; releasing the lock taken is all that is left of
     the step.
     */
    method TakeVideo()
      requires Playout.Bounds(state) && TracksVideo()
      modifies `writeVideo, videoLock
      ensures var g := WriterStep(old(state.v.ring));
        writeVideo == g.w && videoLock[..][g.w := Ready] == g.lock
    {
      var next := Next(writeVideo, videoLock.Length);
      if videoLock[next] == DataReady {
        writeVideo := next;
        videoLock[writeVideo] := WritingIeee1394;
      }
    }

    /** The same for audio, counting the calls that find no new frame; `mute` says that MUTE AUDIO was printed. */
    method TakeAudio() returns (silent: bool, mute: bool)
      requires Playout.Bounds(state) && TracksAudio()
      modifies `writeAudio, `sameAudioCount, audioLock
      ensures var g := WriterStep(old(state.a.ring));
        writeAudio == g.w && audioLock[..][g.w := Ready] == g.lock
      ensures var count := if Fresh(old(state.a.ring)) then 0 else old(sameAudioCount) + 1;
        silent == (count > 5) && mute == (count == 6) && sameAudioCount == if silent then 10 else count
    {
      silent, mute := false, false;
      var next := Next(writeAudio, audioLock.Length);
      if audioLock[next] == DataReady {
        sameAudioCount := 0;
        writeAudio := next;
        audioLock[writeAudio] := WritingIeee1394;
      } else {
        sameAudioCount := sameAudioCount + 1;
        if sameAudioCount > 5 {
          mute := sameAudioCount == 6;
          sameAudioCount := 10;
          silent := true;
        }
      }
    }

    /** Builds the frame to transmit in place, copies it out and releases both buffers. */
    method MergeAndRelease(silent: bool)
      requires Sized()
      modifies videoFrame, videoLock, audioLock, `dvframeBuf
      ensures var audio := if silent then silentAudio[..] else audioFrame[writeAudio];
        && dvframeBuf == Merge(maxdif, old(videoFrame[writeVideo]), audio)
        && videoFrame[..] == old(videoFrame[..])[writeVideo := dvframeBuf]
      ensures videoLock[..] == old(videoLock[..])[writeVideo := Ready]
      ensures audioLock[..] == old(audioLock[..])[writeAudio := Ready]
    {
      hide Merge;
      MergeAudio(silent);
      dvframeBuf := videoFrame[..][writeVideo];
      videoLock[writeVideo] := Ready;
      audioLock[writeAudio] := Ready;
    }

    /** One call of `_fill_buffer`. */
    method FillBuffer() returns (mute: bool)
      requires Valid()
      modifies this, videoLock, videoFrame, audioLock
      ensures Valid() && state == Playout.FillBuffer(maxdif, old(state))
      ensures var o := state.out[|old(state.out)|]; dvframeBuf == o.frame && mute == o.muted
    {
      hide Merge, SilentAudio, Fresh, Number, Filling, R.Shaped, Playout.Bounds;
      ValidSized();
      TakeVideo();
      var silent;
      silent, mute := TakeAudio();
      MergeAndRelease(silent);
      state := Playout.FillBuffer(maxdif, state);
    }
  }
}
