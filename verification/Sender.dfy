/** The sender's static variables and the functions that change them (dvsend/rtp.c), kept equal to their `Tx` value. */
module Sender {
  import opened Dif
  import opened Packetiser
  import Laws = PacketiserLaws

  /** Room for blocks in a 1500-byte buffer, after the 12-byte header. */
  const CAPACITY := 18

  class Packer {
    const c: Config

    const outbuf: array<Block>
    var outLen: nat
    const rOutbuf: array<Block>
    var rOutLen: nat
    const audiobuf: array<Block>
    var audioLen: nat

    var seqno: nat
    var ts: nat
    var audioSeqno: nat
    var audioTs: nat
    var frame: nat

    /** Everything given to `send_pkt` and to `send_audio_pkt`. */
    var wire: seq<Packet>
    var audioWire: seq<Packet>

    ghost var sent: Tx

    ghost predicate Valid()
      reads this, outbuf, rOutbuf, audiobuf
    {
      && Packetiser.Valid(c)
      && outbuf != rOutbuf && outbuf != audiobuf && rOutbuf != audiobuf
      && outbuf.Length == rOutbuf.Length == audiobuf.Length == CAPACITY
      && outLen < c.blocksInPkt && rOutLen < c.blocksInPkt && audioLen < c.blocksInPkt
      && Tracks()
    }

    /** The variables are the fields of `sent`. */
    ghost predicate Tracks()
      reads this, outbuf, rOutbuf, audiobuf
    {
      && outLen <= outbuf.Length && rOutLen <= rOutbuf.Length && audioLen <= audiobuf.Length
      && sent.out == outbuf[..outLen] && sent.red == rOutbuf[..rOutLen] && sent.aud == audiobuf[..audioLen]
      && sent.seqno == seqno && sent.ts == ts && sent.aseq == audioSeqno && sent.ats == audioTs
      && sent.frame == frame
      && wire == Packets(sent.log) && audioWire == Packets(sent.alog)
    }

    /** `proc_dvdif_init`; the arguments stand for the random numbers it draws. */
    constructor (c: Config, seqno: nat, ts: nat, audioSeqno: nat, audioTs: nat)
      requires Packetiser.Valid(c) && seqno < TWO16 && ts < TWO32 && audioSeqno < TWO16 && audioTs < TWO32
      ensures Valid() && this.c == c && IsInit(sent) && sent == Init(seqno, ts, audioSeqno, audioTs)
    {
      var zero := Block(0, 0, 0, 0, []);
      this.c := c;
      outbuf, outLen := new Block[CAPACITY](_ => zero), 0;
      rOutbuf, rOutLen := new Block[CAPACITY](_ => zero), 0;
      audiobuf, audioLen := new Block[CAPACITY](_ => zero), 0;
      this.seqno, this.ts, this.audioSeqno, this.audioTs := seqno, ts, audioSeqno, audioTs;
      frame := 1;
      wire, audioWire := [], [];
      sent := Init(seqno, ts, audioSeqno, audioTs);
    }

    /** Records an event of the main stream; unless it is an empty flush, its packet goes to the network. */
    ghost predicate Recorded(before: Tx, e: Event)
      reads this
    {
      sent == before.(log := before.log + [e]) && wire == Packets(sent.log)
    }

    method SendPkt(packet: Packet, ghost e: Event)
      requires !e.EmptyFlush? && e.packet == packet && wire == Packets(sent.log)
      modifies `wire, `sent
      ensures Recorded(old(sent), e) && wire == old(wire) + [packet]
    {
      wire := wire + [packet];
      PacketsSnoc(sent.log, e);
      sent := sent.(log := sent.log + [e]);
    }

    method SendAudioPkt(packet: Packet, ghost e: Event)
      requires e.Main? && e.packet == packet && audioWire == Packets(sent.alog)
      modifies `audioWire, `sent
      ensures sent == old(sent).(alog := old(sent.alog) + [e])
      ensures audioWire == Packets(sent.alog) && audioWire == old(audioWire) + [packet]
    {
      audioWire := audioWire + [packet];
      PacketsSnoc(sent.alog, e);
      sent := sent.(alog := sent.alog + [e]);
    }

    method AddDvdifToOutbuf(b: Block)
      requires Valid()
      modifies this, outbuf
      ensures Valid() && sent == AddToOutbuf(c, old(sent), b)
    {
      hide Packets;
      outbuf[outLen] := b;
      assert outbuf[..outLen + 1] == old(outbuf[..outLen]) + [b];
      outLen := outLen + 1;
      sent := sent.(out := sent.out + [b]);
      if outLen > c.blocksInPkt - 1 {
        var packet := Packet(seqno, ts, outbuf[..outLen]);
        SendPkt(packet, Main(sent.flushes, packet));
        outLen := 0;
        seqno := (seqno + 1) % TWO16;
        sent := sent.(out := [], seqno := seqno);
      }
    }

    method AddDvdifToROutbuf(b: Block)
      requires Valid()
      modifies this, rOutbuf
      ensures Valid() && sent == AddToROutbuf(c, old(sent), b)
    {
      hide Packets;
      rOutbuf[rOutLen] := b;
      assert rOutbuf[..rOutLen + 1] == old(rOutbuf[..rOutLen]) + [b];
      rOutLen := rOutLen + 1;
      sent := sent.(red := sent.red + [b]);
      if rOutLen > c.blocksInPkt - 1 {
        SendROutbuf();
        rOutLen := 0;
        sent := sent.(red := []);
      }
    }

    /**
     The full redundant buffer goes out as often as the redundancy asks, each time under the main stream's
     current header.
     */
    method SendROutbuf()
      requires Tracks()
      modifies `seqno, `wire, `sent
      ensures Tracks() && sent == SendCopies(old(sent), c.redundancy)
    {
      hide Packets;
      ghost var filled := sent;
      for i := 0 to c.redundancy
        invariant Tracks() && sent == SendCopies(filled, i)
      {
        var packet := Packet(seqno, ts, rOutbuf[..rOutLen]);
        SendPkt(packet, Copy(sent.flushes, packet));
        seqno := (seqno + 1) % TWO16;
        sent := sent.(seqno := seqno);
      }
    }

    method AddDvdifToAudioOutbuf(b: Block)
      requires Valid()
      modifies this, audiobuf
      ensures Valid() && sent == AddToAudioOutbuf(c, old(sent), b)
    {
      hide Packets;
      audiobuf[audioLen] := b;
      assert audiobuf[..audioLen + 1] == old(audiobuf[..audioLen]) + [b];
      audioLen := audioLen + 1;
      sent := sent.(aud := sent.aud + [b]);
      if audioLen > c.blocksInPkt - 1 {
        var packet := Packet(audioSeqno, audioTs, audiobuf[..audioLen]);
        SendAudioPkt(packet, Main(sent.flushes, packet));
        audioLen := 0;
        audioSeqno := (audioSeqno + 1) % TWO16;
        sent := sent.(aud := [], aseq := audioSeqno);
      }
    }

    method SendPending()
      requires Tracks()
      modifies `outLen, `wire, `sent
      ensures Tracks() && outLen == 0
      ensures var t := old(sent);
        var e := if |t.out| > 0 then Main(t.flushes, Packet(t.seqno, t.ts, t.out)) else EmptyFlush(t.flushes);
        sent == t.(out := [], log := t.log + [e])
    {
      hide Packets;
      if outLen > 0 {
        var packet := Packet(seqno, ts, outbuf[..outLen]);
        SendPkt(packet, Main(sent.flushes, packet));
        outLen := 0;
        sent := sent.(out := []);
      } else {
        PacketsSnoc(sent.log, EmptyFlush(sent.flushes));
        sent := sent.(log := sent.log + [EmptyFlush(sent.flushes)]);
      }
    }

    method FlushOutbuf()
      requires Valid()
      modifies this
      ensures Valid() && sent == FlushMain(old(sent))
    {
      hide Packets;
      SendPending();
      seqno := (seqno + 1) % TWO16;
      ts := (ts + TICKS) % TWO32;
      frame := (frame + 1) % TWO32;
      sent := sent.(seqno := seqno, ts := ts, frame := frame, flushes := sent.flushes + 1);
    }

    method DvdifFlush()
      requires Valid()
      modifies this
      ensures Valid() && sent == Flush(c, old(sent))
    {
      hide Packets;
      ghost var finished := sent.flushes;
      FlushOutbuf();
      if c.separateAudio {
        if audioLen > 0 {
          var packet := Packet(audioSeqno, audioTs, audiobuf[..audioLen]);
          SendAudioPkt(packet, Main(finished, packet));
          audioLen := 0;
          audioTs := (audioTs + TICKS) % TWO32;
          audioSeqno := (audioSeqno + 1) % TWO16;
          sent := sent.(aud := [], ats := audioTs, aseq := audioSeqno);
        }
      }
    }

    method ProcessSctAudio(b: Block)
      requires Valid()
      modifies this, outbuf, rOutbuf, audiobuf
      ensures Valid() && sent == ProcessAudio(c, old(sent), b)
    {
      hide AddToOutbuf, AddToROutbuf, AddToAudioOutbuf;
      if c.noAudio {
      } else if c.separateAudio {
        AddDvdifToAudioOutbuf(b);
      } else {
        AddDvdifToOutbuf(b);
      }
      if c.redundancy > 0 {
        AddDvdifToROutbuf(b);
      }
    }

    method ProcessSctVideo(b: Block)
      requires Valid() && Sct(b) == SCT_VIDEO
      modifies this, outbuf
      ensures Valid() && sent == ProcessVideo(c, old(sent), b)
    {
      hide AddToOutbuf, Flush;
      if c.noVideo {
      } else if c.frameDrop > 1 && frame % c.frameDrop != 0 {
      } else {
        AddDvdifToOutbuf(b);
      }
      if Dseq(b) == MaxDifseq(c.format) - 1 && Dbn(b) == 134 {
        DvdifFlush();
      }
    }

    /** One DIF block; a block of an unknown section is ignored. */
    method ProcDvdif(b: Block)
      requires Valid()
      modifies this, outbuf, rOutbuf, audiobuf
      ensures Valid() && sent == Step(c, old(sent), b)
    {
      var sct := Sct(b);
      if sct > 4 {
        return;
      }
      if sct == SCT_AUDIO {
        ProcessSctAudio(b);
      } else if sct == SCT_VIDEO {
        ProcessSctVideo(b);
      } else if c.frameDrop > 1 && frame % c.frameDrop != 0 {
        // dropped with its frame
      } else {
        AddDvdifToOutbuf(b);
      }
    }

    /** The main loop over the blocks read from the device: everything admitted is in the log or in the buffer. */
    method SendAll(blocks: seq<Block>)
      requires Valid() && IsInit(sent)
      modifies this, outbuf, rOutbuf, audiobuf
      ensures Valid() && sent == Run(c, old(sent), blocks)
      ensures Unpack(sent.log) + Stamp(sent.flushes, outbuf[..outLen]) == Admitted(c, blocks)
      ensures Laws.FlushLaw(c, Admitted(c, blocks), sent)
    {
      ghost var first := sent;
      for i := 0 to |blocks|
        invariant Valid() && sent == Run(c, first, blocks[..i])
      {
        assert blocks[..i + 1][..i] == blocks[..i];
        ProcDvdif(blocks[i]);
      }
      assert blocks[..|blocks|] == blocks;
      Laws.SenderConserves(c, first, blocks);
      Laws.NumberSkippedIffPacketsAreFull(c, first, blocks);
    }
  }
}
