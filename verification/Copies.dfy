/** The redundant copies the sender makes of its audio: all of them, each as often as asked, and nothing else. */
module Copies {
  import opened Dif
  import opened Modular
  import opened Lists
  import opened Packetiser
  import opened PacketiserLaws

  /** All audio read so far, whatever becomes of it in the other streams. */
  function AudioSeen(bs: seq<Block>): seq<Block> {
    if bs == [] then []
    else
      var (rest, b) := (bs[..|bs| - 1], bs[|bs| - 1]);
      AudioSeen(rest) + (if IsAudio(b) then [b] else [])
  }

  /** What the copies sent hold, in sending order. */
  function CopyPayloads(log: seq<Event>): seq<seq<Block>> {
    if log == [] then []
    else
      var (rest, e) := (log[..|log| - 1], log[|log| - 1]);
      CopyPayloads(rest) + (if e.Copy? then [e.packet.payload] else [])
  }

  lemma CopyPayloadsSnoc(log: seq<Event>, e: Event)
    ensures CopyPayloads(log + [e]) == CopyPayloads(log) + (if e.Copy? then [e.packet.payload] else [])
  {}

  /** The copies are full packets of these contents, each sent once per redundancy; behind them comes the buffer. */
  ghost predicate CopiesOf(c: Config, seen: seq<Block>, t: Tx, groups: seq<seq<Block>>) {
    && CopyPayloads(t.log) == Repeated(groups, c.redundancy)
    && (forall i | 0 <= i < |groups| :: |groups[i]| == c.blocksInPkt)
    && Flatten(groups) + t.red == seen
    && |t.red| < c.blocksInPkt
  }

  /** With redundancy the audio seen is cut into copies; without, there are none. */
  ghost predicate CopiesLaw(c: Config, seen: seq<Block>, t: Tx) {
    if c.redundancy == 0 then CopyPayloads(t.log) == [] && t.red == []
    else exists groups :: CopiesOf(c, seen, t, groups)
  }

  lemma {:induction false} SendCopiesPayloads(t: Tx, n: nat)
    ensures CopyPayloads(SendCopies(t, n).log) == CopyPayloads(t.log) + Times(t.red, n)
    ensures SendCopies(t, n) == t.(seqno := SendCopies(t, n).seqno, log := SendCopies(t, n).log)
  {
    if n > 0 {
      SendCopiesPayloads(t, n - 1);
      var u := SendCopies(t, n - 1);
      CopyPayloadsSnoc(u.log, Copy(u.flushes, Packet(u.seqno, u.ts, u.red)));
    }
  }

  lemma AddToROutbufCopies(c: Config, seen: seq<Block>, t: Tx, b: Block)
    requires Valid(c) && c.redundancy > 0 && CopiesLaw(c, seen, t)
    ensures CopiesLaw(c, seen + [b], AddToROutbuf(c, t, b))
  {
    var groups :| CopiesOf(c, seen, t, groups);
    var u, v := t.(red := t.red + [b]), AddToROutbuf(c, t, b);
    assert Flatten(groups) + u.red == seen + [b];
    if |u.red| > c.blocksInPkt - 1 {
      SendCopiesPayloads(u, c.redundancy);
      RepeatedSnoc(groups, u.red, c.redundancy);
      FlattenSnoc(groups, u.red);
      assert CopiesOf(c, seen + [b], v, groups + [u.red]);
    } else {
      assert CopiesOf(c, seen + [b], v, groups);
    }
  }

  /** Nothing but the redundant buffer sends copies. */
  lemma OtherStepsCopy(c: Config, t: Tx, b: Block)
    ensures CopyPayloads(AddToOutbuf(c, t, b).log) == CopyPayloads(t.log) && AddToOutbuf(c, t, b).red == t.red
    ensures AddToAudioOutbuf(c, t, b).log == t.log && AddToAudioOutbuf(c, t, b).red == t.red
    ensures CopyPayloads(Flush(c, t).log) == CopyPayloads(t.log) && Flush(c, t).red == t.red
  {
    CopyPayloadsSnoc(t.log, Main(t.flushes, Packet(t.seqno, t.ts, t.out + [b])));
    CopyPayloadsSnoc(t.log, Main(t.flushes, Packet(t.seqno, t.ts, t.out)));
    CopyPayloadsSnoc(t.log, EmptyFlush(t.flushes));
  }

  lemma SameCopies(c: Config, seen: seq<Block>, t: Tx, u: Tx)
    requires CopiesLaw(c, seen, t) && CopyPayloads(u.log) == CopyPayloads(t.log) && u.red == t.red
    ensures CopiesLaw(c, seen, u)
  {
    if c.redundancy > 0 {
      var groups :| CopiesOf(c, seen, t, groups);
      assert CopiesOf(c, seen, u, groups);
    }
  }

  lemma StepCopies(c: Config, seen: seq<Block>, t: Tx, b: Block)
    requires Valid(c) && CopiesLaw(c, seen, t)
    ensures CopiesLaw(c, seen + (if IsAudio(b) then [b] else []), Packetiser.Step(c, t, b))
  {
    hide CopiesLaw, AddToOutbuf, AddToAudioOutbuf, AddToROutbuf, Flush, CopyPayloads;
    assert seen + [] == seen;
    OtherStepsCopy(c, t, b);
    if IsAudio(b) {
      var u := if c.noAudio then t else if c.separateAudio then AddToAudioOutbuf(c, t, b) else AddToOutbuf(c, t, b);
      SameCopies(c, seen, t, u);
      if c.redundancy > 0 { AddToROutbufCopies(c, seen, u, b); } else { NoCopies(c, seen, u, b); }
    } else {
      OtherStepsCopy(c, AddToOutbuf(c, t, b), b);
      SameCopies(c, seen, t, Packetiser.Step(c, t, b));
    }
  }

  lemma NoCopies(c: Config, seen: seq<Block>, t: Tx, b: Block)
    requires c.redundancy == 0 && CopiesLaw(c, seen, t)
    ensures CopiesLaw(c, seen + [b], t)
  {}

  /**
   In every run, at every point: the audio blocks seen are the contents of the copies, one of each group, and
   then the buffer, in order; each group is one full packet sent `redundancy` times.
   */
  lemma {:induction false} RunCopies(c: Config, t0: Tx, bs: seq<Block>)
    requires Valid(c) && IsInit(t0)
    ensures CopiesLaw(c, AudioSeen(bs), Packetiser.Run(c, t0, bs))
  {
    hide CopiesLaw, Packetiser.Step;
    if bs == [] {
      StartCopies(c, t0);
    } else {
      RunCopies(c, t0, bs[..|bs| - 1]);
      StepCopies(c, AudioSeen(bs[..|bs| - 1]), Packetiser.Run(c, t0, bs[..|bs| - 1]), bs[|bs| - 1]);
    }
  }

  lemma StartCopies(c: Config, t0: Tx)
    requires Valid(c) && IsInit(t0)
    ensures CopiesLaw(c, [], t0)
  {
    assert c.redundancy > 0 ==> CopiesOf(c, [], t0, []);
  }

  /** So there are `redundancy` copies for every `blocksInPkt` audio blocks. */
  lemma CopiesCounted(c: Config, t0: Tx, bs: seq<Block>)
    requires Valid(c) && IsInit(t0)
    ensures var t := Packetiser.Run(c, t0, bs);
      && |CopyPayloads(t.log)| == c.redundancy * (|AudioSeen(bs)| / c.blocksInPkt)
      && (c.redundancy > 0 ==> |t.red| == |AudioSeen(bs)| % c.blocksInPkt)
  {
    var t, seen, d := Packetiser.Run(c, t0, bs), AudioSeen(bs), c.blocksInPkt;
    RunCopies(c, t0, bs);
    if c.redundancy > 0 {
      var groups :| CopiesOf(c, seen, t, groups);
      FlattenLength(groups, d);
      RepeatedLength(groups, c.redundancy);
      QuotientIs(|seen|, |groups|, |t.red|, d);
    }
  }
}
