/**
 The sender: DIF blocks are packed into RTP packets (dvsend/rtp.c).

 `Tx` is the value of all the sender's static variables. Two of its fields are
 history: `flushes` counts the finished frames and `log` lists what happened to
 the main sequence number: every packet handed to the network, and every end of
 frame that found the main buffer empty and still consumed a number.
 */
module Packetiser {
  import opened Dif
  import opened Modular

  datatype Config = Config(format: Format, blocksInPkt: nat, frameDrop: int, redundancy: nat,
                           noVideo: bool, noAudio: bool, separateAudio: bool)

  datatype Packet = Packet(seqno: nat, ts: nat, payload: seq<Block>)

  datatype Event =
    | Main(frame: nat, packet: Packet)
    | Copy(frame: nat, packet: Packet)
    | EmptyFlush(frame: nat)

  datatype Tx = Tx(out: seq<Block>, red: seq<Block>, aud: seq<Block>,
                   seqno: nat, ts: nat, aseq: nat, ats: nat,
                   frame: nat, flushes: nat, log: seq<Event>, alog: seq<Event>)

  const TICKS := 3003

  /** A packet has one to seventeen blocks (the buffers hold eighteen after the header); the drop rate is a C int. */
  predicate Valid(c: Config) { 1 <= c.blocksInPkt <= 17 && c.frameDrop < 0x8000_0000 }

  /** `frame` is the sender's own 32-bit frame counter, which starts at 1. */
  predicate Drops(c: Config, frame: nat) { c.frameDrop > 1 && frame % c.frameDrop != 0 }

  function Init(seqno: nat, ts: nat, aseq: nat, ats: nat): Tx {
    Tx([], [], [], seqno, ts, aseq, ats, 1, 0, [], [])
  }

  predicate IsInit(t: Tx) {
    && t == Init(t.seqno, t.ts, t.aseq, t.ats)
    && t.seqno < TWO16 && t.ts < TWO32 && t.aseq < TWO16 && t.ats < TWO32
  }

  function AddToOutbuf(c: Config, t: Tx, b: Block): Tx {
    var out := t.out + [b];
    if |out| > c.blocksInPkt - 1 then
      t.(out := [], seqno := (t.seqno + 1) % TWO16,
         log := t.log + [Main(t.flushes, Packet(t.seqno, t.ts, out))])
    else
      t.(out := out)
  }

  function SendCopies(t: Tx, n: nat): Tx {
    if n == 0 then t
    else
      var u := SendCopies(t, n - 1);
      u.(seqno := (u.seqno + 1) % TWO16, log := u.log + [Copy(u.flushes, Packet(u.seqno, u.ts, u.red))])
  }

  function AddToROutbuf(c: Config, t: Tx, b: Block): Tx {
    var u := t.(red := t.red + [b]);
    if |u.red| > c.blocksInPkt - 1 then SendCopies(u, c.redundancy).(red := []) else u
  }

  function AddToAudioOutbuf(c: Config, t: Tx, b: Block): Tx {
    var aud := t.aud + [b];
    if |aud| > c.blocksInPkt - 1 then
      t.(aud := [], aseq := (t.aseq + 1) % TWO16,
         alog := t.alog + [Main(t.flushes, Packet(t.aseq, t.ats, aud))])
    else
      t.(aud := aud)
  }

  function FlushMain(t: Tx): Tx {
    t.(out := [], seqno := (t.seqno + 1) % TWO16, ts := (t.ts + TICKS) % TWO32,
       frame := (t.frame + 1) % TWO32, flushes := t.flushes + 1,
       log := t.log + [if |t.out| > 0 then Main(t.flushes, Packet(t.seqno, t.ts, t.out)) else EmptyFlush(t.flushes)])
  }

  /** `frame` is the frame just finished, to which the pending audio blocks belong. */
  function FlushAudio(c: Config, t: Tx, frame: nat): Tx {
    if c.separateAudio && |t.aud| > 0 then
      t.(aud := [], aseq := (t.aseq + 1) % TWO16, ats := (t.ats + TICKS) % TWO32,
         alog := t.alog + [Main(frame, Packet(t.aseq, t.ats, t.aud))])
    else t
  }

  function Flush(c: Config, t: Tx): Tx { FlushAudio(c, FlushMain(t), t.flushes) }

  function ProcessAudio(c: Config, t: Tx, b: Block): Tx {
    var u := if c.noAudio then t else if c.separateAudio then AddToAudioOutbuf(c, t, b) else AddToOutbuf(c, t, b);
    if c.redundancy > 0 then AddToROutbuf(c, u, b) else u
  }

  function ProcessVideo(c: Config, t: Tx, b: Block): Tx {
    var u := if c.noVideo || Drops(c, t.frame) then t else AddToOutbuf(c, t, b);
    if EndOfFrame(c.format, b) then Flush(c, u) else u
  }

  /** One call of `proc_dvdif`. */
  function Step(c: Config, t: Tx, b: Block): Tx {
    if Sct(b) > 4 then t
    else if Sct(b) == SCT_AUDIO then ProcessAudio(c, t, b)
    else if Sct(b) == SCT_VIDEO then ProcessVideo(c, t, b)
    else if Drops(c, t.frame) then t
    else AddToOutbuf(c, t, b)
  }

  function Run(c: Config, t: Tx, bs: seq<Block>): Tx {
    if bs == [] then t else Step(c, Run(c, t, bs[..|bs| - 1]), bs[|bs| - 1])
  }

  /** The packets handed to the network, in order. */
  function Packets(log: seq<Event>): seq<Packet> {
    if log == [] then []
    else
      var (rest, e) := (log[..|log| - 1], log[|log| - 1]);
      Packets(rest) + (if e.EmptyFlush? then [] else [e.packet])
  }

  lemma PacketsSnoc(log: seq<Event>, e: Event)
    ensures Packets(log + [e]) == Packets(log) + (if e.EmptyFlush? then [] else [e.packet])
  {}

  // ----- what ought to be sent, said without the buffers -----

  datatype Stamped = Stamped(frame: nat, block: Block)

  /** How many frames a stream of blocks completes. */
  function Completed(format: Format, bs: seq<Block>): nat {
    if bs == [] then 0
    else Completed(format, bs[..|bs| - 1]) + (if EndOfFrame(format, bs[|bs| - 1]) then 1 else 0)
  }

  /** The value of the sender's frame counter while it reads the n-th frame, counted from 0. */
  function CounterOf(n: nat): nat { (n + 1) % TWO32 }

  function TimestampOf(ts0: nat, n: nat): nat { (ts0 + TICKS * n) % TWO32 }

  predicate Admits(c: Config, n: nat, b: Block) {
    && Sct(b) <= 4
    && if IsAudio(b) then !c.noAudio && !c.separateAudio
       else !(c.noVideo && Sct(b) == SCT_VIDEO) && !Drops(c, CounterOf(n))
  }

  predicate AdmitsAudio(c: Config, b: Block) { IsAudio(b) && !c.noAudio && c.separateAudio }

  /** The blocks that belong in the main stream, in order, each with the number of its frame. */
  function Admitted(c: Config, bs: seq<Block>): seq<Stamped> {
    if bs == [] then []
    else
      var (rest, b) := (bs[..|bs| - 1], bs[|bs| - 1]);
      var n := Completed(c.format, rest);
      Admitted(c, rest) + (if Admits(c, n, b) then [Stamped(n, b)] else [])
  }

  /** The same for the separate audio stream. */
  function AdmittedAudio(c: Config, bs: seq<Block>): seq<Stamped> {
    if bs == [] then []
    else
      var (rest, b) := (bs[..|bs| - 1], bs[|bs| - 1]);
      AdmittedAudio(c, rest) + (if AdmitsAudio(c, b) then [Stamped(Completed(c.format, rest), b)] else [])
  }

  function Stamp(frame: nat, bs: seq<Block>): seq<Stamped> {
    seq(|bs|, i requires 0 <= i < |bs| => Stamped(frame, bs[i]))
  }

  /** The blocks of the packets sent first-hand (not as redundant copies), in sending order. */
  function Unpack(log: seq<Event>): seq<Stamped> {
    if log == [] then []
    else
      var (rest, e) := (log[..|log| - 1], log[|log| - 1]);
      Unpack(rest) + (if e.Main? then Stamp(e.frame, e.packet.payload) else [])
  }

  function InFrame(ss: seq<Stamped>, n: nat): nat {
    if ss == [] then 0
    else InFrame(ss[..|ss| - 1], n) + (if ss[|ss| - 1].frame == n then 1 else 0)
  }

  // ----- what one call keeps of the numbering -----

  lemma NextTimestamp(ts0: nat, n: nat)
    ensures (TimestampOf(ts0, n) + TICKS) % TWO32 == TimestampOf(ts0, n + 1)
  {}

  /** The i-th event carries the i-th sequence number, and its packet is well formed. */
  ghost predicate WellNumbered(c: Config, t0: Tx, e: Event, i: nat) {
    e.EmptyFlush? ||
    (&& 1 <= |e.packet.payload| <= c.blocksInPkt
     && e.packet.seqno == (t0.seqno + i) % TWO16
     && e.packet.ts == TimestampOf(t0.ts, e.frame))
  }

  ghost predicate LogNumbered(c: Config, t0: Tx, log: seq<Event>) {
    forall i | 0 <= i < |log| :: WellNumbered(c, t0, log[i], i)
  }

  /** The sender's clocks and numbers, and the shape of everything sent. */
  ghost predicate Numbered(c: Config, t0: Tx, t: Tx) {
    && |t.out| < c.blocksInPkt
    && t.frame == CounterOf(t.flushes)
    && t.ts == TimestampOf(t0.ts, t.flushes)
    && t.seqno == (t0.seqno + |t.log|) % TWO16
    && LogNumbered(c, t0, t.log)
  }

  /** Recording an event that carries the current number, and moving to the next one, keeps the numbering. */
  lemma RecordKeepsNumbered(c: Config, t0: Tx, t: Tx, e: Event, u: Tx)
    requires Numbered(c, t0, t) && WellNumbered(c, t0, e, |t.log|)
    requires u.log == t.log + [e] && u.seqno == (t.seqno + 1) % TWO16
    requires |u.out| < c.blocksInPkt && u.flushes == t.flushes && u.frame == t.frame && u.ts == t.ts
    ensures Numbered(c, t0, u)
  {}

  lemma {:induction false} SendCopiesNumbered(c: Config, t0: Tx, t: Tx, n: nat)
    requires 1 <= |t.red| <= c.blocksInPkt && Numbered(c, t0, t)
    ensures Numbered(c, t0, SendCopies(t, n))
    ensures SendCopies(t, n) == t.(seqno := SendCopies(t, n).seqno, log := SendCopies(t, n).log)
  {
    if n > 0 {
      SendCopiesNumbered(c, t0, t, n - 1);
      var u := SendCopies(t, n - 1);
      RecordKeepsNumbered(c, t0, u, Copy(u.flushes, Packet(u.seqno, u.ts, u.red)), SendCopies(t, n));
    }
  }

  lemma AddToOutbufNumbered(c: Config, t0: Tx, t: Tx, b: Block)
    requires Valid(c) && Numbered(c, t0, t)
    ensures Numbered(c, t0, AddToOutbuf(c, t, b))
  {}

  lemma AddToROutbufNumbered(c: Config, t0: Tx, t: Tx, b: Block)
    requires Valid(c) && Numbered(c, t0, t) && |t.red| < c.blocksInPkt
    ensures Numbered(c, t0, AddToROutbuf(c, t, b)) && |AddToROutbuf(c, t, b).red| < c.blocksInPkt
    ensures AddToROutbuf(c, t, b).flushes == t.flushes
  {
    var u := t.(red := t.red + [b]);
    if |u.red| > c.blocksInPkt - 1 { SendCopiesNumbered(c, t0, u, c.redundancy); }
  }

  lemma FlushNumbered(c: Config, t0: Tx, t: Tx)
    requires Valid(c) && Numbered(c, t0, t)
    ensures Numbered(c, t0, Flush(c, t))
  {
    var e := if |t.out| > 0 then Main(t.flushes, Packet(t.seqno, t.ts, t.out)) else EmptyFlush(t.flushes);
    RecordKeepsNumbered(c, t0, t, e, t.(out := [], seqno := (t.seqno + 1) % TWO16, log := t.log + [e]));
    NextTimestamp(t0.ts, t.flushes);
    ModStep(t.flushes + 1, 1, TWO32);
  }

  lemma StepNumbered(c: Config, t0: Tx, t: Tx, b: Block)
    requires Valid(c) && Numbered(c, t0, t) && |t.red| < c.blocksInPkt
    ensures Numbered(c, t0, Step(c, t, b)) && |Step(c, t, b).red| < c.blocksInPkt
    ensures Step(c, t, b).flushes == t.flushes + (if EndOfFrame(c.format, b) then 1 else 0)
  {
    AddToOutbufNumbered(c, t0, t, b);
    if IsAudio(b) {
      var u := ProcessAudio(c.(redundancy := 0), t, b);
      AddToROutbufNumbered(c, t0, u, b);
    } else if EndOfFrame(c.format, b) {
      var u := if c.noVideo || Drops(c, t.frame) then t else AddToOutbuf(c, t, b);
      FlushNumbered(c, t0, u);
    }
  }
}
