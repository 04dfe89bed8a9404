/**
 The FreeBSD writer (dvrecv/write-freebsd4.c) packs a frame into isochronous packets of six DIF
 blocks and inserts an empty packet wherever the running packet count reaches `mod` modulo `frac`.
 */
module Isochronous {
  import opened Dif
  import opened Modular

  const NBLOCKS := 400
  const PKT_NUM := 25
  const BLOCKS_IN_PKT := 6

  /** An outgoing packet: its payload size in bytes, 488 or 8, and the six blocks lying behind its header. */
  datatype Iso = Iso(size: nat, blocks: seq<Block>)

  const FULL := 488
  const EMPTY := 8

  /** What a receiver of the packets puts together: the blocks of the packets that are not empty. */
  function Received(packets: seq<Iso>): seq<Block> {
    if packets == [] then []
    else
      var (rest, p) := (packets[..|packets| - 1], packets[|packets| - 1]);
      Received(rest) + (if p.size == FULL then p.blocks else [])
  }

  /** Empty packets stand, after the first packet, wherever the position leaves `mod` modulo `frac`. */
  ghost predicate Layout(frac: nat, mod: nat, packets: seq<Iso>)
    requires frac > 0
  {
    forall i | 0 <= i < |packets| :: packets[i].size == if i > 0 && i % frac == mod then EMPTY else FULL
  }

  /** The running packet count after n packets of data. */
  function Count(frac: nat, mod: nat, n: nat): (p: nat)
    requires frac > 0
    ensures p >= n
  {
    if n == 0 then 0
    else
      var p := Count(frac, mod, n - 1) + 1;
      if p % frac == mod then p + 1 else p
  }

  lemma {:induction false} CountMonotone(frac: nat, mod: nat, m: nat, n: nat)
    requires frac > 0 && m <= n
    ensures Count(frac, mod, m) + (n - m) <= Count(frac, mod, n)
    decreases n
  {
    if m < n { CountMonotone(frac, mod, m, n - 1); }
  }

  /** The step of the closed form: q full rounds and r more packets of data, then one more. */
  lemma NextRound(frac: nat, q: nat, r: nat)
    requires frac >= 2 && r < frac - 1
    ensures (frac * q + (r + 2)) % frac == if r + 1 == frac - 1 then 0 else r + 2
    ensures ((frac - 1) * q + r + 1) / (frac - 1) == if r + 1 == frac - 1 then q + 1 else q
  {
    var m := frac - 1;
    if r + 1 == m {
      assert frac * (q + 1) == frac * q + frac && m * (q + 1) == m * q + m;
      ModIs(frac * q + (r + 2), q + 1, 0, frac);
      QuotientIs(m * q + r + 1, q + 1, 0, m);
    } else {
      ModIs(frac * q + (r + 2), q, r + 2, frac);
      QuotientIs(m * q + r + 1, q, r + 1, m);
    }
  }

  /** With `mod` 0 there is one empty packet for every frac - 1 packets of data after the first. */
  lemma {:induction false} CountClosedForm(frac: nat, n: nat)
    requires frac >= 2 && n >= 1
    ensures Count(frac, 0, n) == n + (n - 1) / (frac - 1)
  {
    var m := frac - 1;
    if n == 1 {
      ModIs(1, 0, 1, frac);
      QuotientIs(0, 0, 0, m);
    } else {
      CountClosedForm(frac, n - 1);
      var q, r := (n - 2) / m, (n - 2) % m;
      assert n - 2 == m * q + r;
      assert frac * q == m * q + q;
      NextRound(frac, q, r);
    }
  }

  /** A frame fits the output buffer exactly from these rates on; the two rates in use, 15 and 17, are among them. */
  lemma FrameFits(frac: nat)
    requires frac >= 2
    ensures Count(frac, 0, PKT_NUM * DIFSEQ_NUM_NTSC) <= NBLOCKS <==> frac >= 3
    ensures Count(frac, 0, PKT_NUM * DIFSEQ_NUM_PAL) <= NBLOCKS <==> frac >= 4
  {
    CountClosedForm(frac, 250);
    CountClosedForm(frac, 300);
    if frac >= 3 { QuotientAtMost(249, frac - 1, 2); }
    if frac >= 4 { QuotientAtMost(299, frac - 1, 3); }
  }

  lemma QuotientAtMost(x: nat, d: nat, e: nat)
    requires 0 < e <= d
    ensures e * (x / d) <= x
  {}

  lemma ReceivedSnoc(packets: seq<Iso>, p: Iso)
    ensures Received(packets + [p]) == Received(packets) + (if p.size == FULL then p.blocks else [])
  {}

  /** n packets of data, with their empty packets, lie at the front of the buffer. */
  ghost predicate Packed(frame: seq<Block>, frac: nat, mod: nat, buf: seq<Iso>, count: nat, n: nat)
    requires frac >= 2
  {
    && count == Count(frac, mod, n) <= |buf| && 6 * n <= |frame|
    && (count > 0 ==> count % frac != mod)
    && Layout(frac, mod, buf[..count])
    && Received(buf[..count]) == frame[..6 * n]
  }

  lemma PackedNext(frame: seq<Block>, frac: nat, mod: nat, buf: seq<Iso>, p: nat, n: nat, buf': seq<Iso>, p': nat)
    requires frac >= 2 && Packed(frame, frac, mod, buf, p, n) && 6 * n + 6 <= |frame|
    requires p' == Count(frac, mod, n + 1) <= |buf'| && buf'[..p] == buf[..p]
    requires buf'[p] == Iso(FULL, frame[6 * n..6 * n + 6])
    requires p' == p + 2 ==> buf'[p + 1].size == EMPTY
    ensures Packed(frame, frac, mod, buf', p', n + 1)
  {
    hide Layout, Received;
    assert buf'[..p + 1] == buf'[..p] + [buf'[p]];
    ReceivedSnoc(buf'[..p], buf'[p]);
    LayoutSnoc(frac, mod, buf'[..p], buf'[p]);
    assert frame[..6 * n] + frame[6 * n..6 * n + 6] == frame[..6 * (n + 1)];
    if p' == p + 2 {
      assert buf'[..p + 2] == buf'[..p + 1] + [buf'[p + 1]];
      ReceivedSnoc(buf'[..p + 1], buf'[p + 1]);
      LayoutSnoc(frac, mod, buf'[..p + 1], buf'[p + 1]);
      ModApart(p + 1, p + 2, frac);
    }
  }

  lemma LayoutSnoc(frac: nat, mod: nat, packets: seq<Iso>, x: Iso)
    requires frac > 0 && Layout(frac, mod, packets)
    requires x.size == if |packets| > 0 && |packets| % frac == mod then EMPTY else FULL
    ensures Layout(frac, mod, packets + [x])
  {}

  /** One packet of data and, where it is due, the empty packet behind it. */
  method PackOne(frame: seq<Block>, frac: nat, mod: nat, outbuf: array<Iso>, p: nat, ghost n: nat,
                 blocks: seq<Block>)
    returns (count: nat)
    requires frac >= 2 && Packed(frame, frac, mod, outbuf[..], p, n) && 6 * n + 6 <= |frame|
    requires blocks == frame[6 * n..6 * n + 6] && Count(frac, mod, n + 1) <= outbuf.Length
    modifies outbuf
    ensures count > p && Packed(frame, frac, mod, outbuf[..], count, n + 1)
    ensures forall i | count <= i < outbuf.Length :: outbuf[i] == old(outbuf[i])
  {
    hide Received, Layout;
    ghost var before := outbuf[..];
    count := p;
    outbuf[count] := Iso(FULL, blocks);
    count := count + 1;
    if count % frac == mod {
      outbuf[count] := outbuf[count].(size := EMPTY);
      count := count + 1;
    }
    PackedNext(frame, frac, mod, before, p, n, outbuf[..], count);
  }

  /** The packets of one DIF sequence. */
  method PackSequence(frame: seq<Block>, frac: nat, mod: nat, outbuf: array<Iso>, p: nat, dseq: nat)
    returns (count: nat)
    requires frac >= 2 && Packed(frame, frac, mod, outbuf[..], p, PKT_NUM * dseq) && 150 * (dseq + 1) <= |frame|
    requires Count(frac, mod, PKT_NUM * (dseq + 1)) <= outbuf.Length
    modifies outbuf
    ensures count >= p && Packed(frame, frac, mod, outbuf[..], count, PKT_NUM * (dseq + 1))
    ensures forall i | count <= i < outbuf.Length :: outbuf[i] == old(outbuf[i])
  {
    hide Packed, Count;
    count := p;
    for k := 0 to PKT_NUM
      invariant count >= p && Packed(frame, frac, mod, outbuf[..], count, PKT_NUM * dseq + k)
      invariant forall i | count <= i < outbuf.Length :: outbuf[i] == old(outbuf[i])
    {
      ghost var n := PKT_NUM * dseq + k;
      CountMonotone(frac, mod, n + 1, PKT_NUM * (dseq + 1));
      var offset := 150 * dseq + BLOCKS_IN_PKT * k;
      count := PackOne(frame, frac, mod, outbuf, count, n, frame[offset..offset + BLOCKS_IN_PKT]);
    }
  }

  /**
   Packs a frame. The empty packets stand exactly where they should, and a receiver that skips them gets
   the frame back in order.
   */
  method Pack(frame: seq<Block>, maxdif: nat, frac: nat, mod: nat, outbuf: array<Iso>) returns (count: nat)
    requires frac >= 2 && |frame| == SLOTS && maxdif <= DIFSEQ_NUM_PAL
    requires Count(frac, mod, PKT_NUM * maxdif) <= outbuf.Length
    modifies outbuf
    ensures count == Count(frac, mod, PKT_NUM * maxdif)
    ensures Layout(frac, mod, outbuf[..count])
    ensures Received(outbuf[..count]) == frame[..150 * maxdif]
    ensures forall i | count <= i < outbuf.Length :: outbuf[i] == old(outbuf[i])
  {
    count := 0;
    assert Packed(frame, frac, mod, outbuf[..], 0, 0);
    hide Received, Layout, Count;
    for dseq := 0 to maxdif
      invariant Packed(frame, frac, mod, outbuf[..], count, PKT_NUM * dseq)
      invariant forall i | count <= i < outbuf.Length :: outbuf[i] == old(outbuf[i])
    {
      hide Packed;
      CountMonotone(frac, mod, PKT_NUM * (dseq + 1), PKT_NUM * maxdif);
      count := PackSequence(frame, frac, mod, outbuf, count, dseq);
    }
  }
}
