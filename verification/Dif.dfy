/**
 DIF blocks of a DV stream: the four-byte block identifier, the fixed place of
 every block inside a frame, and the last block received for a place.

 A frame is `SLOTS` blocks of 80 bytes, twelve DIF sequences of 150 blocks each
 (an NTSC frame uses only the first ten sequences).
 */
module Dif {

  type byte = x: int | 0 <= x < 256

  /** An 80-byte DIF block: its identifier bytes and the rest of its contents. */
  datatype Block = Block(b0: byte, b1: byte, b2: byte, b3: byte, data: seq<byte>)

  const SCT_HEADER := 0
  const SCT_SUBCODE := 1
  const SCT_VAUX := 2
  const SCT_AUDIO := 3
  const SCT_VIDEO := 4

  const DIFSEQ_NUM_PAL := 12
  const DIFSEQ_NUM_NTSC := 10

  const SLOTS := 1800
  const FLAGS := 1620
  const AUDIO_SLOTS := 108

  const TWO16 := 0x1_0000
  const TWO32 := 0x1_0000_0000

  datatype Format = NTSC | PAL

  function MaxDifseq(format: Format): nat {
    match format
    case NTSC => DIFSEQ_NUM_NTSC
    case PAL => DIFSEQ_NUM_PAL
  }

  // ----- the block identifier -----

  function Sct(b: Block): nat { b.b0 / 32 }

  function Dseq(b: Block): nat { b.b1 / 16 }

  function Dbn(b: Block): nat { b.b2 }

  /** The identifier as one 32-bit word in host byte order. */
  function IdWord(b: Block): (w: nat) {
    b.b0 * 0x100_0000 + b.b1 * 0x1_0000 + b.b2 * 0x100 + b.b3
  }

  /** Shift right, then keep the low bits. */
  function ShiftMask(w: nat, shift: nat, mask: nat): nat
    requires shift > 0 && mask > 0
  {
    (w / shift) % mask
  }

  /** The fields are what shifting by 29, 20 and 8 and masking 3, 4 and 8 bits give. */
  lemma IdFieldsByShiftAndMask(b: Block)
    ensures Sct(b) == ShiftMask(IdWord(b), 0x2000_0000, 8)
    ensures Dseq(b) == ShiftMask(IdWord(b), 0x10_0000, 16)
    ensures Dbn(b) == ShiftMask(IdWord(b), 0x100, 256)
  {
    var w := IdWord(b);
    assert w / 0x100 == b.b0 * 0x1_0000 + b.b1 * 0x100 + b.b2;
    assert w / 0x10_0000 == b.b0 * 16 + b.b1 / 16;
    assert w / 0x2000_0000 == b.b0 / 32;
  }

  // ----- places -----

  /** How many blocks of a section one DIF sequence holds. */
  function Limit(sct: nat): nat {
    match sct
    case 0 => 1
    case 1 => 2
    case 2 => 3
    case 3 => 9
    case 4 => 135
    case _ => 0
  }

  function Offset(sct: nat, dbn: nat): nat {
    match sct
    case 0 => 0
    case 1 => dbn + 1
    case 2 => 3 + dbn
    case 3 => 6 + 16 * dbn
    case _ => 7 + dbn + dbn / 15
  }

  /** The place of a block in a frame, counted in blocks. */
  function Slot(b: Block): nat { 150 * Dseq(b) + Offset(Sct(b), Dbn(b)) }

  /** The place of an audio block in an audio-only frame. */
  function AudioIndex(b: Block): nat { 9 * Dseq(b) + Dbn(b) }

  /** The place of a video block's "received" flag. */
  function FlagIndex(dseq: nat, dbn: nat): nat { 135 * dseq + dbn }

  /** Copying the block to its place stays inside the frame. The place of a header block ignores its number. */
  predicate Placeable(b: Block) {
    Sct(b) <= 4 ==> Dseq(b) < DIFSEQ_NUM_PAL && (Sct(b) == SCT_HEADER || Dbn(b) < Limit(Sct(b)))
  }

  predicate IsAudio(b: Block) { Sct(b) == SCT_AUDIO }

  predicate AudioSlot(s: nat) { s % 150 >= 6 && (s % 150 - 6) % 16 == 0 }

  predicate VideoSlot(s: nat) { s % 150 >= 7 && !AudioSlot(s) }

  predicate EndOfFrame(format: Format, b: Block) {
    Sct(b) == SCT_VIDEO && Dseq(b) == MaxDifseq(format) - 1 && Dbn(b) == 134
  }

  /** The section and number of the block that belongs at a place: the inverse of `Offset`. */
  function SectionAt(s: nat): (nat, nat) {
    var o := s % 150;
    if o == 0 then (SCT_HEADER, 0)
    else if o < 3 then (SCT_SUBCODE, o - 1)
    else if o < 6 then (SCT_VAUX, o - 3)
    else if AudioSlot(s) then (SCT_AUDIO, (o - 6) / 16)
    else (SCT_VIDEO, o - 7 - (o - 7) / 16)
  }

  /** Placing a block and asking which block belongs there gives the block's own identity. */
  lemma SlotIdentifiesBlock(b: Block)
    requires Placeable(b) && Sct(b) <= 4
    ensures Slot(b) < SLOTS && Slot(b) / 150 == Dseq(b)
    ensures SectionAt(Slot(b)) == (Sct(b), if Sct(b) == SCT_HEADER then 0 else Dbn(b))
    ensures AudioSlot(Slot(b)) <==> IsAudio(b)
    ensures VideoSlot(Slot(b)) <==> Sct(b) == SCT_VIDEO
  {}

  /** Every place belongs to exactly one section and number, and that block is placed there. */
  lemma EverySlotHasItsBlock(s: nat)
    requires s < SLOTS
    ensures s / 150 < DIFSEQ_NUM_PAL
    ensures SectionAt(s).1 < Limit(SectionAt(s).0)
    ensures s == 150 * (s / 150) + Offset(SectionAt(s).0, SectionAt(s).1)
  {
    var o := s % 150;
    if VideoSlot(s) {
      var q, r := (o - 7) / 16, (o - 7) % 16;
      assert o - 7 == 16 * q + r;
      assert o - 6 == 16 * q + r + 1 && r != 15;
      assert SectionAt(s).1 == 15 * q + r;
    }
  }

  /** The block that ends a frame is the one in the frame's last place. */
  lemma EndOfFrameIsLastSlot(format: Format, b: Block)
    requires Placeable(b) && Sct(b) <= 4
    ensures EndOfFrame(format, b) <==> Slot(b) == 150 * MaxDifseq(format) - 1
  {
    SlotIdentifiesBlock(b);
  }

  /** The block behind another one in a DIF sequence, where each of nine audio blocks has 15 video blocks behind it. */
  function Follower(sct: nat, dbn: nat): (nat, nat) {
    match sct
    case 0 => (SCT_SUBCODE, 0)
    case 1 => if dbn == 0 then (SCT_SUBCODE, 1) else (SCT_VAUX, 0)
    case 2 => if dbn < 2 then (SCT_VAUX, dbn + 1) else (SCT_AUDIO, 0)
    case 3 => (SCT_VIDEO, 15 * dbn)
    case _ => if dbn % 15 < 14 then (SCT_VIDEO, dbn + 1) else (SCT_AUDIO, dbn / 15 + 1)
  }

  /** The header comes first, and every block but the last is placed right before its follower. */
  lemma PlacesFollowTheSequence(sct: nat, dbn: nat)
    requires sct <= 4 && dbn < Limit(sct) && (sct, dbn) != (SCT_VIDEO, 134)
    ensures var (sct', dbn') := Follower(sct, dbn);
      sct' <= 4 && dbn' < Limit(sct') && Offset(sct', dbn') == Offset(sct, dbn) + 1
    ensures Offset(SCT_HEADER, dbn) == 0 && Offset(SCT_VIDEO, 134) == 149
  {
    if sct == SCT_VIDEO {
      var q, r := dbn / 15, dbn % 15;
      assert dbn == 15 * q + r;
      if r == 14 {
        assert (dbn + 1) / 15 == q + 1;
      } else {
        assert (dbn + 1) / 15 == q;
      }
    }
  }

  /** The byte positions of a sequence's blocks, in the tables of positions by section. */
  lemma BytePositions(dbn: nat)
    ensures 80 * Offset(SCT_HEADER, dbn) == 0
    ensures dbn < 2 ==> 80 * Offset(SCT_SUBCODE, dbn) == [80, 160][dbn]
    ensures dbn < 3 ==> 80 * Offset(SCT_VAUX, dbn) == [240, 320, 400][dbn]
    ensures dbn < 9 ==> 80 * Offset(SCT_AUDIO, dbn) == 480 + 1280 * dbn
    ensures dbn < 135 ==> 80 * Offset(SCT_VIDEO, dbn) == 480 + 1280 * (dbn / 15) + 80 * (1 + dbn % 15)
  {
    assert dbn == 15 * (dbn / 15) + dbn % 15;
  }

  // ----- the last block received for a place -----

  predicate Covers(bs: seq<Block>, s: nat) { exists i :: 0 <= i < |bs| && Slot(bs[i]) == s }

  function LastFor(bs: seq<Block>, s: nat, default: Block): Block {
    if bs == [] then default
    else if Slot(bs[|bs| - 1]) == s then bs[|bs| - 1]
    else LastFor(bs[..|bs| - 1], s, default)
  }

  lemma {:induction false} LastForSplit(xs: seq<Block>, ys: seq<Block>, s: nat, default: Block)
    ensures LastFor(xs + ys, s, default) == LastFor(ys, s, LastFor(xs, s, default))
  {
    if ys == [] {
      assert xs + ys == xs;
    } else {
      var n := |ys| - 1;
      assert (xs + ys)[..|xs + ys| - 1] == xs + ys[..n];
      LastForSplit(xs, ys[..n], s, default);
    }
  }

  lemma {:induction false} LastForCovered(bs: seq<Block>, s: nat, d: Block, e: Block)
    requires Covers(bs, s)
    ensures LastFor(bs, s, d) == LastFor(bs, s, e)
    ensures LastFor(bs, s, d) in bs && Slot(LastFor(bs, s, d)) == s
  {
    var n := |bs| - 1;
    if Slot(bs[n]) != s {
      var i :| 0 <= i < |bs| && Slot(bs[i]) == s;
      assert bs[..n][i] == bs[i];
      LastForCovered(bs[..n], s, d, e);
    }
  }

  lemma {:induction false} LastForUncovered(bs: seq<Block>, s: nat, d: Block)
    requires !Covers(bs, s)
    ensures LastFor(bs, s, d) == d
  {
    if bs != [] {
      var n := |bs| - 1;
      assert Slot(bs[n]) != s;
      assert forall i | 0 <= i < n :: bs[..n][i] == bs[i];
      LastForUncovered(bs[..n], s, d);
    }
  }
}
