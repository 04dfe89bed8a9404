/**
 Reading DV frames from standard input (dvplay/file.c): short reads are put together into blocks of
 80 bytes, blocks are placed by their identifier, and video block 134 of sequence 9 ends a frame.
 */
module FileReader {
  import opened Dif

  type Frame = seq<Block>

  const BLOCK := 80

  function ToBytes(b: Block): seq<byte> { [b.b0, b.b1, b.b2, b.b3] + b.data }

  function FromBytes(bs: seq<byte>): Block
    requires |bs| == BLOCK
  {
    Block(bs[0], bs[1], bs[2], bs[3], bs[4..])
  }

  /** The block after which a call returns, in either format. */
  predicate LastBlock(b: Block) { EndOfFrame(NTSC, b) }

  /** Placing a block; a place outside the frame is one the program must not be given. */
  function Store(frame: Frame, b: Block): (f: Frame)
    ensures |f| == |frame|
  {
    if Slot(b) < |frame| then frame[Slot(b) := b] else frame
  }

  /** One call on the bytes still to come: the value returned, the frame, and the bytes left over. */
  function ReadFrame(frame: Frame, input: seq<byte>): (r: (int, Frame, seq<byte>))
    ensures |r.1| == |frame| && (r.0 == 1 || r.0 == -1) && (r.0 == 1 ==> |r.2| < |input|)
    decreases |input|
  {
    if |input| < BLOCK then (-1, frame, [])
    else
      var (b, rest) := (FromBytes(input[..BLOCK]), input[BLOCK..]);
      if Sct(b) > 4 then (-1, frame, rest)
      else if LastBlock(b) then (1, Store(frame, b), rest)
      else ReadFrame(Store(frame, b), rest)
  }

  /** All frames returned until a call fails. */
  function ReadAll(frame: Frame, input: seq<byte>): seq<Frame>
    decreases |input|
  {
    var (r, f, rest) := ReadFrame(frame, input);
    if r == 1 then [f] + ReadAll(f, rest) else []
  }

  ghost predicate AllPlaceable(input: seq<byte>)
    decreases |input|
  {
    |input| >= BLOCK ==> Placeable(FromBytes(input[..BLOCK])) && AllPlaceable(input[BLOCK..])
  }

  // ----- streams of frames -----

  function Encode(bs: seq<Block>): seq<byte> {
    if bs == [] then [] else ToBytes(bs[0]) + Encode(bs[1..])
  }

  function EncodeAll(fs: seq<Frame>): seq<byte> {
    if fs == [] then [] else Encode(fs[0]) + EncodeAll(fs[1..])
  }

  /** Whole DIF sequences with every block in its place. */
  ghost predicate InSlotOrder(f: Frame, sequences: nat) {
    && |f| == 150 * sequences
    && forall s | 0 <= s < |f| :: Placeable(f[s]) && Sct(f[s]) <= 4 && Slot(f[s]) == s && |f[s].data| == BLOCK - 4
  }

  lemma BytesRoundTrip(b: Block, more: seq<byte>)
    requires |b.data| == BLOCK - 4
    ensures var input := ToBytes(b) + more;
      |input| >= BLOCK && FromBytes(input[..BLOCK]) == b && input[BLOCK..] == more
  {}

  lemma StoreNext(f: Frame, prior: Frame, s: nat)
    requires s < |f| && s < |prior| && Slot(f[s]) == s
    ensures Store(f[..s] + prior[s..], f[s]) == f[..s + 1] + prior[s + 1..]
  {
    var mixed := f[..s] + prior[s..];
    assert |mixed| == |prior| && Store(mixed, f[s]) == mixed[s := f[s]];
  }

  /** From slot s on: the rest of the first ten sequences is read into place, whatever follows stays unread. */
  lemma {:induction false} ReadsOn(f: Frame, sequences: nat, prior: Frame, s: nat, more: seq<byte>)
    requires InSlotOrder(f, sequences) && sequences >= 10 && |prior| == SLOTS && sequences <= 12 && s < 1500
    ensures ReadFrame(f[..s] + prior[s..], Encode(f[s..]) + more) ==
            (1, f[..1500] + prior[1500..], Encode(f[1500..]) + more)
    decreases 1500 - s
  {
    var b, rest := f[s], Encode(f[s + 1..]) + more;
    assert f[s..][0] == b && f[s..][1..] == f[s + 1..];
    assert Encode(f[s..]) + more == ToBytes(b) + rest;
    BytesRoundTrip(b, rest);
    EndOfFrameIsLastSlot(NTSC, b);
    StoreNext(f, prior, s);
    if s < 1499 { ReadsOn(f, sequences, prior, s + 1, more); }
  }

  /**
   One call on a frame in slot order returns after its first ten sequences. So an NTSC frame comes back
   whole and the next call starts at the next frame; of a PAL frame the last two sequences are neither
   placed nor consumed.
   */
  lemma ReadsTenSequences(f: Frame, sequences: nat, prior: Frame, more: seq<byte>)
    requires InSlotOrder(f, sequences) && 10 <= sequences <= 12 && |prior| == SLOTS
    ensures ReadFrame(prior, Encode(f) + more) == (1, f[..1500] + prior[1500..], Encode(f[1500..]) + more)
    ensures ReadFrame(prior, Encode(f) + more).2 == more <==> sequences == 10
  {
    ReadsOn(f, sequences, prior, 0, more);
    assert f[..0] + prior[0..] == prior && f[0..] == f;
    EncodeLength(f[1500..]);
  }

  lemma {:induction false} EncodeLength(bs: seq<Block>)
    requires forall i | 0 <= i < |bs| :: |bs[i].data| == BLOCK - 4
    ensures |Encode(bs)| == BLOCK * |bs|
  {
    if bs != [] { EncodeLength(bs[1..]); }
  }

  lemma NtscFrameComesBack(f: Frame, prior: Frame, more: seq<byte>)
    requires |prior| == SLOTS && InSlotOrder(f, 10)
    ensures ReadAll(prior, Encode(f) + more) == [f + prior[1500..]] + ReadAll(f + prior[1500..], more)
  {
    ReadsTenSequences(f, 10, prior, more);
    assert f[..1500] == f;
  }

  /** Any number of NTSC frames in slot order are returned one by one, unchanged, and then the reader fails. */
  lemma {:induction false} NtscStreamComesBack(fs: seq<Frame>, prior: Frame)
    requires |prior| == SLOTS && forall k | 0 <= k < |fs| :: InSlotOrder(fs[k], 10)
    ensures var got := ReadAll(prior, EncodeAll(fs));
      |got| == |fs| && forall k | 0 <= k < |fs| :: got[k] == fs[k] + prior[1500..]
  {
    if fs != [] {
      hide ReadAll;
      var f := fs[0] + prior[1500..];
      NtscFrameComesBack(fs[0], prior, EncodeAll(fs[1..]));
      assert |f| == SLOTS && f[1500..] == prior[1500..] by { assert |fs[0]| == 1500; }
      NtscStreamComesBack(fs[1..], f);
      assert forall k | 0 < k < |fs| :: fs[k] == fs[1..][k - 1];
    }
  }

  // ----- any input -----

  /** The block ends a call, well or not. */
  predicate Ends(b: Block) { Sct(b) > 4 || LastBlock(b) }

  /** How many of the blocks one call reads: up to the first that ends it, or all. */
  function ReadCount(bs: seq<Block>): (k: nat)
    ensures k <= |bs|
    ensures forall i | 0 <= i < k - 1 :: !Ends(bs[i])
    ensures k < |bs| ==> k > 0 && Ends(bs[k - 1])
  {
    if bs == [] then 0 else if Ends(bs[0]) then 1 else 1 + ReadCount(bs[1..])
  }

  ghost predicate FullBlocks(bs: seq<Block>) {
    forall i | 0 <= i < |bs| :: |bs[i].data| == BLOCK - 4 && (Sct(bs[i]) <= 4 ==> Placeable(bs[i]))
  }

  /** The read blocks that are placed: all but a last one of an unknown section. */
  function Placed(bs: seq<Block>): seq<Block> {
    var k := ReadCount(bs);
    if k > 0 && Sct(bs[k - 1]) > 4 then bs[..k - 1] else bs[..k]
  }

  lemma {:induction false} LastForFirst(b: Block, bs: seq<Block>, s: nat, d: Block)
    ensures LastFor([b] + bs, s, d) == LastFor(bs, s, if Slot(b) == s then b else d)
  {
    LastForSplit([b], bs, s, d);
    assert [b][..0] == [];
  }

  /**
   One call on any blocks, in any order, with less than a block behind them: it reads up to the first end of
   frame or unknown section. In the first case it succeeds, and leaves the bytes behind that block; in the
   second, or at the end of the input, it fails. Each place of the frame holds the last block read for it.
   */
  lemma {:induction false} ReadFrameMeaning(frame: Frame, bs: seq<Block>, tail: seq<byte>)
    requires FullBlocks(bs) && |tail| < BLOCK && |frame| == SLOTS
    ensures var ((r, f, rest), k) := (ReadFrame(frame, Encode(bs) + tail), ReadCount(bs));
      && (r == 1 <==> k > 0 && LastBlock(bs[k - 1]))
      && rest == (if k > 0 && Ends(bs[k - 1]) then Encode(bs[k..]) + tail else [])
      && |f| == SLOTS && forall s: nat | s < SLOTS :: f[s] == LastFor(Placed(bs), s, frame[s])
    decreases |bs|
  {
    hide LastFor, Slot, Encode, ToBytes, FromBytes, Placed, Store;
    if bs == [] {
      EncodedFirst(bs, tail);
      PlacedFirst(bs);
      NothingPlaced(frame);
    } else {
      var b := bs[0];
      EncodedFirst(bs, tail);
      PlacedFirst(bs);
      if Sct(b) > 4 {
        NothingPlaced(frame);
      } else {
        var stored := Store(frame, b);
        if !LastBlock(b) { ReadFrameMeaning(stored, bs[1..], tail); }
        StoredFirst(frame, b, if LastBlock(b) then [] else Placed(bs[1..]));
        NothingPlaced(stored);
      }
    }
  }

  /** The first block of the input, and the rest. */
  lemma EncodedFirst(bs: seq<Block>, tail: seq<byte>)
    requires FullBlocks(bs)
    ensures bs == [] ==> Encode(bs) + tail == tail
    ensures bs != [] ==> var input := Encode(bs) + tail;
      |input| >= BLOCK && FromBytes(input[..BLOCK]) == bs[0] && input[BLOCK..] == Encode(bs[1..]) + tail
  {
    if bs == [] {
      assert Encode(bs) + tail == tail;
    } else {
      assert Encode(bs) + tail == ToBytes(bs[0]) + (Encode(bs[1..]) + tail);
      BytesRoundTrip(bs[0], Encode(bs[1..]) + tail);
    }
  }

  /** Storing a block first, and then the others. */
  lemma StoredFirst(frame: Frame, b: Block, others: seq<Block>)
    requires |frame| == SLOTS && Placeable(b) && Sct(b) <= 4
    ensures forall s: nat | s < SLOTS ::
      LastFor([b] + others, s, frame[s]) == LastFor(others, s, Store(frame, b)[s])
  {
    SlotIdentifiesBlock(b);
    forall s: nat | s < SLOTS
      ensures LastFor([b] + others, s, frame[s]) == LastFor(others, s, Store(frame, b)[s])
    {
      LastForFirst(b, others, s, frame[s]);
    }
  }

  lemma NothingPlaced(frame: Frame)
    ensures forall s: nat | s < |frame| :: LastFor([], s, frame[s]) == frame[s]
  {}

  lemma PlacedFirst(bs: seq<Block>)
    ensures bs == [] || Sct(bs[0]) > 4 ==> Placed(bs) == []
    ensures bs != [] && Sct(bs[0]) <= 4 ==>
      Placed(bs) == [bs[0]] + (if LastBlock(bs[0]) then [] else Placed(bs[1..]))
  {}

  // ----- the program -----

  /** Standard input: the bytes, and how many each read happens to deliver. */
  class Input {
    const bytes: seq<byte>
    var pos: nat
    var sizes: seq<nat>

    ghost predicate Valid()
      reads this
    {
      pos <= |bytes|
    }

    function Rest(): seq<byte>
      requires Valid()
      reads this
    {
      bytes[pos..]
    }

    constructor (bytes: seq<byte>, sizes: seq<nat>)
      ensures Valid() && Rest() == bytes
    {
      this.bytes, this.pos, this.sizes := bytes, 0, sizes;
    }

    /** `read`: at least one byte and at most `want`, unless the input is at its end. */
    method Read(want: nat) returns (chunk: seq<byte>)
      requires Valid() && want > 0
      modifies this
      ensures Valid() && old(Rest()) == chunk + Rest() && |chunk| <= want
      ensures chunk == [] <==> old(Rest()) == []
    {
      var n := if sizes == [] || sizes[0] == 0 then 1 else sizes[0];
      sizes := if sizes == [] then [] else sizes[1..];
      n := if n > want then want else n;
      n := if n > |bytes| - pos then |bytes| - pos else n;
      chunk := bytes[pos..pos + n];
      pos := pos + n;
    }
  }

  class Player {
    const dvframe: array<Block>
    const input: Input

    ghost predicate Valid()
      reads this, input
    {
      dvframe.Length == SLOTS && input.Valid()
    }

    constructor (input: Input)
      requires input.Valid()
      ensures Valid() && this.input == input
    {
      var zero := Block(0, 0, 0, 0, []);
      dvframe := new Block[SLOTS](_ => zero);
      this.input := input;
    }

    /** Short reads are repeated until a block is complete; `ok` is false at the end of the input. */
    method ReadBlock() returns (ok: bool, b: Block)
      requires Valid()
      modifies input
      ensures Valid() && ok == (|old(input.Rest())| >= BLOCK)
      ensures ok ==> b == FromBytes(old(input.Rest())[..BLOCK]) && input.Rest() == old(input.Rest())[BLOCK..]
      ensures !ok ==> input.Rest() == []
    {
      ghost var all := input.Rest();
      var bytes := [];
      b := Block(0, 0, 0, 0, []);
      while |bytes| < BLOCK
        invariant Valid() && |bytes| <= BLOCK && all == bytes + input.Rest()
        decreases BLOCK - |bytes|
      {
        var chunk := input.Read(BLOCK - |bytes|);
        if |chunk| < 1 {
          return false, b;
        }
        bytes := bytes + chunk;
      }
      ok, b := true, FromBytes(bytes);
    }

    /** The result depends on the bytes only, not on how reads split them. */
    method ReadDvDataFromFile() returns (r: int)
      requires Valid() && AllPlaceable(input.Rest())
      modifies dvframe, input
      ensures Valid() && (r, dvframe[..], input.Rest()) == ReadFrame(old(dvframe[..]), old(input.Rest()))
      ensures r == 1 ==> AllPlaceable(input.Rest())
    {
      ghost var frame, all := dvframe[..], input.Rest();
      while true
        invariant Valid() && AllPlaceable(input.Rest())
        invariant ReadFrame(dvframe[..], input.Rest()) == ReadFrame(frame, all)
        decreases |input.Rest()|
      {
        var ok, b := ReadBlock();
        if !ok {
          return -1;
        }
        if Sct(b) > 4 {
          return -1;
        }
        SlotIdentifiesBlock(b);
        ghost var before := dvframe[..];
        dvframe[Slot(b)] := b;
        assert dvframe[..] == Store(before, b);
        if Sct(b) == SCT_VIDEO && Dseq(b) == 9 && Dbn(b) == 134 {
          return 1;
        }
      }
    }
  }
}
