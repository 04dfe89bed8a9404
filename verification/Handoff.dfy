/**
 The hand-off of frame buffers between the two receiver processes (dvrecv/read.c,
 dvrecv/write-linux.c): F buffers in a ring, one lock word each, a reader that fills
 buffers without ever waiting, and a writer that takes the next buffer only when its lock
 says DATA_READY. One step is one DIF block for the reader and one `_fill_buffer` for the writer.
 */
module Handoff {
  import opened Modular

  datatype Lock = Ready | WritingData | WritingIeee1394 | DataReady

  /** `switches` is history: how often the reader has moved on. The reader fills frame number `switches`. */
  datatype Ring = Ring(lock: seq<Lock>, cur: nat, w: nat, switches: nat)

  predicate Bounds(g: Ring) { g.cur < |g.lock| && g.w < |g.lock| }

  ghost predicate Shape(g: Ring) { Bounds(g) && g.cur == g.switches % |g.lock| }

  function Next(i: nat, n: nat): (k: nat)
    requires i < n
    ensures k < n
  {
    if i + 1 == n then 0 else i + 1
  }

  function Prev(i: nat, n: nat): (k: nat)
    requires i < n
    ensures k < n && Next(k, n) == i
  {
    if i == 0 then n - 1 else i - 1
  }

  lemma NextIsModular(i: nat, n: nat)
    requires i < n
    ensures Next(i, n) == (i + 1) % n
  {}

  function Initial(n: nat): Ring
    requires n >= 1
  {
    Ring(seq(n, _ => Ready), 0, 0, 0)
  }

  // ----- the steps -----

  /** The reader finishes its buffer and moves to the next one, whatever the writer is doing there. */
  function SwitchFrame(g: Ring): Ring
    requires Bounds(g)
  {
    g.(lock := g.lock[g.cur := DataReady], cur := Next(g.cur, |g.lock|), switches := g.switches + 1)
  }

  /** The reader marks its own buffer before copying a block into it. */
  function MarkWriting(g: Ring): Ring
    requires Bounds(g)
  {
    g.(lock := g.lock[g.cur := WritingData])
  }

  function ReaderStep(g: Ring, switch: bool): Ring
    requires Bounds(g)
  {
    MarkWriting(if switch then SwitchFrame(g) else g)
  }

  /** The writer finds fresh data in the next buffer. */
  predicate Fresh(g: Ring)
    requires g.w < |g.lock|
  {
    g.lock[Next(g.w, |g.lock|)] == DataReady
  }

  /** The writer moves on if it can, transmits the buffer it then stands on, and marks it READY. */
  function WriterStep(g: Ring): Ring
    requires Bounds(g)
  {
    var w := if Fresh(g) then Next(g.w, |g.lock|) else g.w;
    g.(w := w, lock := g.lock[w := Ready])
  }

  lemma ShapeKept(g: Ring, switch: bool)
    requires Shape(g)
    ensures Shape(ReaderStep(g, switch)) && Shape(WriterStep(g))
  {
    NextIsModular(g.cur, |g.lock|);
    ModStep(g.switches, 1, |g.lock|);
  }

  // ----- logical frame numbers -----

  /** The number of the latest finished frame held by buffer w when the reader fills frame r; negative if none. */
  function Held(w: nat, r: nat, n: nat): int
    requires n >= 1
  {
    r - 1 - (r - 1 - w) % n
  }

  lemma HeldIsLatest(w: nat, r: nat, n: nat)
    requires w < n
    ensures Held(w, r, n) % n == w && r - n <= Held(w, r, n) < r
  {
    var q := (r - 1 - w) / n;
    assert Held(w, r, n) == n * q + w;
    ModIs(Held(w, r, n), q, w, n);
  }

  lemma HeldIs(w: nat, r: nat, n: nat, t: int)
    requires w < n && t % n == w && r - n <= t < r
    ensures Held(w, r, n) == t
  {
    HeldIsLatest(w, r, n);
    if t < Held(w, r, n) { ModApart(t, Held(w, r, n), n); }
    if Held(w, r, n) < t { ModApart(Held(w, r, n), t, n); }
  }

  /**
   The invariant. Before the first switch nothing is DATA_READY. Afterwards the reader's
   buffer is WRITING_DATA, the writer's buffer holds a finished frame, and every frame
   strictly between the writer's and the reader's is DATA_READY.
   */
  ghost predicate Inv(g: Ring) {
    && Shape(g) && |g.lock| >= 2
    && (g.switches == 0 ==> g.w == 0 && forall i | 0 <= i < |g.lock| :: g.lock[i] != DataReady)
    && (g.switches > 0 ==>
          && g.lock[g.cur] == WritingData
          && Held(g.w, g.switches, |g.lock|) >= 0
          && Between(g, Held(g.w, g.switches, |g.lock|)))
  }

  ghost predicate Between(g: Ring, t: int)
    requires |g.lock| >= 1
  {
    forall k: int | t < k < g.switches :: g.lock[k % |g.lock|] == DataReady
  }

  lemma ReaderKeepsInv(g: Ring, switch: bool)
    requires Inv(g) && (g.switches == 0 ==> switch)
    ensures Inv(ReaderStep(g, switch))
    ensures g.switches > 0 ==> Held(g.w, ReaderStep(g, switch).switches, |g.lock|) >= Held(g.w, g.switches, |g.lock|)
  {
    var n, r, g' := |g.lock|, g.switches, ReaderStep(g, switch);
    ShapeKept(g, switch);
    if switch {
      ModApart(r, r + 1, n);
      HeldIsLatest(g.w, r, n);
      HeldIsLatest(g.w, r + 1, n);
      var t' := Held(g.w, r + 1, n);
      if r == 0 { ModIs(0, 0, 0, n); HeldIs(0, 1, n, 0); }
      if r > 0 && Held(g.w, r, n) > r - n { HeldIs(g.w, r + 1, n, Held(g.w, r, n)); }
      if r > 0 && Held(g.w, r, n) == r - n {
        assert r == n * 1 + (r - n);
        ModStep(r - n, n, n);
        SameRemainder(r - n, n);
        HeldIs(g.w, r + 1, n, r);
      }
      forall k: int | t' < k < r + 1 ensures g'.lock[k % n] == DataReady {
        ModApart(k, r + 1, n);
        if k < r { ModApart(k, r, n); }
      }
    } else {
      HeldIsLatest(g.w, r, n);
      forall k: int | Held(g.w, r, n) < k < r ensures g'.lock[k % n] == DataReady { ModApart(k, r, n); }
    }
  }

  lemma SameRemainder(a: int, n: nat)
    requires n >= 1
    ensures (a + n) % n == a % n
  {
    ModIs(a + n, a / n + 1, a % n, n);
  }

  /**
   The writer's step keeps the invariant; it never stands on the buffer the reader is filling;
   the number it transmits never falls; and if the reader is at most n frames ahead of the last
   number transmitted, the next is that number or its successor.
   */
  lemma WriterKeepsInv(g: Ring)
    requires Inv(g)
    ensures Inv(WriterStep(g))
    ensures g.switches > 0 ==> WriterStep(g).w != g.cur
    ensures g.switches > 0 ==>
      var (t, t') := (Held(g.w, g.switches, |g.lock|), Held(WriterStep(g).w, g.switches, |g.lock|));
      && t' == (if t + 1 < g.switches then t + 1 else t)
      && 0 <= t' < g.switches
  {
    var n, r := |g.lock|, g.switches;
    ShapeKept(g, false);
    NextIsModular(g.w, n);
    if r > 0 {
      var t := Held(g.w, r, n);
      HeldIsLatest(g.w, r, n);
      ModStep(t, 1, n);
      assert Next(g.w, n) == (t + 1) % n;
      if t + 1 < r {
        HeldIs(Next(g.w, n), r, n, t + 1);
        ModApart(t + 1, r, n);
        forall k: int | t + 1 < k < r ensures WriterStep(g).lock[k % n] == DataReady { ModApart(t + 1, k, n); }
      } else {
        ModApart(t, r, n);
      }
    }
  }
}
