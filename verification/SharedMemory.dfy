/**
 Construction of the receiver's rings of frame buffers over two shared memory segments (dvrecv/shm.c).
 An address is a byte offset into the segment.
 */
module SharedMemory {
  import opened Modular
  import Handoff
  import Dif

  // sizes in bytes of the structures laid out in the segments
  const DV_PKTS := 12 * 25 * 480
  const STATIC_FRAME := 4 + DV_PKTS
  const SHM_FRAMEBUF := 4 + DV_PKTS + 12 * 135
  const AUDIO_FRAMEBUF := 4 + 12 * 9 * 80

  /** A buffer holds its lock word, every block of a frame and, for video, the received flags. */
  lemma BufferSizes()
    ensures SHM_FRAMEBUF == 4 + 80 * Dif.SLOTS + Dif.FLAGS
    ensures STATIC_FRAME == 4 + 80 * Dif.SLOTS
    ensures AUDIO_FRAMEBUF == 4 + 80 * Dif.AUDIO_SLOTS
  {}

  /** The sizes asked of `shmget`. */
  function VideoSegment(frames: nat): nat { frames * (SHM_FRAMEBUF + STATIC_FRAME) }

  function AudioSegment(frames: nat): nat { frames * AUDIO_FRAMEBUF }

  /**
   The words of a segment through which the processes meet: the lock word of each buffer and the static
   frame's flag.
   */
  class Segment {
    var lock: map<nat, Handoff.Lock>
    var flag: nat

    /** `shmget` leaves the segment zeroed: no lock word is set. */
    constructor ()
      ensures lock == map[] && flag == 0
    {
      lock, flag := map[], 0;
    }
  }

  /** A node of either ring; the audio ring leaves `prev` alone. */
  class Node {
    var next: Node?
    var prev: Node?
    const framebuf: nat

    constructor (framebuf: nat)
      ensures next == null && prev == null && this.framebuf == framebuf
    {
      next, prev := null, null;
      this.framebuf := framebuf;
    }
  }

  /** Distinct nodes whose buffers follow one another from `base`. */
  ghost predicate Laid(nodes: seq<Node>, base: nat, size: nat) {
    Distinct(nodes) && forall i | 0 <= i < |nodes| :: nodes[i].framebuf == base + i * size
  }

  ghost predicate Distinct(nodes: seq<Node>) { forall i, j | 0 <= i < j < |nodes| :: nodes[i] != nodes[j] }

  /** One more buffer, laid out and READY. */
  lemma OneMoreBuffer(lock: map<nat, Handoff.Lock>, nodes: seq<Node>, base: nat, size: nat, node: Node)
    requires Laid(nodes, base, size) && AllReady(lock, nodes)
    requires node !in nodes && node.framebuf == base + |nodes| * size
    ensures Laid(nodes + [node], base, size)
    ensures AllReady(lock[node.framebuf := Handoff.Ready], nodes + [node])
  {}

  /** The lock word of every buffer is READY. */
  ghost predicate AllReady(lock: map<nat, Handoff.Lock>, nodes: seq<Node>) {
    forall i | 0 <= i < |nodes| :: nodes[i].framebuf in lock && lock[nodes[i].framebuf] == Handoff.Ready
  }

  /** The nodes form one cycle under `next`. */
  ghost predicate NextCycle(nodes: seq<Node>)
    reads nodes
  {
    forall i | 0 <= i < |nodes| :: nodes[i].next == nodes[Handoff.Next(i, |nodes|)]
  }

  /** `prev` runs the cycle backwards. */
  ghost predicate PrevCycle(nodes: seq<Node>)
    reads nodes
  {
    forall i | 0 <= i < |nodes| :: nodes[i].prev == nodes[Handoff.Prev(i, |nodes|)]
  }

  /** Linked so far: a chain not yet closed. */
  ghost predicate Chain(nodes: seq<Node>, double: bool)
    reads nodes
  {
    && (forall i | 0 <= i < |nodes| - 1 :: nodes[i].next == nodes[i + 1])
    && (double ==> forall i | 0 < i < |nodes| :: nodes[i].prev == nodes[i - 1])
  }

  /** The node of the i-th buffer, whose lock word it sets to READY. */
  method NewNode(segment: Segment, framebuf: nat) returns (node: Node)
    modifies segment`lock
    ensures fresh(node) && node.framebuf == framebuf && node.next == null && node.prev == null
    ensures segment.lock == old(segment.lock)[framebuf := Handoff.Ready]
  {
    node := new Node(framebuf);
    segment.lock := segment.lock[framebuf := Handoff.Ready];
  }

  lemma NoBuffer(lock: map<nat, Handoff.Lock>, base: nat, size: nat)
    ensures Laid([], base, size) && AllReady(lock, [])
  {}

  lemma LaidIsDistinct(nodes: seq<Node>, base: nat, size: nat)
    requires Laid(nodes, base, size)
    ensures Distinct(nodes)
  {}

  /** The chain grows by a node at its end. */
  method LinkBehind(frameLast: Node, frame: Node, ghost nodes: seq<Node>)
    requires nodes != [] && frameLast == nodes[|nodes| - 1] && Chain(nodes, true) && Distinct(nodes)
    requires frame !in nodes
    modifies frameLast`next, frame`prev
    ensures Chain(nodes + [frame], true)
  {
    frameLast.next := frame;
    frameLast.next.prev := frameLast;
  }

  /** The chain is closed in both directions. */
  method CloseRing(first: Node, frame: Node, ghost nodes: seq<Node>)
    requires nodes != [] && first == nodes[0] && frame == nodes[|nodes| - 1] && Chain(nodes, true)
    requires Distinct(nodes)
    modifies first, frame
    ensures NextCycle(nodes) && PrevCycle(nodes)
  {
    frame.next := first;
    frame.next.prev := frame;
  }

  /** The static frame at the head of the segment, and behind it the loop that builds the video ring. */
  method BuildVideoRing(segment: Segment, frames: nat) returns (head: Node, ghost nodes: seq<Node>)
    requires frames >= 1
    modifies segment
    ensures |nodes| == frames && head == nodes[0] && fresh(nodes)
    ensures Laid(nodes, STATIC_FRAME, SHM_FRAMEBUF) && NextCycle(nodes) && PrevCycle(nodes)
    ensures AllReady(segment.lock, nodes) && segment.flag == 0
  {
    hide Laid, AllReady;
    segment.flag := 0;
    var base := STATIC_FRAME;
    var first: Node?, frame: Node?, frameLast: Node? := null, null, null;
    nodes := [];
    NoBuffer(segment.lock, base, SHM_FRAMEBUF);
    for i := 0 to frames
      invariant |nodes| == i && (i == 0 ==> frameLast == null)
      invariant i > 0 ==> first == nodes[0] && frame == frameLast == nodes[i - 1]
      invariant fresh(nodes) && Laid(nodes, base, SHM_FRAMEBUF) && Chain(nodes, true)
      invariant AllReady(segment.lock, nodes) && segment.flag == 0
    {
      ghost var lock := segment.lock;
      frame := NewNode(segment, base + i * SHM_FRAMEBUF);
      OneMoreBuffer(lock, nodes, base, SHM_FRAMEBUF, frame);
      LaidIsDistinct(nodes, base, SHM_FRAMEBUF);
      if frameLast == null {
        first := frame;
      } else {
        LinkBehind(frameLast, frame, nodes);
      }
      frameLast := frame;
      nodes := nodes + [frame];
    }
    LaidIsDistinct(nodes, base, SHM_FRAMEBUF);
    CloseRing(first, frame, nodes);
    head := first;
  }

  method BuildAudioRing(segment: Segment, frames: nat) returns (head: Node, ghost nodes: seq<Node>)
    requires frames >= 1
    modifies segment`lock
    ensures |nodes| == frames && head == nodes[0] && fresh(nodes)
    ensures Laid(nodes, 0, AUDIO_FRAMEBUF) && NextCycle(nodes)
    ensures AllReady(segment.lock, nodes)
  {
    var first: Node?, frameLast: Node? := null, null;
    nodes := [];
    for i := 0 to frames
      invariant |nodes| == i && (i == 0 ==> first == null)
      invariant i > 0 ==> first == nodes[0] && frameLast == nodes[i - 1]
      invariant fresh(nodes) && Laid(nodes, 0, AUDIO_FRAMEBUF) && Chain(nodes, false)
      invariant AllReady(segment.lock, nodes)
    {
      var frame := NewNode(segment, i * AUDIO_FRAMEBUF);
      if first == null {
        first := frame;
      } else {
        frameLast.next := frame;
      }
      frameLast := frame;
      nodes := nodes + [frame];
    }
    frameLast.next := first;
    head := first;
  }

  // ----- what the rings are good for -----

  /** The lock words of a ring, in its order. */
  ghost function Locks(lock: map<nat, Handoff.Lock>, nodes: seq<Node>): seq<Handoff.Lock>
    requires AllReady(lock, nodes)
  {
    seq(|nodes|, i requires 0 <= i < |nodes| => lock[nodes[i].framebuf])
  }

  /** The hand-off starts from these locks. */
  lemma LocksAreInitial(lock: map<nat, Handoff.Lock>, nodes: seq<Node>)
    requires nodes != [] && AllReady(lock, nodes)
    ensures Locks(lock, nodes) == Handoff.Initial(|nodes|).lock
  {}

  /** The node reached by following `next` k times. */
  ghost function Follow(nodes: seq<Node>, start: Node?, k: nat): Node?
    reads nodes
  {
    if k == 0 then start
    else
      var n := Follow(nodes, start, k - 1);
      if n != null && n in nodes then n.next else null
  }

  function Steps(i: nat, k: nat, n: nat): (m: nat)
    requires i < n
    ensures m < n
  {
    if k == 0 then i else Handoff.Next(Steps(i, k - 1, n), n)
  }

  lemma {:induction false} StepsModulo(i: nat, k: nat, n: nat)
    requires i < n
    ensures Steps(i, k, n) == (i + k) % n
  {
    if k == 0 {
      ModIs(i, 0, i, n);
    } else {
      StepsModulo(i, k - 1, n);
      Handoff.NextIsModular(Steps(i, k - 1, n), n);
      ModStep(i + k - 1, 1, n);
    }
  }

  lemma {:induction false} FollowSteps(nodes: seq<Node>, i: nat, k: nat)
    requires i < |nodes| && NextCycle(nodes)
    ensures Follow(nodes, nodes[i], k) == nodes[Steps(i, k, |nodes|)]
  {
    if k > 0 { FollowSteps(nodes, i, k - 1); }
  }

  /** Following `next` is counting modulo the number of buffers: the ring used by the two processes. */
  lemma FollowCountsModulo(nodes: seq<Node>, i: nat, k: nat)
    requires i < |nodes| && NextCycle(nodes)
    ensures (i + k) % |nodes| < |nodes| && Follow(nodes, nodes[i], k) == nodes[(i + k) % |nodes|]
  {
    FollowSteps(nodes, i, k);
    StepsModulo(i, k, |nodes|);
  }

  /** One cycle: every buffer is reached from every other, and `prev` undoes `next`. */
  lemma OneCycle(nodes: seq<Node>, i: nat, j: nat)
    requires i < |nodes| && j < |nodes| && NextCycle(nodes) && PrevCycle(nodes)
    ensures exists k: nat :: k < |nodes| && Follow(nodes, nodes[i], k) == nodes[j]
    ensures nodes[i].next != null && nodes[i].next.prev == nodes[i]
    ensures nodes[i].prev != null && nodes[i].prev.next == nodes[i]
  {
    var n := |nodes|;
    var k := if j >= i then j - i else j + n - i;
    FollowCountsModulo(nodes, i, k);
    if j >= i { ModIs(i + k, 0, j, n); } else { ModIs(i + k, 1, j, n); }
    assert Handoff.Prev(Handoff.Next(i, n), n) == i;
  }

  /**
   The buffers do not overlap, and with the static frame before them they lie inside the segment asked for,
   which has room for a static frame per buffer although there is only one.
   */
  lemma BuffersFit(nodes: seq<Node>, i: nat)
    requires i < |nodes| && Laid(nodes, STATIC_FRAME, SHM_FRAMEBUF)
    ensures STATIC_FRAME <= nodes[i].framebuf && nodes[i].framebuf + SHM_FRAMEBUF <= VideoSegment(|nodes|)
    ensures forall j | i < j < |nodes| :: nodes[i].framebuf + SHM_FRAMEBUF <= nodes[j].framebuf
    ensures i + 1 == |nodes| ==> nodes[i].framebuf + SHM_FRAMEBUF + i * STATIC_FRAME == VideoSegment(|nodes|)
  {}

  lemma AudioBuffersFit(nodes: seq<Node>, i: nat)
    requires i < |nodes| && Laid(nodes, 0, AUDIO_FRAMEBUF)
    ensures nodes[i].framebuf + AUDIO_FRAMEBUF <= AudioSegment(|nodes|)
    ensures i + 1 == |nodes| ==> nodes[i].framebuf + AUDIO_FRAMEBUF == AudioSegment(|nodes|)
    ensures forall j | i < j < |nodes| :: nodes[i].framebuf + AUDIO_FRAMEBUF <= nodes[j].framebuf
  {}
}
