/**
 The receiver's counting of lost packets (dvrecv/read.c) and the RTCP receiver reports made
 from it (dvrecv/rtcp.c). All counters are 32 bits wide; a sequence number has 16 bits.
 */
module Loss {
  import opened Dif
  import opened Modular

  datatype Meter = Meter(prev: nat, lossSum: nat, count: nat)

  /** The fields of a report: eight bits, and 24 bits with a sign; `full` is the 32-bit value they come from. */
  datatype Report = Report(fraction: nat, lost: int, full: nat)

  const START := Meter(0, 0, 0)

  /** The numbers skipped by a packet; none is counted for the first packet, after number 0, or backwards. */
  function Gap(prev: nat, seqno: nat): nat {
    if prev != 0 && prev < seqno then seqno - prev - 1 else 0
  }

  /** Accounting for one packet. */
  function CountPacket(m: Meter, seqno: nat): Meter {
    Meter(seqno, (m.lossSum + Gap(m.prev, seqno)) % TWO32, (m.count + 1) % TWO32)
  }

  function Signed24(x: nat): int {
    if x % 0x100_0000 >= 0x80_0000 then x % 0x100_0000 - 0x100_0000 else x % 0x100_0000
  }

  function Fraction(lossSum: nat, count: nat): nat
    requires count > 0
  {
    if lossSum != 0 then (lossSum * 256 % TWO32) / count % 256 else 0
  }

  /** `send_rtcp_rr`: no report without packets, otherwise a report and fresh counters. */
  function SendReport(m: Meter): (Meter, seq<Report>) {
    if m.count < 1 then (m, [])
    else (m.(lossSum := 0, count := 0), [Report(Fraction(m.lossSum, m.count), Signed24(m.lossSum), m.lossSum)])
  }

  // ----- loss against truth -----

  function Gaps(ss: seq<nat>): nat {
    if |ss| <= 1 then 0 else Gaps(ss[..|ss| - 1]) + Gap(ss[|ss| - 2], ss[|ss| - 1])
  }

  function Max(ss: seq<nat>): nat {
    if ss == [] then 0
    else if ss[|ss| - 1] > Max(ss[..|ss| - 1]) then ss[|ss| - 1] else Max(ss[..|ss| - 1])
  }

  function Between(lo: nat, hi: nat): (s: set<nat>)
    requires lo <= hi
    ensures |s| == hi - lo && forall x: nat :: x in s <==> lo <= x < hi
  {
    if lo == hi then {} else Between(lo, hi - 1) + {hi - 1}
  }

  /** The numbers from the first to the greatest that never arrived. */
  function Missing(ss: seq<nat>): set<nat>
    requires ss != []
  {
    set x: nat | ss[0] <= x <= Max(ss) && x !in ss
  }

  /** Arrivals, in any order and with duplicates, of which the first is the least. */
  predicate AtLeastFirst(ss: seq<nat>) { ss != [] && forall i | 0 <= i < |ss| :: ss[i] >= ss[0] }

  /** And it is not 0. */
  predicate FromFirst(ss: seq<nat>) { AtLeastFirst(ss) && ss[0] > 0 }

  /** A new greatest number right after the old one, or a repetition not more than one above its predecessor. */
  predicate TidyStep(ss: seq<nat>, s: nat)
    requires ss != []
  {
    if s > Max(ss) then ss[|ss| - 1] == Max(ss) else s in ss && s <= ss[|ss| - 1] + 1
  }

  predicate Tidy(ss: seq<nat>) {
    |ss| <= 1 || (Tidy(ss[..|ss| - 1]) && TidyStep(ss[..|ss| - 1], ss[|ss| - 1]))
  }

  lemma {:induction false} MaxBounds(ss: seq<nat>)
    ensures forall i | 0 <= i < |ss| :: ss[i] <= Max(ss)
  {
    if ss != [] {
      MaxBounds(ss[..|ss| - 1]);
      assert forall i | 0 <= i < |ss| - 1 :: ss[..|ss| - 1][i] == ss[i];
    }
  }

  lemma InSnoc(ss: seq<nat>, s: nat)
    ensures forall x: nat :: x in ss + [s] <==> x in ss || x == s
    ensures Max(ss + [s]) == if s > Max(ss) then s else Max(ss)
    ensures forall x | x in ss :: x <= Max(ss)
  {
    assert (ss + [s])[..|ss + [s]| - 1] == ss;
    MaxBounds(ss);
    assert (ss + [s])[|ss|] == s;
  }

  lemma MissingStep(ss: seq<nat>, s: nat)
    requires AtLeastFirst(ss) && s >= ss[0]
    ensures |Missing(ss + [s])| ==
            if s > Max(ss) then |Missing(ss)| + (s - Max(ss) - 1)
            else if s in ss then |Missing(ss)|
            else |Missing(ss)| - 1
  {
    hide Max;
    InSnoc(ss, s);
    assert ss[0] in ss && (ss + [s])[0] == ss[0];
    if s > Max(ss) {
      var leap := Between(Max(ss) + 1, s);
      assert Missing(ss + [s]) == Missing(ss) + leap;
      assert Missing(ss) !! leap;
    } else if s in ss {
      assert Missing(ss + [s]) == Missing(ss);
    } else {
      assert s in Missing(ss) && Missing(ss + [s]) == Missing(ss) - {s};
    }
  }

  /**
   The counter never under-counts: whatever the order of arrival, it counts at least the numbers truly
   missing; and it is exact if and only if every arrival is a new greatest number right after the old
   greatest one, or a repetition that does not leap ahead.
   */
  lemma {:induction false} LossNeverUnderCounted(ss: seq<nat>)
    requires FromFirst(ss)
    ensures Gaps(ss) >= |Missing(ss)|
    ensures Gaps(ss) == |Missing(ss)| <==> Tidy(ss)
  {
    if |ss| == 1 {
      assert Max(ss[..0]) == 0 && Max(ss) == ss[0];
      assert Missing(ss) == {};
    } else {
      var rest, s := ss[..|ss| - 1], ss[|ss| - 1];
      assert FromFirst(rest) by { assert forall i | 0 <= i < |rest| :: rest[i] == ss[i]; }
      LossNeverUnderCounted(rest);
      assert ss == rest + [s];
      MissingStep(rest, s);
      MaxBounds(rest);
    }
  }

  /** In particular it is exact when the numbers strictly increase. */
  lemma {:induction false} IncreasingIsTidy(ss: seq<nat>)
    requires forall i, j | 0 <= i < j < |ss| :: ss[i] < ss[j]
    ensures Tidy(ss) && (ss != [] ==> Max(ss) == ss[|ss| - 1] || ss[|ss| - 1] == 0)
  {
    if ss != [] { IncreasingIsTidy(ss[..|ss| - 1]); }
  }

  /** Lists of 16-bit numbers of which the first is the given one and the least. */
  ghost predicate Starts(ss: seq<nat>, first: nat) {
    AtLeastFirst(ss) && ss[0] == first && forall i | 0 <= i < |ss| :: ss[i] < TWO16
  }

  /** No arrival order is under-counted if and only if the first number is not 0. */
  lemma NeverUnderCountedIffFirstNotZero(first: nat)
    requires first < TWO16
    ensures (forall ss | Starts(ss, first) :: Gaps(ss) >= |Missing(ss)|) <==> first > 0
  {
    if first > 0 {
      forall ss | Starts(ss, first) ensures Gaps(ss) >= |Missing(ss)| { LossNeverUnderCounted(ss); }
    } else {
      FirstNumberZeroUnderCounts(2);
      assert Starts([0, 2], 0);
    }
  }

  /** After a first packet numbered 0 nothing is counted for the packet behind it. */
  lemma FirstNumberZeroUnderCounts(s: nat)
    requires s > 1
    ensures Gaps([0, s]) == 0 && |Missing([0, s])| == s - 1
  {
    InSnoc([0], s);
    assert Max([0]) == 0 && [0] + [s] == [0, s];
    assert Missing([0, s]) == Between(1, s);
  }

  // ----- numbers taken modulo 2^16 -----

  ghost predicate Increasing(xs: seq<nat>) { forall i, j | 0 <= i < j < |xs| :: xs[i] < xs[j] }

  function Wrapped(xs: seq<nat>): seq<nat> { seq(|xs|, i requires 0 <= i < |xs| => xs[i] % TWO16) }

  /** Nothing is lost between a and b, or both lie in the same round of 2^16 numbers and a is not its number 0. */
  predicate CountedInFull(a: nat, b: nat) { b == a + 1 || (a % TWO16 != 0 && a / TWO16 == b / TWO16) }

  ghost predicate AllCountedInFull(xs: seq<nat>) {
    forall i | 0 <= i < |xs| - 1 :: CountedInFull(xs[i], xs[i + 1])
  }

  lemma GapOfStep(a: nat, b: nat)
    requires a < b
    ensures Gap(a % TWO16, b % TWO16) <= b - a - 1
    ensures Gap(a % TWO16, b % TWO16) == b - a - 1 <==> CountedInFull(a, b)
  {}

  lemma {:induction false} MissingOfIncreasing(xs: seq<nat>)
    requires xs != [] && Increasing(xs)
    ensures |Missing(xs)| == xs[|xs| - 1] - xs[0] + 1 - |xs|
    ensures Max(xs) == xs[|xs| - 1]
  {
    if |xs| == 1 {
      assert Max(xs[..0]) == 0;
      assert Missing(xs) == {};
    } else {
      var rest, x := xs[..|xs| - 1], xs[|xs| - 1];
      assert Increasing(rest) && AtLeastFirst(rest);
      MissingOfIncreasing(rest);
      assert xs == rest + [x];
      MissingStep(rest, x);
      InSnoc(rest, x);
    }
  }

  lemma AllCountedSnoc(xs: seq<nat>)
    requires |xs| > 1
    ensures var n := |xs| - 1;
      AllCountedInFull(xs) <==> AllCountedInFull(xs[..n]) && CountedInFull(xs[n - 1], xs[n])
  {
    hide CountedInFull;
    assert forall i | 0 <= i < |xs| - 1 :: xs[..|xs| - 1][i] == xs[i];
  }

  lemma WrappedSnoc(xs: seq<nat>)
    requires |xs| > 1
    ensures var n := |xs| - 1;
      Gaps(Wrapped(xs)) == Gaps(Wrapped(xs[..n])) + Gap(xs[n - 1] % TWO16, xs[n] % TWO16)
  {
    hide Gap;
    var n := |xs| - 1;
    assert Wrapped(xs)[..n] == Wrapped(xs[..n]);
    assert Wrapped(xs)[n] == xs[n] % TWO16 && Wrapped(xs)[n - 1] == xs[n - 1] % TWO16;
  }

  /**
   Packets in order over any number of wraps: never more is counted than was lost, and all of it if and only
   if every step is counted in full. A loss behind number 0 or across a wrap is not.
   */
  lemma {:induction false} InOrderLoss(xs: seq<nat>)
    requires xs != [] && Increasing(xs)
    ensures Gaps(Wrapped(xs)) <= |Missing(xs)|
    ensures Gaps(Wrapped(xs)) == |Missing(xs)| <==> AllCountedInFull(xs)
  {
    hide CountedInFull, Gap, Missing, Max, Wrapped;
    MissingOfIncreasing(xs);
    if |xs| > 1 {
      var n := |xs| - 1;
      InOrderLoss(xs[..n]);
      MissingOfIncreasing(xs[..n]);
      AllCountedSnoc(xs);
      WrappedSnoc(xs);
      GapOfStep(xs[n - 1], xs[n]);
    } else {
      OneNumber(xs);
    }
  }

  lemma OneNumber(xs: seq<nat>)
    requires |xs| == 1
    ensures Gaps(Wrapped(xs)) == 0 && AllCountedInFull(xs)
  {}

  /** Nothing is counted if and only if no number but 0 is followed by one more than one above it. */
  lemma {:induction false} NothingCountedIff(ss: seq<nat>)
    ensures Gaps(ss) == 0 <==> forall i | 0 <= i < |ss| - 1 :: ss[i] == 0 || ss[i + 1] <= ss[i] + 1
  {
    if |ss| > 1 {
      var n := |ss| - 1;
      NothingCountedIff(ss[..n]);
      assert forall i | 0 <= i < n :: ss[..n][i] == ss[i];
    }
  }

  // ----- receiver reports -----

  datatype Happening = Arrived(seqno: nat) | Asked

  datatype Account = Account(m: Meter, reports: seq<Report>)

  function Settle(x: Account, h: Happening): Account {
    match h
    case Arrived(s) => x.(m := CountPacket(x.m, s))
    case Asked => var (m, r) := SendReport(x.m); Account(m, x.reports + r)
  }

  function Accounts(hs: seq<Happening>): Account {
    if hs == [] then Account(START, []) else Settle(Accounts(hs[..|hs| - 1]), hs[|hs| - 1])
  }

  function Arrivals(hs: seq<Happening>): seq<nat> {
    if hs == [] then []
    else Arrivals(hs[..|hs| - 1]) + (if hs[|hs| - 1].Arrived? then [hs[|hs| - 1].seqno] else [])
  }

  function Reported(rs: seq<Report>): nat {
    if rs == [] then 0 else Reported(rs[..|rs| - 1]) + rs[|rs| - 1].full
  }

  /** Packets since the counters were last made fresh. */
  function Since(hs: seq<Happening>): nat {
    if hs == [] then 0
    else
      var rest := hs[..|hs| - 1];
      if hs[|hs| - 1].Arrived? then Since(rest) + 1
      else if Accounts(rest).m.count < 1 then Since(rest) else 0
  }

  /** The number of the last packet, 0 before the first. */
  function LastOf(ss: seq<nat>): nat { if ss == [] then 0 else ss[|ss| - 1] }

  lemma GapsSnoc(ss: seq<nat>, s: nat)
    ensures Gaps(ss + [s]) == Gaps(ss) + Gap(LastOf(ss), s)
  {}

  /** The losses reported so far and the loss still held add up to all loss counted, modulo 2^32. */
  ghost predicate AddsUp(x: Account, ss: seq<nat>) {
    && (Reported(x.reports) + x.m.lossSum) % TWO32 == Gaps(ss) % TWO32
    && x.m.prev == LastOf(ss) && x.m.lossSum < TWO32
  }

  lemma PacketAddsUp(x: Account, ss: seq<nat>, s: nat)
    requires AddsUp(x, ss)
    ensures AddsUp(Settle(x, Arrived(s)), ss + [s])
  {
    GapsSnoc(ss, s);
    AddBothSides(Reported(x.reports), x.m.lossSum, Gaps(ss), Gap(x.m.prev, s));
  }

  lemma ReportAddsUp(x: Account, ss: seq<nat>)
    requires AddsUp(x, ss)
    ensures AddsUp(Settle(x, Asked), ss)
  {
    if x.m.count >= 1 {
      var r := SendReport(x.m).1[0];
      assert (x.reports + [r])[..|x.reports|] == x.reports;
    } else {
      assert x.reports + [] == x.reports;
    }
  }

  /** Whatever the order of arrivals and requests, no counted loss is forgotten and none is reported twice. */
  lemma {:induction false} ReportsAddUp(hs: seq<Happening>)
    ensures AddsUp(Accounts(hs), Arrivals(hs))
  {
    if hs == [] {
      ModIs(0, 0, 0, TWO32);
    } else {
      var rest, h := hs[..|hs| - 1], hs[|hs| - 1];
      ReportsAddUp(rest);
      match h {
        case Arrived(s) => PacketAddsUp(Accounts(rest), Arrivals(rest), s);
        case Asked =>
          assert Arrivals(hs) == Arrivals(rest);
          ReportAddsUp(Accounts(rest), Arrivals(rest));
      }
    }
  }

  lemma {:induction false} CountIsSince(hs: seq<Happening>)
    ensures Accounts(hs).m.count == Since(hs) % TWO32
  {
    if hs == [] {
      ModIs(0, 0, 0, TWO32);
    } else {
      CountIsSince(hs[..|hs| - 1]);
      ModStep(Since(hs[..|hs| - 1]), 1, TWO32);
    }
  }

  lemma AddBothSides(a: nat, b: nat, total: nat, gap: nat)
    requires (a + b) % TWO32 == total % TWO32
    ensures (a + (b + gap) % TWO32) % TWO32 == (total + gap) % TWO32
  {}

  /** No packet since the last report means no loss held back, unless the packet counter has wrapped around. */
  lemma {:induction false} NoPacketsNoLoss(hs: seq<Happening>)
    ensures Since(hs) == 0 ==> Accounts(hs).m.lossSum == 0
    ensures Since(hs) < TWO32 && Accounts(hs).m.count == 0 ==> Accounts(hs).m.lossSum == 0
  {
    CountIsSince(hs);
    if hs != [] { NoPacketsNoLoss(hs[..|hs| - 1]); }
  }

  /**
   The eight-bit field is the loss per packet received, in 256ths and rounded down, if and only if fewer
   packets were lost than received and fewer than 2^24 were lost.
   */
  lemma FractionExact(lossSum: nat, count: nat)
    requires 0 < count < TWO32 && lossSum < TWO32
    ensures Fraction(lossSum, count) == 256 * lossSum / count <==> lossSum < count && lossSum < 0x100_0000
  {
    var x := 256 * lossSum;
    var q, y := x / TWO32, x % TWO32;
    FractionBelow(lossSum, count);
    if lossSum < count {
      QuotientBelow(x, 256, count);
      QuotientBelow(y, 256, count);
      if q >= 1 { QuotientDrops(x, y, q, count); }
    } else {
      QuotientAtLeast(x, 256, count);
    }
  }

  lemma FractionBelow(lossSum: nat, count: nat)
    requires count > 0
    ensures Fraction(lossSum, count) < 256
    ensures (256 * lossSum % TWO32) / count < 256 ==> Fraction(lossSum, count) == (256 * lossSum % TWO32) / count
  {
    if lossSum == 0 {
      QuotientIs(0, 0, 0, count);
    } else {
      LowByte((lossSum * 256 % TWO32) / count);
      assert lossSum * 256 == 256 * lossSum;
    }
  }

  lemma LowByte(q: nat)
    ensures q % 256 < 256 && (q < 256 ==> q % 256 == q)
  {}

  lemma QuotientBelow(x: nat, k: nat, m: nat)
    requires m > 0 && x < k * m
    ensures x / m < k
  {}

  lemma QuotientAtLeast(x: nat, k: nat, m: nat)
    requires m > 0 && x >= k * m
    ensures x / m >= k
  {
    if x / m < k { MulMonotone(x / m + 1, k, m); }
  }

  lemma MulMonotone(a: int, b: int, m: nat)
    requires a <= b
    ensures a * m <= b * m
  {}

  lemma QuotientDrops(x: nat, y: nat, q: nat, count: nat)
    requires 0 < count < TWO32 && q >= 1 && x == TWO32 * q + y
    ensures y / count < x / count
  {}

  /**
   RFC 3550, section 6.4.1, divides by the packets expected, that is received plus lost. Dividing by the
   packets received never gives less.
   */
  lemma FractionOverstates(lossSum: nat, count: nat)
    requires 0 < count < TWO32 && lossSum < count && lossSum < 0x100_0000
    ensures Fraction(lossSum, count) >= 256 * lossSum / (count + lossSum)
  {
    FractionExact(lossSum, count);
    SmallerDivisor(256 * lossSum, count, count + lossSum);
  }

  lemma SmallerDivisor(x: nat, a: nat, b: nat)
    requires 0 < a <= b
    ensures x / a >= x / b
  {
    assert b * (x / b) <= x;
    MulMonotone(a, b, x / b);
    QuotientAtLeast(x, x / b, a);
  }

  /** The 24-bit field is the loss itself if and only if that fits. */
  lemma LostFieldExact(lossSum: nat)
    requires lossSum < TWO32
    ensures Signed24(lossSum) == lossSum <==> lossSum < 0x80_0000
  {}

  // ----- what a report says -----

  /** Packets, and losses counted, since the last request. */
  function PacketsSince(hs: seq<Happening>): nat {
    if hs == [] || hs[|hs| - 1].Asked? then 0 else PacketsSince(hs[..|hs| - 1]) + 1
  }

  function LossSince(hs: seq<Happening>): nat {
    if hs == [] || hs[|hs| - 1].Asked? then 0
    else
      var rest := hs[..|hs| - 1];
      LossSince(rest) + Gap(LastOf(Arrivals(rest)), hs[|hs| - 1].seqno)
  }

  /** Neither counter passes 32 bits between two requests. */
  ghost predicate NoWrap(hs: seq<Happening>) {
    forall k | 0 <= k <= |hs| :: PacketsSince(hs[..k]) < TWO32 && LossSince(hs[..k]) < TWO32
  }

  lemma NoWrapPrefix(hs: seq<Happening>)
    requires hs != [] && NoWrap(hs)
    ensures NoWrap(hs[..|hs| - 1]) && PacketsSince(hs) < TWO32 && LossSince(hs) < TWO32
  {
    var rest := hs[..|hs| - 1];
    forall k | 0 <= k <= |rest| ensures PacketsSince(rest[..k]) < TWO32 && LossSince(rest[..k]) < TWO32 {
      assert rest[..k] == hs[..k];
    }
    assert hs[..|hs|] == hs;
  }

  lemma {:induction false} NoLossWithoutPackets(hs: seq<Happening>)
    ensures PacketsSince(hs) == 0 ==> LossSince(hs) == 0
  {}

  /** The counters hold the packets and losses since the last request, and the number of the last packet. */
  lemma {:induction false} CountersAreSince(hs: seq<Happening>)
    requires NoWrap(hs)
    ensures Accounts(hs).m == Meter(LastOf(Arrivals(hs)), LossSince(hs), PacketsSince(hs))
  {
    if hs != [] {
      hide Gap, NoWrap;
      var rest, h := hs[..|hs| - 1], hs[|hs| - 1];
      NoWrapPrefix(hs);
      CountersAreSince(rest);
      NoLossWithoutPackets(rest);
      match h {
        case Arrived(s) =>
          ModIs(LossSince(hs), 0, LossSince(hs), TWO32);
          ModIs(PacketsSince(hs), 0, PacketsSince(hs), TWO32);
        case Asked => assert Arrivals(hs) == Arrivals(rest);
      }
    }
  }

  /** A report of `lost` packets lost and `received` received since the one before. */
  ghost predicate Tells(r: Report, lost: nat, received: nat)
    requires received > 0
  {
    && r.full == lost
    && 0 <= r.fraction < 256
    && (lost < 0x100_0000 ==> r.fraction == (256 * lost / received) % 256)
    && (r.fraction == 256 * lost / received <==> lost < received && lost < 0x100_0000)
    && -0x80_0000 <= r.lost < 0x80_0000
    && (lost - r.lost) % 0x100_0000 == 0
    && (r.lost == lost <==> lost < 0x80_0000)
  }

  lemma ReportTells(lost: nat, received: nat)
    requires 0 < received < TWO32 && lost < TWO32
    ensures Tells(Report(Fraction(lost, received), Signed24(lost), lost), lost, received)
  {
    FractionBelow(lost, received);
    FractionExact(lost, received);
    LostFieldExact(lost);
    SignedIsCongruent(lost);
    if lost < 0x100_0000 { FractionLowByte(lost, received); }
  }

  lemma FractionLowByte(lost: nat, received: nat)
    requires received > 0 && lost < 0x100_0000
    ensures Fraction(lost, received) == (256 * lost / received) % 256
  {
    if lost == 0 {
      QuotientIs(0, 0, 0, received);
    } else {
      ModIs(lost * 256, 0, lost * 256, TWO32);
      assert lost * 256 == 256 * lost;
    }
  }

  lemma SignedIsCongruent(x: nat)
    ensures (x - Signed24(x)) % 0x100_0000 == 0
    ensures -0x80_0000 <= Signed24(x) < 0x80_0000
  {
    var q, r := x / 0x100_0000, x % 0x100_0000;
    if r >= 0x80_0000 {
      ModIs(x - Signed24(x), q + 1, 0, 0x100_0000);
    } else {
      ModIs(x - Signed24(x), q, 0, 0x100_0000);
    }
  }

  /**
   A request is answered by one report if a packet arrived since the one before, otherwise not at all; the
   report tells what was lost and received since then, and the counting starts afresh.
   */
  lemma RequestIsAnswered(hs: seq<Happening>)
    requires NoWrap(hs)
    ensures var (before, after) := (Accounts(hs).reports, Accounts(hs + [Asked]).reports);
      if PacketsSince(hs) == 0 then after == before
      else
        && |after| == |before| + 1 && after[..|before|] == before
        && Tells(after[|before|], LossSince(hs), PacketsSince(hs))
    ensures Accounts(hs + [Asked]).m == Meter(LastOf(Arrivals(hs)), 0, 0)
  {
    hide Tells, Fraction, Signed24;
    CountersAreSince(hs);
    NoLossWithoutPackets(hs);
    assert (hs + [Asked])[..|hs|] == hs;
    assert NoWrap(hs) ==> PacketsSince(hs[..|hs|]) < TWO32 && LossSince(hs[..|hs|]) < TWO32;
    assert hs[..|hs|] == hs;
    if PacketsSince(hs) > 0 { ReportTells(LossSince(hs), PacketsSince(hs)); }
  }

  // ----- the counters in place -----

  class Counters {
    var rtpSeqPrev: nat
    var pktLossSum: nat
    var pktCount: nat

    function Value(): Meter
      reads this
    {
      Meter(rtpSeqPrev, pktLossSum, pktCount)
    }

    ghost predicate Valid()
      reads this
    {
      rtpSeqPrev < TWO16 && pktLossSum < TWO32 && pktCount < TWO32
    }

    constructor ()
      ensures Valid() && Value() == START
    {
      rtpSeqPrev, pktLossSum, pktCount := 0, 0, 0;
    }

    /** The accounting at the head of the receive loop. */
    method Packet(seqno: nat)
      requires Valid() && seqno < TWO16
      modifies this
      ensures Valid() && Value() == CountPacket(old(Value()), seqno)
    {
      pktCount := (pktCount + 1) % TWO32;
      if rtpSeqPrev != 0 && rtpSeqPrev < seqno {
        pktLossSum := (pktLossSum + (seqno - rtpSeqPrev - 1)) % TWO32;
      }
      rtpSeqPrev := seqno;
    }

    /** `send_rtcp_rr`: the report sent, if any. */
    method SendRtcpRr() returns (reports: seq<Report>)
      requires Valid()
      modifies this
      ensures Valid() && (Value(), reports) == SendReport(old(Value()))
    {
      if pktCount < 1 {
        return [];
      }
      var fracPktLost := 0;
      if pktLossSum != 0 {
        fracPktLost := (pktLossSum * 256 % TWO32) / pktCount;
      }
      var pktLost := pktLossSum;
      pktLossSum := 0;
      pktCount := 0;
      reports := [Report(fracPktLost % 256, Signed24(pktLost), pktLost)];
    }

    /** Any interleaving of packets and report requests, from the start. */
    method Serve(hs: seq<Happening>) returns (reports: seq<Report>)
      requires Valid() && Value() == START
      requires forall i | 0 <= i < |hs| && hs[i].Arrived? :: hs[i].seqno < TWO16
      modifies this
      ensures Account(Value(), reports) == Accounts(hs)
      ensures (Reported(reports) + pktLossSum) % TWO32 == Gaps(Arrivals(hs)) % TWO32
    {
      reports := [];
      for i := 0 to |hs|
        invariant Valid() && Account(Value(), reports) == Accounts(hs[..i])
      {
        assert hs[..i + 1][..i] == hs[..i];
        match hs[i] {
          case Arrived(s) => Packet(s);
          case Asked =>
            var sent := SendRtcpRr();
            reports := reports + sent;
        }
      }
      assert hs[..|hs|] == hs;
      ReportsAddUp(hs);
    }
  }
}
