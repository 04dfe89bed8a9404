/** Destinations of the sender (dvsend/udp.c): `host/port/ttl/interface` strings and the lists built from them. */
module Destinations {

  datatype Option<T> = None | Some(value: T)

  const DEST_STR_LEN := 256
  const PART_LEN := 128

  /** What `_parse_dest_str` leaves in the fields of a zeroed destination. */
  datatype Parsed = Parsed(host: string, port: int, ttl: int, ifname: Option<string>)

  const NOTHING := Parsed("", 0, 0, None)

  // ----- splitting at slashes -----

  function Split(s: string): (parts: seq<string>)
    ensures |parts| >= 1
  {
    if s == "" then [""]
    else
      var (parts, c) := (Split(s[..|s| - 1]), s[|s| - 1]);
      if c == '/' then parts + [""] else parts[..|parts| - 1] + [parts[|parts| - 1] + [c]]
  }

  function Join(parts: seq<string>): string
    requires |parts| >= 1
  {
    if |parts| == 1 then parts[0] else Join(parts[..|parts| - 1]) + "/" + parts[|parts| - 1]
  }

  lemma JoinSnoc(front: seq<string>, last: string)
    requires |front| >= 1
    ensures Join(front + [last]) == Join(front) + "/" + last
  {}

  lemma JoinLonger(parts: seq<string>, c: char)
    requires |parts| >= 1
    ensures Join(parts[..|parts| - 1] + [parts[|parts| - 1] + [c]]) == Join(parts) + [c]
  {
    hide Join;
    var front, last := parts[..|parts| - 1], parts[|parts| - 1];
    if front == [] {
      JoinOne(last);
      JoinOne(last + [c]);
      assert parts == [last] && front + [last + [c]] == [last + [c]];
    } else {
      JoinSnoc(front, last);
      JoinSnoc(front, last + [c]);
      assert parts == front + [last];
      Associate(Join(front) + "/", last, [c]);
    }
  }

  lemma Associate(a: string, b: string, c: string)
    ensures a + (b + c) == a + b + c
  {}

  lemma JoinOne(part: string)
    ensures Join([part]) == part
  {}

  /** The parts put together with slashes are the string again ... */
  lemma {:induction false} SplitIsInverse(s: string)
    ensures Join(Split(s)) == s
  {
    hide Join;
    if s == "" {
      JoinOne("");
    } else {
      var rest, c := s[..|s| - 1], s[|s| - 1];
      SplitIsInverse(rest);
      if c == '/' {
        JoinSnoc(Split(rest), "");
        assert rest + "/" + "" == s;
      } else {
        JoinLonger(Split(rest), c);
        assert rest + [c] == s;
      }
    }
  }

  /** ... and contain no slash themselves. */
  lemma {:induction false} PartsHaveNoSlash(s: string)
    ensures forall i | 0 <= i < |Split(s)| :: '/' !in Split(s)[i]
  {
    if s != "" { PartsHaveNoSlash(s[..|s| - 1]); }
  }

  /** Space, and tab to carriage return. */
  predicate Blank(c: char) { c == ' ' || 9 <= c as int <= 13 }

  predicate Digit(c: char) { '0' <= c <= '9' }

  function Trim(s: string): string {
    if s != "" && Blank(s[0]) then Trim(s[1..]) else s
  }

  function Digits(s: string, acc: nat): nat {
    if s != "" && Digit(s[0]) then Digits(s[1..], 10 * acc + (s[0] as int - '0' as int)) else acc
  }

  function SignedDigits(t: string): int {
    if t != "" && t[0] == '-' then 0 - Digits(t[1..], 0)
    else if t != "" && t[0] == '+' then Digits(t[1..], 0)
    else Digits(t, 0)
  }

  /** The C library's conversion, on numbers that fit. */
  function Atoi(s: string): int { SignedDigits(Trim(s)) }

  /** Copying into a buffer of the given size, with room for the terminating zero. */
  function Fit(s: string, size: nat): string
    requires size >= 1
  {
    if |s| < size then s else s[..size - 1]
  }

  /**
   Host, port, TTL and interface are the first four parts; the rest is ignored. Without a slash the whole
   string is the host.
   */
  function FromParts(s: string): Parsed {
    var parts := Split(s);
    Parsed(if |parts| == 1 then Fit(s, DEST_STR_LEN) else parts[0],
           if |parts| >= 2 then Atoi(parts[1]) else 0,
           if |parts| >= 3 then Atoi(parts[2]) else 0,
           if |parts| >= 4 then Some(parts[3]) else None)
  }

  /** A string too long is refused and leaves the destination as it was. */
  function Parse(s: string): Parsed { if |s| > DEST_STR_LEN then NOTHING else FromParts(s) }

  /** Port, TTL and interface fit the local buffers they are copied to. */
  predicate PartsFit(s: string) {
    forall i | 1 <= i < |Split(s)| && i <= 3 :: |Split(s)[i]| < PART_LEN
  }

  lemma SplitSnoc(s: string, i: nat)
    requires i < |s|
    ensures var (parts, parts') := (Split(s[..i]), Split(s[..i + 1]));
      var n := |parts|;
      if s[i] == '/' then
        |parts'| == n + 1 && parts'[n] == "" && forall k | 0 <= k < n :: parts'[k] == parts[k]
      else
        |parts'| == n && parts'[n - 1] == parts[n - 1] + [s[i]] && forall k | 0 <= k < n - 1 :: parts'[k] == parts[k]
  {
    assert s[..i + 1][..i] == s[..i];
  }

  /** After i characters: the finished parts are in their fields and the last one starts at `prev`. */
  ghost predicate Scanned(s: string, i: nat, slashes: nat, prev: nat, p: Parsed)
    requires i <= |s|
  {
    var parts := Split(s[..i]);
    && slashes == |parts| - 1
    && prev <= i && (slashes <= 4 ==> s[prev..i] == parts[slashes])
    && p == Parsed(if slashes >= 1 then parts[0] else "",
                   if slashes >= 2 then Atoi(parts[1]) else 0,
                   if slashes >= 3 then Atoi(parts[2]) else 0,
                   if slashes >= 4 then Some(parts[3]) else None)
  }

  lemma ScanCharacter(s: string, i: nat, slashes: nat, prev: nat, p: Parsed)
    requires i < |s| && Scanned(s, i, slashes, prev, p) && s[i] != '/'
    ensures Scanned(s, i + 1, slashes, prev, p)
  {
    hide Atoi, Split;
    SplitSnoc(s, i);
    if slashes <= 4 { assert s[prev..i + 1] == s[prev..i] + [s[i]]; }
  }

  lemma ScanSlash(s: string, i: nat, slashes: nat, prev: nat, p: Parsed)
    requires i < |s| && Scanned(s, i, slashes, prev, p) && s[i] == '/'
    ensures slashes == 0 ==> Scanned(s, i + 1, 1, i + 1, p.(host := s[prev..i]))
    ensures slashes == 1 ==> Scanned(s, i + 1, 2, i + 1, p.(port := Atoi(s[prev..i])))
    ensures slashes == 2 ==> Scanned(s, i + 1, 3, i + 1, p.(ttl := Atoi(s[prev..i])))
    ensures slashes == 3 ==> Scanned(s, i + 1, 4, i + 1, p.(ifname := Some(s[prev..i])))
    ensures slashes >= 4 ==> Scanned(s, i + 1, slashes + 1, prev, p)
  {
    hide Atoi, Split;
    SplitSnoc(s, i);
    assert s[i + 1..i + 1] == "";
  }

  /** `_parse_dest_str` on the fields of a zeroed destination; -1 means that nothing was set. */
  method ParseDestStr(s: string) returns (r: int, p: Parsed)
    requires PartsFit(s)
    ensures p == Parse(s) && r == if |s| > DEST_STR_LEN then -1 else 1
  {
    p := NOTHING;
    if |s| > DEST_STR_LEN {
      return -1, p;
    }
    var slashes, prev := 0, 0;
    for i := 0 to |s|
      invariant Scanned(s, i, slashes, prev, p)
    {
      if s[i] != '/' {
        ScanCharacter(s, i, slashes, prev, p);
      } else {
        ScanSlash(s, i, slashes, prev, p);
        if slashes == 0 {
          p := p.(host := s[prev..i]);
          prev := i + 1;
        } else if slashes == 1 {
          p := p.(port := Atoi(s[prev..i]));
          prev := i + 1;
        } else if slashes == 2 {
          p := p.(ttl := Atoi(s[prev..i]));
          prev := i + 1;
        } else if slashes == 3 {
          p := p.(ifname := Some(s[prev..i]));
          prev := i + 1;
        }
        slashes := slashes + 1;
      }
    }
    assert s[..|s|] == s && s[prev..|s|] == s[prev..];
    if slashes == 0 {
      p := p.(host := Fit(s, DEST_STR_LEN));
    } else if slashes == 1 {
      p := p.(port := Atoi(s[prev..]));
    } else if slashes == 2 {
      p := p.(ttl := Atoi(s[prev..]));
    } else if slashes == 3 {
      p := p.(ifname := Some(s[prev..]));
    }
    r := 1;
  }

  // ----- the lists -----

  datatype Family = Unset | Inet | Inet6 | Unspecified

  /** What a destination is filled with: the parts of its string, and the family of its socket address. */
  datatype Address = Address(to: Parsed, family: Family)

  class Dest {
    var destStr: string
    var port: int
    var multiTtl: int
    var multiIfname: Option<string>
    var family: Family
    var next: Dest?

    constructor ()
      ensures destStr == "" && port == 0 && multiTtl == 0 && multiIfname == None
      ensures family == Unset && next == null
    {
      destStr, port, multiTtl, multiIfname, family, next := "", 0, 0, None, Unset, null;
    }

    function Value(): Address
      reads this
    {
      Address(Parsed(destStr, port, multiTtl, multiIfname), family)
    }
  }

  /** The defaults and flags of the command line. */
  datatype Defaults = Defaults(port: int, ttl: int, ifname: Option<string>, ipv4Only: bool, ipv6Only: bool)

  /** With IPv6 support the family stays open unless a flag fixes it; the first flag wins. */
  function Chosen(d: Defaults): Family {
    if d.ipv4Only then Inet else if d.ipv6Only then Inet6 else Unspecified
  }

  function Filled(p: Parsed, d: Defaults): Parsed {
    p.(ttl := if p.ttl < 1 then d.ttl else p.ttl, ifname := if p.ifname == None then d.ifname else p.ifname)
  }

  /** `_add_dest` */
  function RtpDest(d: Defaults, s: string): Address {
    var p := Parse(s);
    Address(Filled(p, d).(port := if p.port < 1 then d.port else p.port), Chosen(d))
  }

  /** `_add_rtcp_out` */
  function RtcpDest(d: Defaults, s: string): Address {
    var p := Parse(s);
    Address(Filled(p, d).(port := if p.port < 1 then d.port + 1 else p.port + 1), Chosen(d))
  }

  /**
   The RTCP destination is the RTP destination one port up, also where the port is missing, unusable or
   defaulted (RFC 3550, section 11).
   */
  ghost predicate Paired(rtp: seq<Address>, rtcp: seq<Address>) {
    && |rtp| == |rtcp|
    && forall i | 0 <= i < |rtp| :: rtcp[i] == rtp[i].(to := rtp[i].to.(port := rtp[i].to.port + 1))
  }

  /** A chain of destinations from `head`, in order. */
  ghost predicate Spine(head: Dest?, ds: seq<Dest>)
    reads ds
  {
    && (forall i, j | 0 <= i < j < |ds| :: ds[i] != ds[j])
    && head == (if ds == [] then null else ds[0])
    && (forall i | 0 <= i < |ds| - 1 :: ds[i].next == ds[i + 1])
    && (ds != [] ==> ds[|ds| - 1].next == null)
  }

  ghost function Values(ds: seq<Dest>): seq<Address>
    reads ds
  {
    seq(|ds|, i requires 0 <= i < |ds| reads ds => ds[i].Value())
  }

  /** `_dest_list_obj_last` */
  method Last(head: Dest, ghost ds: seq<Dest>) returns (last: Dest)
    requires ds != [] && Spine(head, ds)
    ensures last == ds[|ds| - 1]
  {
    last := head;
    ghost var i := 0;
    while last.next != null
      invariant 0 <= i < |ds| && last == ds[i] && (i < |ds| - 1 ==> last.next == ds[i + 1])
      decreases |ds| - i
    {
      last := last.next;
      i := i + 1;
    }
  }

  /** Appends a fresh destination to a list. */
  method Append(head: Dest?, ghost ds: seq<Dest>, dest: Dest) returns (head': Dest)
    requires Spine(head, ds) && dest !in ds && dest.next == null
    modifies if ds == [] then {} else {ds[|ds| - 1]}
    ensures Spine(head', ds + [dest])
    ensures Values(ds) == old(Values(ds)) && dest.Value() == old(dest.Value())
  {
    if head == null {
      head' := dest;
    } else {
      var last := Last(head, ds);
      last.next := dest;
      head' := head;
    }
  }

  method Fill(dest: Dest, s: string, d: Defaults, rtcp: bool)
    requires PartsFit(s)
    modifies dest`destStr, dest`port, dest`multiTtl, dest`multiIfname, dest`family
    ensures dest.Value() == if rtcp then RtcpDest(d, s) else RtpDest(d, s)
  {
    hide Parse;
    var _, p := ParseDestStr(s);
    dest.destStr, dest.port, dest.multiTtl, dest.multiIfname := p.host, p.port, p.ttl, p.ifname;
    if dest.port < 1 {
      dest.port := if rtcp then d.port + 1 else d.port;
    } else if rtcp {
      dest.port := dest.port + 1;
    }
    if dest.multiTtl < 1 {
      dest.multiTtl := d.ttl;
    }
    if dest.multiIfname == None {
      dest.multiIfname := d.ifname;
    }
    if d.ipv4Only {
      dest.family := Inet;
    } else if d.ipv6Only {
      dest.family := Inet6;
    } else {
      dest.family := Unspecified;
    }
  }

  /** A fresh destination filled from the string, at the end of a list. */
  method AppendFilled(head: Dest?, ghost ds: seq<Dest>, s: string, d: Defaults, rtcp: bool)
    returns (head': Dest, dest: Dest)
    requires Spine(head, ds) && PartsFit(s)
    modifies if ds == [] then {} else {ds[|ds| - 1]}
    ensures fresh(dest) && Spine(head', ds + [dest])
    ensures Values(ds + [dest]) == old(Values(ds)) + [if rtcp then RtcpDest(d, s) else RtpDest(d, s)]
  {
    hide RtpDest, RtcpDest;
    dest := new Dest();
    Fill(dest, s, d, rtcp);
    head' := Append(head, ds, dest);
    assert Values(ds + [dest]) == Values(ds) + [dest.Value()];
  }

  /** The sender's two lists; `rtp` and `rtcp` are their nodes in order. */
  class Param {
    const d: Defaults
    const useRtcp: bool
    var destList: Dest?
    var rtcpOutList: Dest?

    ghost var rtp: seq<Dest>
    ghost var rtcp: seq<Dest>

    ghost predicate Valid()
      reads this, rtp, rtcp
    {
      && Spine(destList, rtp) && Spine(rtcpOutList, rtcp)
      && (forall i, j | 0 <= i < |rtp| && 0 <= j < |rtcp| :: rtp[i] != rtcp[j])
    }

    constructor (d: Defaults, useRtcp: bool)
      ensures Valid() && this.d == d && this.useRtcp == useRtcp && rtp == [] && rtcp == []
    {
      this.d, this.useRtcp := d, useRtcp;
      destList, rtcpOutList, rtp, rtcp := null, null, [], [];
    }

    /** `add_destination`: one node at the end of each list, so that the lists stay in step when RTCP is on. */
    method AddDestination(s: string)
      requires Valid() && PartsFit(s)
      modifies this, rtp, rtcp
      ensures Valid() && Extends(old(rtp), rtp) && Extends(old(rtcp), rtcp)
      ensures Values(rtp) == old(Values(rtp)) + [RtpDest(d, s)]
      ensures Values(rtcp) == old(Values(rtcp)) + (if useRtcp then [RtcpDest(d, s)] else [])
    {
      hide RtpDest, RtcpDest;
      AddRtp(s);
      if useRtcp {
        AddRtcp(s);
      }
    }

    /** The old nodes with new ones behind them. */
    twostate predicate Extends(before: seq<Dest>, new after: seq<Dest>) {
      before <= after && forall i | |before| <= i < |after| :: fresh(after[i])
    }

    method AddRtp(s: string)
      requires Valid() && PartsFit(s)
      modifies this`destList, this`rtp, rtp
      ensures Valid() && rtcp == old(rtcp) && Values(rtcp) == old(Values(rtcp)) && Extends(old(rtp), rtp)
      ensures Values(rtp) == old(Values(rtp)) + [RtpDest(d, s)]
    {
      hide RtpDest, RtcpDest;
      var dest;
      destList, dest := AppendFilled(destList, rtp, s, d, false);
      rtp := rtp + [dest];
    }

    method AddRtcp(s: string)
      requires Valid() && PartsFit(s)
      modifies this`rtcpOutList, this`rtcp, rtcp
      ensures Valid() && rtp == old(rtp) && Values(rtp) == old(Values(rtp)) && Extends(old(rtcp), rtcp)
      ensures Values(rtcp) == old(Values(rtcp)) + [RtcpDest(d, s)]
    {
      hide RtpDest, RtcpDest;
      var out;
      rtcpOutList, out := AppendFilled(rtcpOutList, rtcp, s, d, true);
      rtcp := rtcp + [out];
    }
  }

  // ----- the lists over any number of calls -----

  function RtpList(d: Defaults, args: seq<string>): seq<Address> {
    seq(|args|, i requires 0 <= i < |args| => RtpDest(d, args[i]))
  }

  function RtcpList(d: Defaults, args: seq<string>): seq<Address> {
    seq(|args|, i requires 0 <= i < |args| => RtcpDest(d, args[i]))
  }

  /** The command line's destinations, in the order of the calls, with RTCP on. */
  method AddAll(param: Param, args: seq<string>)
    requires param.Valid() && param.rtp == [] && param.rtcp == [] && param.useRtcp
    requires forall i | 0 <= i < |args| :: PartsFit(args[i])
    modifies param
    ensures param.Valid()
    ensures Values(param.rtp) == RtpList(param.d, args) && Values(param.rtcp) == RtcpList(param.d, args)
    ensures Paired(Values(param.rtp), Values(param.rtcp))
  {
    hide RtpDest, RtcpDest, Spine;
    for i := 0 to |args|
      invariant param.Valid() && fresh(param.rtp) && fresh(param.rtcp)
      invariant Values(param.rtp) == RtpList(param.d, args[..i]) && Values(param.rtcp) == RtcpList(param.d, args[..i])
    {
      param.AddDestination(args[i]);
      assert RtpList(param.d, args[..i + 1]) == RtpList(param.d, args[..i]) + [RtpDest(param.d, args[i])];
      assert RtcpList(param.d, args[..i + 1]) == RtcpList(param.d, args[..i]) + [RtcpDest(param.d, args[i])];
    }
    assert args[..|args|] == args;
    ListsPaired(param.d, args);
  }

  lemma ListsPaired(d: Defaults, args: seq<string>)
    ensures Paired(RtpList(d, args), RtcpList(d, args))
  {}
}
