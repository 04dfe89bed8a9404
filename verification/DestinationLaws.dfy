/** What a destination string means: the numbers in it, its parts, and the fields of the destinations made from it. */
module DestinationLaws {
  import opened Modular
  import opened Destinations

  // ----- numbers -----

  ghost predicate AllDigits(ds: string) { forall i | 0 <= i < |ds| :: Digit(ds[i]) }

  /** The value of decimal digits, the last one counting one. */
  function Numeral(ds: string): nat
    requires AllDigits(ds)
  {
    if ds == "" then 0 else 10 * Numeral(ds[..|ds| - 1]) + (ds[|ds| - 1] as int - '0' as int)
  }

  /** The digits of a number, without leading zeros. */
  function Decimal(n: nat): (ds: string)
    ensures AllDigits(ds)
  {
    var last := [(n % 10 + '0' as int) as char];
    if n < 10 then last else Decimal(n / 10) + last
  }

  lemma {:induction false} NumeralOfDecimal(n: nat)
    ensures Numeral(Decimal(n)) == n
  {
    var ds := Decimal(n);
    if n >= 10 {
      NumeralOfDecimal(n / 10);
      assert ds[..|ds| - 1] == Decimal(n / 10);
    } else {
      assert ds[..0] == "";
    }
  }

  lemma {:induction false} DigitsSnoc(ds: string, c: char, acc: nat)
    requires AllDigits(ds) && Digit(c)
    ensures Digits(ds + [c], acc) == 10 * Digits(ds, acc) + (c as int - '0' as int)
  {
    if ds == "" {
      assert Digits([c][1..], 10 * acc + (c as int - '0' as int)) == 10 * acc + (c as int - '0' as int);
      assert "" + [c] == [c];
    } else {
      assert (ds + [c])[1..] == ds[1..] + [c];
      DigitsSnoc(ds[1..], c, 10 * acc + (ds[0] as int - '0' as int));
    }
  }

  /** Digits are read up to the first character that is none. */
  lemma {:induction false} DigitsStop(ds: string, rest: string, acc: nat)
    requires AllDigits(ds) && (rest != "" ==> !Digit(rest[0]))
    ensures Digits(ds + rest, acc) == Digits(ds, acc)
  {
    if ds == "" {
      assert ds + rest == rest;
    } else {
      assert (ds + rest)[1..] == ds[1..] + rest;
      DigitsStop(ds[1..], rest, 10 * acc + (ds[0] as int - '0' as int));
    }
  }

  lemma {:induction false} DigitsAreNumeral(ds: string)
    requires AllDigits(ds)
    ensures Digits(ds, 0) == Numeral(ds)
  {
    if ds != "" {
      var n := |ds| - 1;
      assert ds == ds[..n] + [ds[n]];
      DigitsAreNumeral(ds[..n]);
      DigitsSnoc(ds[..n], ds[n], 0);
    }
  }

  lemma {:induction false} TrimBlanks(blanks: string, s: string)
    requires (forall i | 0 <= i < |blanks| :: Blank(blanks[i])) && (s != "" ==> !Blank(s[0]))
    ensures Trim(blanks + s) == s
  {
    if blanks == "" {
      assert blanks + s == s;
    } else {
      assert (blanks + s)[1..] == blanks[1..] + s;
      TrimBlanks(blanks[1..], s);
    }
  }

  /** Blanks, perhaps a sign, digits, and whatever follows are read as the number written; no digits read as 0. */
  lemma AtoiReads(blanks: string, sign: string, ds: string, rest: string)
    requires (forall i | 0 <= i < |blanks| :: Blank(blanks[i])) && sign in {"", "+", "-"} && AllDigits(ds)
    requires rest != "" ==> !Digit(rest[0]) && (sign == "" && ds == "" ==> !Blank(rest[0]) && rest[0] !in "+-")
    ensures Atoi(blanks + sign + ds + rest) == (if sign == "-" then 0 - Numeral(ds) else Numeral(ds))
  {
    hide SignedDigits;
    var t := sign + ds + rest;
    assert blanks + sign + ds + rest == blanks + t;
    NoBlankInFront(sign, ds, rest);
    TrimBlanks(blanks, t);
    SignIsRead(sign, ds, rest);
  }

  lemma NoBlankInFront(sign: string, ds: string, rest: string)
    requires sign in {"", "+", "-"} && AllDigits(ds)
    requires rest != "" && sign == "" && ds == "" ==> !Blank(rest[0])
    ensures var t := sign + ds + rest; t != "" ==> !Blank(t[0])
  {}

  lemma SignIsRead(sign: string, ds: string, rest: string)
    requires sign in {"", "+", "-"} && AllDigits(ds)
    requires rest != "" ==> !Digit(rest[0]) && (sign == "" && ds == "" ==> rest[0] !in "+-")
    ensures SignedDigits(sign + ds + rest) == (if sign == "-" then 0 - Numeral(ds) else Numeral(ds))
  {
    hide Numeral, Digits;
    var t := sign + ds + rest;
    DigitsStop(ds, rest, 0);
    DigitsAreNumeral(ds);
    if sign == "" {
      assert t == ds + rest;
    } else {
      assert t[1..] == ds + rest;
    }
  }

  /** The decimal notation of a number is read as that number. */
  lemma AtoiOfDecimal(n: nat)
    ensures Atoi(Decimal(n)) == n
  {
    NumeralOfDecimal(n);
    AtoiReads("", "", Decimal(n), "");
    assert "" + "" + Decimal(n) + "" == Decimal(n);
  }

  // ----- parts -----

  ghost predicate SlashFree(parts: seq<string>) { forall i | 0 <= i < |parts| :: '/' !in parts[i] }

  /** The last part made longer. */
  function Longer(parts: seq<string>, part: string): seq<string>
    requires |parts| >= 1
  {
    parts[..|parts| - 1] + [parts[|parts| - 1] + part]
  }

  lemma LongerTwice(parts: seq<string>, part: string, c: char)
    requires |parts| >= 1
    ensures Longer(Longer(parts, part), [c]) == Longer(parts, part + [c])
  {
    var front, last := parts[..|parts| - 1], parts[|parts| - 1];
    assert (front + [last + part])[..|front|] == front;
    assert last + part + [c] == last + (part + [c]);
  }

  lemma LongerByNothing(parts: seq<string>)
    requires |parts| >= 1
    ensures Longer(parts, "") == parts
  {
    assert parts[|parts| - 1] + "" == parts[|parts| - 1];
  }

  lemma SplitCharacter(s: string, c: char)
    ensures Split(s + [c]) == if c == '/' then Split(s) + [""] else Longer(Split(s), [c])
  {
    assert (s + [c])[..|s|] == s;
  }

  lemma {:induction false} SplitLonger(s: string, part: string)
    requires '/' !in part
    ensures Split(s + part) == Longer(Split(s), part)
  {
    hide Split, Longer;
    if part == "" {
      assert s + part == s;
      LongerByNothing(Split(s));
    } else {
      var front, c := part[..|part| - 1], part[|part| - 1];
      assert forall x | x in front :: x in part;
      SplitLonger(s, front);
      SplitCharacter(s + front, c);
      LongerTwice(Split(s), front, c);
      assert front + [c] == part && s + front + [c] == s + part;
    }
  }

  /** Splitting a string put together from parts gives the parts. */
  lemma {:induction false} SplitJoin(parts: seq<string>)
    requires |parts| >= 1 && SlashFree(parts)
    ensures Split(Join(parts)) == parts
  {
    hide Join;
    if |parts| == 1 {
      SplitLonger("", parts[0]);
      JoinOne(parts[0]);
      assert "" + parts[0] == parts[0] && Split("") == [""] && parts == [parts[0]];
    } else {
      var front, last := parts[..|parts| - 1], parts[|parts| - 1];
      hide Split;
      assert parts == front + [last];
      SplitJoin(front);
      JoinSnoc(front, last);
      SplitCharacter(Join(front), '/');
      SplitLonger(Join(front) + "/", last);
      LongerByEmpty(front, last);
    }
  }

  lemma LongerByEmpty(front: seq<string>, last: string)
    ensures Longer(front + [""], last) == front + [last]
  {
    assert (front + [""])[..|front|] == front && "" + last == last;
  }

  // ----- the fields of a destination -----

  /** The number given in the part at i, if there is one and it is positive, otherwise the default. */
  function Given(parts: seq<string>, i: nat, default: int): int {
    if i < |parts| && Atoi(parts[i]) >= 1 then Atoi(parts[i]) else default
  }

  /** host/port/TTL/interface, each but the host optional, further parts ignored. */
  lemma DestinationFields(d: Defaults, parts: seq<string>)
    requires |parts| >= 1 && SlashFree(parts) && |Join(parts)| <= DEST_STR_LEN
    ensures var (to, rtcp) := (RtpDest(d, Join(parts)).to, RtcpDest(d, Join(parts)).to);
      && to.host == (if |parts| == 1 && |parts[0]| == DEST_STR_LEN then parts[0][..DEST_STR_LEN - 1] else parts[0])
      && to.port == Given(parts, 1, d.port) && to.ttl == Given(parts, 2, d.ttl)
      && to.ifname == (if |parts| >= 4 then Some(parts[3]) else d.ifname)
      && rtcp == to.(port := to.port + 1)
  {
    SplitJoin(parts);
  }

  /** A string that is too long leaves every field at its default, and the host empty. */
  lemma TooLongIsDefaulted(d: Defaults, s: string)
    requires |s| > DEST_STR_LEN
    ensures RtpDest(d, s).to == Parsed("", Given([], 1, d.port), Given([], 2, d.ttl), d.ifname)
    ensures RtcpDest(d, s).to == Parsed("", d.port + 1, d.ttl, d.ifname)
  {}

  /** The address family is what the flags fix, the IPv4 flag before the other. */
  lemma FamilyIsChosen(d: Defaults, s: string)
    ensures RtpDest(d, s).family == RtcpDest(d, s).family
    ensures RtpDest(d, s).family == Inet <==> d.ipv4Only
    ensures RtpDest(d, s).family == Inet6 <==> d.ipv6Only && !d.ipv4Only
    ensures RtpDest(d, s).family == Unspecified <==> !d.ipv4Only && !d.ipv6Only
  {}

  /** `host/port` with the port in decimal, the usual case. */
  lemma HostAndPort(d: Defaults, host: string, port: nat)
    requires '/' !in host && port >= 1 && |host + "/" + Decimal(port)| <= DEST_STR_LEN
    ensures var s := host + "/" + Decimal(port);
      && RtpDest(d, s).to == Parsed(host, port, d.ttl, d.ifname)
      && RtcpDest(d, s).to == Parsed(host, port + 1, d.ttl, d.ifname)
  {
    var parts := [host, Decimal(port)];
    assert '/' !in Decimal(port) by { assert AllDigits(Decimal(port)); }
    assert parts[..1] == [host];
    assert Join(parts) == host + "/" + Decimal(port);
    AtoiOfDecimal(port);
    DestinationFields(d, parts);
  }
}
