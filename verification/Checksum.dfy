/** The Internet checksum of kernel/net/net.c, and the packets it protects: IPv4
    headers and ICMP echo messages, from the sender to the receiver's check. */
module Checksum {
  import opened Machine

  type Address = a: seq<Byte> | |a| == 4 witness [0, 0, 0, 0]

  function Put(b: seq<Byte>, at: nat, x: nat): seq<Byte>
    requires at + 2 <= |b| && x < W16
  {
    b[at := x % 0x100][at + 1 := x / 0x100]
  }

  /** The words of a buffer added up; a last odd byte counts as a word. */
  function Sum(b: seq<Byte>): nat {
    if |b| == 0 then 0 else if |b| == 1 then b[0] as nat else U16(b, 0) + Sum(b[2..])
  }

  /** Carries folded back until 16 bits are left. */
  function Fold(s: nat): (r: nat)
    ensures r < W16
    decreases s
  {
    if s < W16 then s else Fold(s % W16 + s / W16)
  }

  /** Folding is reduction modulo 65535 that keeps zero and non-zero apart. */
  lemma {:induction false} FoldMod(s: nat)
    ensures Fold(s) % 0xFFFF == s % 0xFFFF && (Fold(s) == 0 <==> s == 0)
    decreases s
  {
    if s >= W16 {
      FoldMod(s % W16 + s / W16);
      CarryMod(s);
    }
  }

  lemma CarryMod(s: nat)
    ensures (s % W16 + s / W16) % 0xFFFF == s % 0xFFFF
  {
    assert s == 0xFFFF * (s / W16) + (s % W16 + s / W16);
  }

  function Of(b: seq<Byte>): nat { 0xFFFF - Fold(Sum(b)) }

  lemma {:induction false} SumBound(b: seq<Byte>)
    ensures Sum(b) <= 0xFFFF * ((|b| + 1) / 2)
    decreases |b|
  {
    if |b| >= 2 { SumBound(b[2..]); }
  }

  /** Storing a word at an even offset moves the sum by the difference. */
  lemma {:induction false} SumPut(b: seq<Byte>, at: nat, x: nat)
    requires at % 2 == 0 && at + 2 <= |b| && x < W16
    ensures Sum(Put(b, at, x)) + U16(b, at) == Sum(b) + x
    decreases at
  {
    if at == 0 {
      assert Put(b, 0, x)[2..] == b[2..];
    } else {
      assert Put(b, at, x)[2..] == Put(b[2..], at - 2, x);
      SumPut(b[2..], at - 2, x);
    }
  }

  /** What the receiver's comparison with zero accepts. */
  lemma ZeroIff(b: seq<Byte>)
    ensures Of(b) == 0 <==> Sum(b) > 0 && Sum(b) % 0xFFFF == 0
  {
    FoldMod(Sum(b));
  }

  /** A checksum filled into its zeroed field makes the whole buffer check, for every
      buffer and every even offset. */
  lemma FilledChecks(b: seq<Byte>, at: nat)
    requires at % 2 == 0 && at + 2 <= |b| && U16(b, at) == 0
    ensures Of(Put(b, at, Of(b))) == 0
  {
    SumPut(b, at, Of(b));
    FoldMod(Sum(b));
    Complement(Sum(b), Fold(Sum(b)));
    ZeroIff(Put(b, at, Of(b)));
  }

  lemma Complement(s: nat, f: nat)
    requires f % 0xFFFF == s % 0xFFFF && f <= 0xFFFF && (f == 0 <==> s == 0)
    ensures (s + (0xFFFF - f)) % 0xFFFF == 0 && s + (0xFFFF - f) > 0
  {}

  /** A field is accepted with another value exactly if the two differ by 65535, that
      is, for 0 against 0xFFFF. */
  lemma OtherValueIff(b: seq<Byte>, at: nat, x: nat)
    requires at % 2 == 0 && at + 2 <= |b| && x < W16 && Of(b) == 0 && x != U16(b, at)
    requires Sum(Put(b, at, x)) > 0
    ensures Of(Put(b, at, x)) == 0 <==> {x, U16(b, at)} == {0, 0xFFFF}
  {
    SumPut(b, at, x);
    ZeroIff(b);
    ZeroIff(Put(b, at, x));
    OffByModulus(Sum(b), U16(b, at), x);
  }

  lemma OffByModulus(s: nat, w: nat, x: nat)
    requires s % 0xFFFF == 0 && w < W16 && x < W16 && w != x && w <= s
    ensures (s + x - w) % 0xFFFF == 0 <==> {x, w} == {0, 0xFFFF}
  {
    assert (s + x - w) % 0xFFFF == (x - w) % 0xFFFF;
    assert 0 in {x, w} && 0xFFFF in {x, w} <==> {x, w} == {0, 0xFFFF};
  }

  /** Changing one byte moves the sum by its difference, 256-fold at an odd offset. */
  lemma {:induction false} SumByte(b: seq<Byte>, at: nat, x: Byte)
    requires at < |b|
    ensures Sum(b[at := x]) == Sum(b) + (x as int - b[at] as int) * (if at % 2 == 0 then 1 else 0x100)
    decreases at
  {
    if at < 2 {
      if |b| >= 2 { assert b[at := x][2..] == b[2..]; }
    } else {
      assert b[at := x][2..] == b[2..][at - 2 := x];
      SumByte(b[2..], at - 2, x);
    }
  }

  /** No change to a single byte of a buffer that checks goes unnoticed, the last odd byte
      included. */
  lemma ByteChangeSeen(b: seq<Byte>, at: nat, x: Byte)
    requires at < |b| && Of(b) == 0 && x != b[at]
    ensures Of(b[at := x]) != 0
  {
    SumByte(b, at, x);
    ZeroIff(b);
    ZeroIff(b[at := x]);
    SmallStep(Sum(b), (x as int - b[at] as int) * (if at % 2 == 0 then 1 else 0x100));
  }

  lemma SmallStep(s: nat, d: int)
    requires s % 0xFFFF == 0 && d != 0 && -0xFFFF < d < 0xFFFF
    ensures (s + d) % 0xFFFF != 0
  {}

  /** ip_checksum. The 32-bit accumulator never wraps for a length that fits 16 bits. */
  method IpChecksum(b: seq<Byte>) returns (c: nat)
    requires |b| <= 0xFFFF
    ensures c == Of(b)
  {
    var sum: nat := AddWords(b);
    while sum / W16 != 0
      invariant Fold(sum) == Fold(Sum(b))
      decreases sum
    {
      sum := sum % W16 + sum / W16;
    }
    c := 0xFFFF - sum;
  }

  /** The adding loop and the odd byte. */
  method AddWords(b: seq<Byte>) returns (sum: nat)
    requires |b| <= 0xFFFF
    ensures sum == Sum(b) < W32
  {
    SumBound(b);
    sum := 0;
    var i: nat := 0;
    while |b| - i > 1
      invariant i <= |b| && sum + Sum(b[i..]) == Sum(b)
    {
      SumNext(b, i);
      NoWrap(sum + U16(b, i));
      sum := (sum + U16(b, i)) % W32;
      i := i + 2;
    }
    if |b| - i == 1 { sum := (sum + b[i]) % W32; }
  }

  lemma NoWrap(x: nat)
    requires x < W32
    ensures x % W32 == x
  {}

  lemma SumNext(b: seq<Byte>, i: nat)
    requires i + 2 <= |b|
    ensures Sum(b[i..]) == U16(b, i) + Sum(b[i + 2..])
  {
    assert b[i..][2..] == b[i + 2..];
  }

  // ----- IPv4

  const ICMP: Byte := 1

  /** An IPv4 header without options, with checksum field `c`. */
  function Header(src: Address, dst: Address, protocol: Byte, total: nat, c: nat): seq<Byte>
    requires total < W16 && c < W16
  {
    [0x45, 0, total / 0x100, total % 0x100, 0, 0, 0, 0, 64, protocol, c % 0x100, c / 0x100] + src + dst
  }

  function Ipv4(src: Address, dst: Address, protocol: Byte, payload: seq<Byte>): seq<Byte>
    requires |payload| <= 1480
  {
    var raw := Header(src, dst, protocol, 20 + |payload|, 0);
    Put(raw, 10, Of(raw)) + payload
  }

  /** The packet of send_ipv4 for a resolved address, built in place. */
  method SendIpv4(src: Address, dst: Address, protocol: Byte, payload: seq<Byte>) returns (pkt: seq<Byte>)
    requires |payload| <= 1480
    ensures pkt == Ipv4(src, dst, protocol, payload)
  {
    var ip := Header(src, dst, protocol, 20 + |payload|, 0);
    var c := IpChecksum(ip);
    ip := ip[10 := c % 0x100][11 := c / 0x100];
    pkt := ip + payload;
  }

  /** Every packet sent carries a header that checks, its addresses, its length and
      its payload. */
  lemma SentHeader(src: Address, dst: Address, protocol: Byte, payload: seq<Byte>)
    requires |payload| <= 1480
    ensures var p := Ipv4(src, dst, protocol, payload);
      && |p| == 20 + |payload| && Of(p[..20]) == 0 && p[9] == protocol && p[12..16] == src && p[16..20] == dst
      && p[2] as nat * 0x100 + p[3] as nat == |p| && p[20..] == payload
  {
    var raw := Header(src, dst, protocol, 20 + |payload|, 0);
    var p := Ipv4(src, dst, protocol, payload);
    FilledChecks(raw, 10);
    assert p[..20] == Put(raw, 10, Of(raw));
  }

  // ----- ICMP echo

  datatype Action = Drop | Reply(to: Address, icmp: seq<Byte>) | Answered

  function EchoRequest(n: nat): seq<Byte>
    requires n < W16
  {
    var raw: seq<Byte> := [8, 0, 0, 0, 0x12, 0x34, n / 0x100, n % 0x100];
    Put(raw, 2, Of(raw))
  }

  /** The reply to an echo request: type and checksum change, nothing else. */
  function EchoReply(icmp: seq<Byte>): seq<Byte>
    requires |icmp| >= 8
  {
    var raw := Put(icmp[0 := 0], 2, 0);
    Put(raw, 2, Of(raw))
  }

  /** handle_icmp on the message of an accepted packet from `src`. */
  method HandleIcmp(ip: seq<Byte>, src: Address, pending: bool, expected: nat) returns (a: Action)
    requires |ip| <= 0xFFFF
    ensures a == IcmpAction(ip, src, pending, expected)
  {
    if |ip| < 28 { return Drop; }
    var icmp := ip[20..];
    var c := IpChecksum(icmp);
    if c != 0 { return Drop; }
    if icmp[0] == 8 && icmp[1] == 0 {
      if |icmp| > 1480 { return Drop; }
      var r := icmp[0 := 0];
      r := r[2 := 0][3 := 0];
      var c2 := IpChecksum(r);
      r := r[2 := c2 % 0x100][3 := c2 / 0x100];
      return Reply(src, r);
    } else if icmp[0] == 0 && pending {
      return if icmp[6] as nat * 0x100 + icmp[7] as nat == expected then Answered else Drop;
    }
    return Drop;
  }

  function IcmpAction(ip: seq<Byte>, src: Address, pending: bool, expected: nat): Action {
    if |ip| < 28 || Of(ip[20..]) != 0 then Drop
    else if ip[20] == 8 && ip[21] == 0 then
      if |ip| > 1500 then Drop else Reply(src, EchoReply(ip[20..]))
    else if ip[20] == 0 && pending && ip[26] as nat * 0x100 + ip[27] as nat == expected then Answered
    else Drop
  }

  const BROADCAST: Address := [255, 255, 255, 255]

  /** handle_ipv4: for us or broadcast, a header that checks, and ICMP. The length
      is the smaller of the header's and the frame's. */
  method HandleIpv4(data: seq<Byte>, us: Address, pending: bool, expected: nat) returns (a: Action)
    requires |data| <= 0xFFFF
    ensures a == Ipv4Action(data, us, pending, expected)
  {
    if |data| < 20 { return Drop; }
    if data[16..20] != us && data[16..20] != BROADCAST { return Drop; }
    var c := IpChecksum(data[..20]);
    if c != 0 { return Drop; }
    if data[9] != ICMP { return Drop; }
    var len := data[2] as nat * 0x100 + data[3] as nat;
    if len > |data| { len := |data|; }
    a := HandleIcmp(data[..len], data[12..16], pending, expected);
  }

  function Ipv4Action(data: seq<Byte>, us: Address, pending: bool, expected: nat): Action {
    if |data| < 20 || (data[16..20] != us && data[16..20] != BROADCAST) || Of(data[..20]) != 0 || data[9] != ICMP then Drop
    else
      var len := data[2] as nat * 0x100 + data[3] as nat;
      IcmpAction(data[..if len > |data| then |data| else len], data[12..16], pending, expected)
  }

  /** The 16-bit words of a buffer add up to a positive multiple of 65535. */
  predicate Checks(b: seq<Byte>) { Sum(b) > 0 && Sum(b) % 0xFFFF == 0 }

  /** The bytes of a received frame that belong to its packet. */
  function Received(data: seq<Byte>): nat
    requires |data| >= 4
  {
    if data[2] as nat * 0x100 + data[3] as nat <= |data| then data[2] as nat * 0x100 + data[3] as nat else |data|
  }

  /** A packet the handler looks into: for this host or for everyone, a header and a
      message that both check, ICMP, and at least eight bytes of message. */
  predicate Accepted(data: seq<Byte>, us: Address) {
    && |data| >= 20 && (data[16..20] == us || data[16..20] == [255, 255, 255, 255])
    && data[9] == 1 && Received(data) >= 28 && Checks(data[..20]) && Checks(data[20..Received(data)])
  }

  /** Exactly which packets are answered: the accepted echo requests whose reply fits an
      Ethernet frame. The reply goes to the sender, is as long as the request, checks,
      and differs from it in type and checksum alone. */
  lemma AnsweredIff(data: seq<Byte>, us: Address, pending: bool, expected: nat)
    ensures var a := Ipv4Action(data, us, pending, expected);
      && (a.Reply? <==> Accepted(data, us) && data[20] == 8 && data[21] == 0 && Received(data) <= 1500)
      && (a.Reply? ==>
            var len := Received(data);
            && a.to == data[12..16] && |a.icmp| == len - 20 && Checks(a.icmp)
            && a.icmp[0] == 0 && a.icmp[1] == 0 && a.icmp[4..] == data[24..len])
  {
    if |data| >= 20 {
      Inside(data);
      if Received(data) >= 28 {
        var icmp := data[20..Received(data)];
        ReplyChecks(icmp);
        ZeroIff(EchoReply(icmp));
        assert icmp[4..] == data[24..Received(data)];
      }
    }
  }

  /** Exactly which packets end a wait: an accepted echo reply, of any code, with the
      sequence number waited for, while a ping is pending. */
  lemma WaitEndsIff(data: seq<Byte>, us: Address, pending: bool, expected: nat)
    ensures Ipv4Action(data, us, pending, expected).Answered? <==>
            Accepted(data, us) && data[20] == 0 && pending && data[26] as nat * 0x100 + data[27] as nat == expected
  {
    if |data| >= 20 { Inside(data); }
  }

  /** What the two checks see of a frame. */
  lemma Inside(data: seq<Byte>)
    requires |data| >= 20
    ensures Of(data[..20]) == 0 <==> Checks(data[..20])
    ensures var len := Received(data);
      len >= 28 ==> data[..len][20..] == data[20..len] && (Of(data[20..len]) == 0 <==> Checks(data[20..len]))
  {
    ZeroIff(data[..20]);
    if Received(data) >= 28 { ZeroIff(data[20..Received(data)]); }
  }

  /** A sent ICMP message reaches the receiver's handler whole. */
  lemma SentArrives(src: Address, dst: Address, icmp: seq<Byte>, pending: bool, expected: nat)
    requires |icmp| <= 1480
    ensures var p := Ipv4(src, dst, ICMP, icmp); Ipv4Action(p, dst, pending, expected) == IcmpAction(p, src, pending, expected)
  {
    SentHeader(src, dst, ICMP, icmp);
    var p := Ipv4(src, dst, ICMP, icmp);
    assert p[..|p|] == p;
  }

  lemma RequestChecks(n: nat)
    requires n < W16
    ensures var e := EchoRequest(n); |e| == 8 && e[0] == 8 && e[1] == 0 && Of(e) == 0 && e[6] as nat * 0x100 + e[7] as nat == n
  {
    var raw: seq<Byte> := [8, 0, 0, 0, 0x12, 0x34, n / 0x100, n % 0x100];
    FilledChecks(raw, 2);
  }

  lemma ReplyChecks(icmp: seq<Byte>)
    requires |icmp| >= 8
    ensures var r := EchoReply(icmp); |r| == |icmp| && r[0] == 0 && r[1] == icmp[1] && Of(r) == 0 && r[4..] == icmp[4..]
  {
    FilledChecks(Put(icmp[0 := 0], 2, 0), 2);
  }

  /** Every echo request of at most 1480 bytes that checks is answered, and its answer
      passes the sender's checks: from the request to the end of the wait. */
  lemma EchoRoundTrip(a: Address, b: Address, icmp: seq<Byte>)
    requires 8 <= |icmp| <= 1480 && icmp[0] == 8 && icmp[1] == 0 && Of(icmp) == 0
    ensures forall p, n :: Ipv4Action(Ipv4(a, b, ICMP, icmp), b, p, n) == Reply(a, EchoReply(icmp))
    ensures |EchoReply(icmp)| == |icmp|
    ensures Ipv4Action(Ipv4(b, a, ICMP, EchoReply(icmp)), a, true, icmp[6] as nat * 0x100 + icmp[7] as nat) == Answered
  {
    ReplyChecks(icmp);
    forall p, n ensures Ipv4Action(Ipv4(a, b, ICMP, icmp), b, p, n) == Reply(a, EchoReply(icmp)) {
      SentArrives(a, b, icmp, p, n);
      SentHeader(a, b, ICMP, icmp);
    }
    var r := EchoReply(icmp);
    SentArrives(b, a, r, true, icmp[6] as nat * 0x100 + icmp[7] as nat);
    SentHeader(b, a, ICMP, r);
    assert r[6] == r[4..][2] && r[7] == r[4..][3];
  }

  /** A ping between any two hosts succeeds. */
  lemma PingAnswered(a: Address, b: Address, n: nat)
    requires n < W16
    ensures var e := EchoRequest(n);
      && |e| == 8 && Ipv4Action(Ipv4(a, b, ICMP, e), b, false, 0) == Reply(a, EchoReply(e))
      && |EchoReply(e)| == 8 && Ipv4Action(Ipv4(b, a, ICMP, EchoReply(e)), a, true, n) == Answered
  {
    RequestChecks(n);
    EchoRoundTrip(a, b, EchoRequest(n));
  }
}
