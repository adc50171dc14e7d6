/** core/kernel/shell/commands/network.c: the ICMP echo reply made in the received packet, and the ARP table. */
module Network {
  import opened Memory
  import opened Wrappers
  import opened Checksum

  const ETH: nat := 14       // sizeof(ethernet_header_t)
  const SRC: nat := 12       // offsets in the IP header
  const DST: nat := 16
  const IP_SUM: nat := 10
  const ICMP_SUM: nat := 2   // offset in the ICMP header

  // up to this length no word sum, with a checksum added, reaches 2^32
  const MAX_SUMMED: nat := 0x1_FFFE

  lemma {:induction false} WordSumBound(d: seq<byte>)
    ensures WordSum(d) <= 0xFFFF * ((|d| + 1) / 2)
    decreases |d|
  {
    if |d| >= 2 {
      WordSumBound(d[2..]);
      assert (|d[2..]| + 1) / 2 + 1 == (|d| + 1) / 2;
    }
  }

  /** d with its checksum field zeroed and the checksum of the result stored there. */
  function Sealed(d: seq<byte>, at: nat): (r: seq<byte>)
    requires at + 2 <= |d|
    ensures |r| == |d|
  {
    var z := Stored(d, at, 0);
    Stored(z, at, Check(z))
  }

  lemma SealedVerifies(d: seq<byte>, at: nat)
    requires at % 2 == 0 && at + 2 <= |d| <= MAX_SUMMED
    ensures Check(Sealed(d, at)) == 0
  {
    hide WordSum, Check;
    var z := Stored(d, at, 0);
    WordSumBound(z);
    StoreThenVerify(z, at);
  }

  /** Zero the field, compute, store: the three assignments the source makes for either header. */
  method Seal(packet: array<byte>, at: nat, len: nat, field: nat)
    requires at + len <= packet.Length && field + 2 <= len
    modifies packet
    ensures packet[at..at + len] == Sealed(old(packet[at..at + len]), field)
    ensures Only(old(packet[..]), packet[..], at, at + len)
  {
    hide Check;
    ghost var d := packet[at..at + len];
    packet[at + field] := 0;
    packet[at + field + 1] := 0;
    assert packet[at..at + len] == Stored(d, field, 0);
    var c := NetworkChecksum(packet, at, len);
    packet[at + field] := c % 256;
    packet[at + field + 1] := c / 256;
    assert packet[at..at + len] == Sealed(d, field);
  }

  /** The header with source and destination exchanged. */
  function Swapped(ip: seq<byte>): (r: seq<byte>)
    requires |ip| >= 20
    ensures |r| == |ip|
  {
    ip[..SRC] + ip[DST..20] + ip[SRC..DST] + ip[20..]
  }

  /** Sealing changes the two bytes of the field only. */
  lemma SealedBytes(d: seq<byte>, at: nat)
    requires at + 2 <= |d|
    ensures forall i :: 0 <= i < |d| && i != at && i != at + 1 ==> Sealed(d, at)[i] == d[i]
  {
    hide Check;
  }

  /** Source and destination trade places, the rest of the header stays. */
  lemma SwappedBytes(ip: seq<byte>)
    requires |ip| >= 20
    ensures Swapped(ip)[12..16] == ip[16..20] && Swapped(ip)[16..20] == ip[12..16]
    ensures forall i :: 0 <= i < |ip| && !(12 <= i < 20) ==> Swapped(ip)[i] == ip[i]
  {
  }

  /** What the reply is, byte by byte, apart from the two checksums: the addresses trade places, the type becomes 0. */
  ghost predicate Replied(was: seq<byte>, now: seq<byte>, h: nat, len: nat) {
    && 20 <= h && 14 + h + 4 <= len <= |was| == |now|
    && now[26..30] == was[30..34] && now[30..34] == was[26..30] && now[14 + h] == 0
    && forall x :: 0 <= x < |was| && !(24 <= x < 34) && x != 14 + h && x != 14 + h + 2 && x != 14 + h + 3 ==> now[x] == was[x]
  }

  lemma ReplyBytes(was: seq<byte>, now: seq<byte>, h: nat, len: nat)
    requires 20 <= h && ETH + h + 4 <= len <= |was| && Only(was, now, ETH, len)
    requires now[ETH..ETH + h] == Sealed(Swapped(was[ETH..ETH + h]), IP_SUM)
    requires now[ETH + h..len] == Sealed(was[ETH + h..len][0 := 0], ICMP_SUM)
    ensures Replied(was, now, h, len)
  {
    var ip, body := was[ETH..ETH + h], was[ETH + h..len][0 := 0];
    SwappedBytes(ip);
    SealedBytes(Swapped(ip), IP_SUM);
    SealedBytes(body, ICMP_SUM);
    hide Sealed, Swapped;
    forall x | ETH <= x < ETH + h ensures now[x] == now[ETH..ETH + h][x - ETH] && was[x] == ip[x - ETH] {
    }
    forall x | ETH + h <= x < len ensures now[x] == now[ETH + h..len][x - ETH - h] && (x != ETH + h ==> was[x] == body[x - ETH - h]) {
    }
    AddressBytes(was, now, h);
  }

  lemma AddressBytes(was: seq<byte>, now: seq<byte>, h: nat)
    requires 20 <= h && ETH + h <= |was| == |now|
    requires now[ETH..ETH + h] == Sealed(Swapped(was[ETH..ETH + h]), IP_SUM)
    ensures now[26..30] == was[30..34] && now[30..34] == was[26..30]
  {
    var ip, hdr := was[ETH..ETH + h], now[ETH..ETH + h];
    SwappedBytes(ip);
    SealedBytes(Swapped(ip), IP_SUM);
    hide Sealed, Swapped;
    SliceOfSlice(now, ETH, ETH + h, 12, 16);
    SliceOfSlice(now, ETH, ETH + h, 16, 20);
    SliceOfSlice(was, ETH, ETH + h, 12, 16);
    SliceOfSlice(was, ETH, ETH + h, 16, 20);
    assert hdr[12..16] == Swapped(ip)[12..16] && hdr[16..20] == Swapped(ip)[16..20];
  }

  lemma SliceOfSlice(s: seq<byte>, a: nat, b: nat, i: nat, j: nat)
    requires a <= b <= |s| && i <= j <= b - a
    ensures s[a..b][i..j] == s[a + i..a + j]
  {
    var l, r := s[a..b][i..j], s[a + i..a + j];
    assert |l| == |r|;
    forall k | 0 <= k < |l| ensures l[k] == r[k] {
      assert l[k] == s[a..b][i + k] == s[a + i + k];
    }
  }

  /** The branch of network_handle_packet for an IPv4 packet that carries an ICMP echo request for us:
      the packet is turned into the reply in place. */
  method HandleIp(packet: array<byte>, len: nat, myIp: nat) returns (sent: bool)
    requires ETH + 20 <= len <= packet.Length
    requires (Load(packet[..], ETH + DST, 4) == myIp || Load(packet[..], ETH + DST, 4) == 0xFFFF_FFFF) && packet[ETH + 9] == 1 ==>
               var h := packet[ETH] % 16 * 4; 20 <= h && ETH + h + 4 <= len
    modifies packet
    ensures sent <==> old((Load(packet[..], ETH + DST, 4) == myIp || Load(packet[..], ETH + DST, 4) == 0xFFFF_FFFF)
                          && packet[ETH + 9] == 1 && packet[ETH + packet[ETH] % 16 * 4] == 8)
    ensures !sent ==> packet[..] == old(packet[..])
    ensures sent ==> var h := old(packet[ETH] % 16 * 4);
                     && packet[ETH..ETH + h] == Sealed(Swapped(old(packet[ETH..ETH + h])), IP_SUM)
                     && packet[ETH + h..len] == Sealed(old(packet[ETH + h..len])[0 := 0], ICMP_SUM)
                     && Check(packet[ETH..ETH + h]) == 0
                     && (len - ETH - h <= MAX_SUMMED ==> Check(packet[ETH + h..len]) == 0)
                     && Only(old(packet[..]), packet[..], ETH, len)
                     && Replied(old(packet[..]), packet[..], h, len)
  {
    hide Check, Sealed, Load, Replied;
    var h := packet[ETH] % 16 * 4;
    var dest := Load(packet[..], ETH + DST, 4);
    sent := false;
    if dest == myIp || dest == 0xFFFF_FFFF {
      if packet[ETH + 9] == 1 {
        if packet[ETH + h] == 8 {
          Reply(packet, len, h);
          sent := true;
        }
      }
    }
  }

  /** Lines 117-124: type, ICMP checksum, addresses, header checksum. */
  method Reply(packet: array<byte>, len: nat, h: nat)
    requires 20 <= h <= 60 && ETH + h + 4 <= len <= packet.Length
    modifies packet
    ensures packet[ETH..ETH + h] == Sealed(Swapped(old(packet[ETH..ETH + h])), IP_SUM)
    ensures packet[ETH + h..len] == Sealed(old(packet[ETH + h..len])[0 := 0], ICMP_SUM)
    ensures Check(packet[ETH..ETH + h]) == 0
    ensures len - ETH - h <= MAX_SUMMED ==> Check(packet[ETH + h..len]) == 0
    ensures Only(old(packet[..]), packet[..], ETH, len)
    ensures Replied(old(packet[..]), packet[..], h, len)
  {
    hide Check, Sealed, Replied;
    var icmp := ETH + h;
    ghost var ip, body := packet[ETH..icmp], packet[icmp..len];
    packet[icmp] := 0;
    assert packet[icmp..len] == body[0 := 0] && packet[ETH..icmp] == ip;
    Seal(packet, icmp, len - ETH - h, ICMP_SUM);
    assert packet[ETH..icmp] == ip;
    ghost var sealed := packet[icmp..len];
    SwapAddresses(packet, ETH, h);
    assert packet[icmp..len] == sealed;
    Seal(packet, ETH, h, IP_SUM);
    assert packet[icmp..len] == sealed;
    SealedVerifies(Swapped(ip), IP_SUM);
    if len - ETH - h <= MAX_SUMMED { SealedVerifies(body[0 := 0], ICMP_SUM); }
    ghost var was, now := old(packet[..]), packet[..];
    assert was[ETH..icmp] == ip && was[icmp..len] == body && now[ETH..icmp] == packet[ETH..icmp] && now[icmp..len] == sealed;
    ReplyBytes(was, now, h, len);
  }

  lemma IsSwapped(d: seq<byte>, now: seq<byte>)
    requires 20 <= |d| == |now| && now[..SRC] == d[..SRC] && now[20..] == d[20..]
    requires now[12] == d[16] && now[13] == d[17] && now[14] == d[18] && now[15] == d[19]
    requires now[16] == d[12] && now[17] == d[13] && now[18] == d[14] && now[19] == d[15]
    ensures now == Swapped(d)
  {
    assert now[SRC..DST] == d[DST..20] && now[DST..20] == d[SRC..DST];
    assert now == now[..SRC] + now[SRC..DST] + now[DST..20] + now[20..];
  }

  method SwapAddresses(packet: array<byte>, ip: nat, h: nat)
    requires 20 <= h && ip + h <= packet.Length
    modifies packet
    ensures packet[ip..ip + h] == Swapped(old(packet[ip..ip + h]))
    ensures Only(old(packet[..]), packet[..], ip, ip + h)
  {
    ghost var d := packet[ip..ip + h];
    packet[ip + 12], packet[ip + 13], packet[ip + 14], packet[ip + 15],
    packet[ip + 16], packet[ip + 17], packet[ip + 18], packet[ip + 19] :=
      packet[ip + 16], packet[ip + 17], packet[ip + 18], packet[ip + 19],
      packet[ip + 12], packet[ip + 13], packet[ip + 14], packet[ip + 15];
    ghost var now := packet[ip..ip + h];
    assert now[..SRC] == d[..SRC] && now[20..] == d[20..];
    assert now[12] == d[16] && now[13] == d[17] && now[14] == d[18] && now[15] == d[19];
    assert now[16] == d[12] && now[17] == d[13] && now[18] == d[14] && now[19] == d[15];
    IsSwapped(d, now);
  }

  /** A reply to a request whose header checksum was right carries the same header checksum. */
  lemma ReplyKeepsHeaderChecksum(ip: seq<byte>, c: nat)
    requires 20 <= |ip| <= 60 && c < 0xFFFF && ip == Stored(ip, IP_SUM, c) && Check(ip) == 0
    requires WordSum(Stored(ip, IP_SUM, 0)) > 0
    ensures Sealed(Swapped(ip), IP_SUM) == Stored(Swapped(ip), IP_SUM, c)
  {
    hide Check, WordSum;
    var z := Stored(ip, IP_SUM, 0);
    WordSumBound(z);
    assert Stored(z, IP_SUM, c) == ip;
    RecomputeExact(z, IP_SUM, c);
    SwapKeeps(z[..SRC], z[SRC..DST], z[DST..20], z[20..]);
    assert z == z[..SRC] + z[SRC..DST] + z[DST..20] + z[20..];
    assert Stored(Swapped(ip), IP_SUM, 0) == z[..SRC] + z[DST..20] + z[SRC..DST] + z[20..];
    assert Stored(Stored(Swapped(ip), IP_SUM, 0), IP_SUM, c) == Stored(Swapped(ip), IP_SUM, c);
  }

  // ---------- ARP ----------

  const ARP_ENTRIES: nat := 16

  datatype ArpEntry = ArpEntry(ip: nat, mac: seq<byte>, valid: bool)

  /** The table as a list of pairs: the valid entries come first and their addresses differ. */
  ghost predicate ArpOk(t: seq<ArpEntry>, n: nat) {
    && |t| == ARP_ENTRIES && n <= ARP_ENTRIES
    && (forall i :: 0 <= i < ARP_ENTRIES ==> (t[i].valid <==> i < n))
    && (forall i, j :: 0 <= i < j < n ==> t[i].ip != t[j].ip)
  }

  /** The map that the first n entries stand for. */
  ghost function ArpMap(t: seq<ArpEntry>, n: nat): map<nat, seq<byte>>
    requires n <= |t|
  {
    if n == 0 then map[] else ArpMap(t, n - 1)[t[n - 1].ip := t[n - 1].mac]
  }

  lemma {:induction false} ArpMapAt(t: seq<ArpEntry>, n: nat)
    requires n <= |t| && forall i, j :: 0 <= i < j < n ==> t[i].ip != t[j].ip
    ensures forall ip :: ip in ArpMap(t, n) <==> exists i :: 0 <= i < n && t[i].ip == ip
    ensures forall i :: 0 <= i < n ==> t[i].ip in ArpMap(t, n) && ArpMap(t, n)[t[i].ip] == t[i].mac
    decreases n
  {
    if n > 0 { ArpMapAt(t, n - 1); }
  }

  lemma {:induction false} ArpMapPrefix(t: seq<ArpEntry>, t': seq<ArpEntry>, n: nat)
    requires n <= |t| && n <= |t'| && forall i :: 0 <= i < n ==> t'[i] == t[i]
    ensures ArpMap(t', n) == ArpMap(t, n)
    decreases n
  {
    if n > 0 { ArpMapPrefix(t, t', n - 1); }
  }

  lemma {:induction false} ArpMapReplaced(t: seq<ArpEntry>, n: nat, k: nat, e: ArpEntry)
    requires k < n <= |t| && e.ip == t[k].ip && forall i, j :: 0 <= i < j < n ==> t[i].ip != t[j].ip
    ensures ArpMap(t[k := e], n) == ArpMap(t, n)[e.ip := e.mac]
    decreases n
  {
    if k == n - 1 {
      ArpMapPrefix(t, t[k := e], n - 1);
    } else {
      ArpMapReplaced(t, n - 1, k, e);
      assert t[k].ip != t[n - 1].ip;
    }
  }

  class ArpTable {
    const entries: array<ArpEntry>
    ghost var n: nat

    ghost predicate Valid()
      reads this, entries
    {
      entries.Length == ARP_ENTRIES && ArpOk(entries[..], n)
    }

    ghost function Map(): map<nat, seq<byte>>
      requires Valid()
      reads this, entries
    {
      ArpMap(entries[..], n)
    }

    constructor ()
      ensures Valid() && Map() == map[]
    {
      entries := new ArpEntry[ARP_ENTRIES](_ => ArpEntry(0, [], false));
      n := 0;
    }

    /** network_handle_packet on an ARP reply: the map learns the pair, unless all 16 entries hold other addresses. */
    method Learn(ip: nat, mac: seq<byte>)
      requires Valid()
      modifies this, entries
      ensures Valid()
      ensures Map() == if ip in old(Map()) || old(n) < ARP_ENTRIES then old(Map())[ip := mac] else old(Map())
    {
      ArpMapAt(entries[..], n);
      var e := ArpEntry(ip, mac, true);
      for i := 0 to ARP_ENTRIES
        invariant Valid() && entries[..] == old(entries[..]) && n == old(n)
        invariant i <= n && forall j :: 0 <= j < i ==> entries[j].ip != ip
      {
        if !entries[i].valid || entries[i].ip == ip {
          ghost var t := entries[..];
          entries[i] := e;
          assert entries[..] == t[i := e];
          if i < n {
            ArpMapReplaced(t, n, i, e);
          } else {
            assert i == n && forall j :: 0 <= j < i ==> t[j].ip != ip;
            ArpMapPrefix(t, entries[..], n);
            n := n + 1;
          }
          return;
        }
      }
    }

    /** arp_lookup */
    method Lookup(ip: nat) returns (mac: Option<seq<byte>>)
      requires Valid()
      ensures mac == if ip in Map() then Some(Map()[ip]) else None
    {
      ArpMapAt(entries[..], n);
      for i := 0 to ARP_ENTRIES
        invariant forall j :: 0 <= j < i ==> !(j < n && entries[j].ip == ip)
      {
        if entries[i].valid && entries[i].ip == ip {
          return Some(entries[i].mac);
        }
      }
      return None;
    }
  }
}
