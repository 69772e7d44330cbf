/**
 * The SSDP connection-tracking helper: for each packet of a UDP flow it
 * recognises an M-SEARCH request sent to the SSDP multicast group, looks up
 * the netmask of the sender's address on the receiving device, and builds
 * the expectation that lets the unicast replies from that subnet through.
 */
module Ssdp {
  import opened Wrappers
  import opened Netfilter

  /** 239.255.255.250, the SSDP multicast group. */
  const SSDP_MCAST_ADDR: bv32 := 0xeffffffa
  /** The UDP port the helper is registered for. */
  const SSDP_UDP_PORT: bv16 := 1900
  /** The request method that opens a reply path. */
  const SSDP_M_SEARCH: string := "M-SEARCH"
  /** The length of the marker without its terminating NUL. */
  const SSDP_M_SEARCH_SIZE: nat := |SSDP_M_SEARCH|

  /** The expectation policy: one expectation at a time, one second to live. */
  const SSDP_POLICY: ExpectPolicy := ExpectPolicy(1, 1, "ssdp")

  /** The bytes of a 7-bit ASCII text, one byte per character. */
  function AsciiBytes(s: string): (b: seq<uint8>)
    requires forall i :: 0 <= i < |s| ==> s[i] as int < 128
    ensures |b| == |s|
    ensures forall i :: 0 <= i < |s| ==> b[i] as int == s[i] as int
  {
    if s == [] then [] else [s[0] as int as uint8] + AsciiBytes(s[1..])
  }

  /** The marker as it appears on the wire. */
  const M_SEARCH_BYTES: seq<uint8> := AsciiBytes(SSDP_M_SEARCH)

  /**
   * What qualifies a packet: it goes to the SSDP group and its UDP payload
   * has at least as many bytes as the marker and begins with exactly the
   * text "M-SEARCH" (case-sensitive).
   */
  predicate IsSearchRequest(dstIp: bv32, payload: seq<uint8>) {
    dstIp == SSDP_MCAST_ADDR
    && |payload| >= |SSDP_M_SEARCH|
    && forall i :: 0 <= i < |SSDP_M_SEARCH| ==> payload[i] as int == SSDP_M_SEARCH[i] as int
  }

  /** The outcome of the three classification checks, in the order they run. */
  datatype Classification = NotMulticast | TooShort | NotMSearch | MSearch

  /**
   * The classification checks of the helper: the original destination
   * address, then whether the marker's length of payload is there at all,
   * then a byte-exact comparison of that prefix with the marker. The payload
   * is looked at only when the address is the SSDP group.
   */
  function Classify(dstIp: bv32, payload: seq<uint8>): (c: Classification)
    ensures c == MSearch <==> IsSearchRequest(dstIp, payload)
    ensures dstIp != SSDP_MCAST_ADDR ==> c == NotMulticast
    ensures dstIp == SSDP_MCAST_ADDR && |payload| < |SSDP_M_SEARCH| ==> c == TooShort
  {
    if dstIp != SSDP_MCAST_ADDR then NotMulticast
    else if |payload| < SSDP_M_SEARCH_SIZE then TooShort
    else
      MarkerComparison(payload);
      if payload[..SSDP_M_SEARCH_SIZE] != M_SEARCH_BYTES then NotMSearch
      else MSearch
  }

  /** Comparing the prefix with the marker bytes compares it with the marker text. */
  lemma MarkerComparison(payload: seq<uint8>)
    requires |payload| >= SSDP_M_SEARCH_SIZE
    ensures payload[..SSDP_M_SEARCH_SIZE] == M_SEARCH_BYTES <==>
      forall i :: 0 <= i < |SSDP_M_SEARCH| ==> payload[i] as int == SSDP_M_SEARCH[i] as int
  {
    var n := SSDP_M_SEARCH_SIZE;
    assert |M_SEARCH_BYTES| == n;
    if forall i :: 0 <= i < n ==> payload[i] as int == SSDP_M_SEARCH[i] as int {
      forall i | 0 <= i < n ensures payload[..n][i] == M_SEARCH_BYTES[i] {
        assert payload[i] as int == M_SEARCH_BYTES[i] as int;
      }
      assert payload[..n] == M_SEARCH_BYTES;
    }
  }

  /** Only the first marker-length bytes of the payload take part in the decision. */
  lemma ClassifyReadsOnlyPrefix(dstIp: bv32, payload: seq<uint8>, rest: seq<uint8>)
    requires |payload| >= SSDP_M_SEARCH_SIZE
    ensures Classify(dstIp, payload + rest) == Classify(dstIp, payload)
  {
    assert (payload + rest)[..SSDP_M_SEARCH_SIZE] == payload[..SSDP_M_SEARCH_SIZE];
  }

  /**
   * First-match search of a device's address list: the mask of the first
   * entry whose local address is `src`, or 0 (never a valid netmask) when
   * there is none.
   */
  function FirstMatchMask(addrs: seq<IfAddr>, src: bv32): bv32 {
    if addrs == [] then 0
    else if addrs[0].local == src then addrs[0].mask
    else FirstMatchMask(addrs[1..], src)
  }

  /** The netmask lookup; `None` is a device without IPv4 configuration. */
  function SrcNetmask(dev: Option<seq<IfAddr>>, src: bv32): bv32 {
    match dev
    case None => 0
    case Some(addrs) => FirstMatchMask(addrs, src)
  }

  /** The first entry whose address is `src` decides, whatever follows it. */
  lemma {:induction false} FirstMatchMaskFirst(addrs: seq<IfAddr>, src: bv32, k: nat)
    requires k < |addrs| && addrs[k].local == src
    requires forall j :: 0 <= j < k ==> addrs[j].local != src
    ensures FirstMatchMask(addrs, src) == addrs[k].mask
  {
    if k > 0 {
      FirstMatchMaskFirst(addrs[1..], src, k - 1);
    }
  }

  /** No entry with address `src`: the lookup fails with 0. */
  lemma {:induction false} FirstMatchMaskNotFound(addrs: seq<IfAddr>, src: bv32)
    requires forall j :: 0 <= j < |addrs| ==> addrs[j].local != src
    ensures FirstMatchMask(addrs, src) == 0
  {
    if addrs != [] {
      FirstMatchMaskNotFound(addrs[1..], src);
    }
  }

  /** A non-zero result is the mask of the first entry with address `src`. */
  lemma {:induction false} FirstMatchMaskFound(addrs: seq<IfAddr>, src: bv32)
    requires FirstMatchMask(addrs, src) != 0
    ensures exists k ::
              && 0 <= k < |addrs| && addrs[k].local == src
              && addrs[k].mask == FirstMatchMask(addrs, src)
              && forall j :: 0 <= j < k ==> addrs[j].local != src
  {
    if addrs[0].local != src {
      FirstMatchMaskFound(addrs[1..], src);
      var k :| 0 <= k < |addrs[1..]| && addrs[1..][k].local == src
        && addrs[1..][k].mask == FirstMatchMask(addrs[1..], src)
        && forall j :: 0 <= j < k ==> addrs[1..][j].local != src;
      assert addrs[k + 1] == addrs[1..][k];
      assert forall j :: 0 <= j < k + 1 ==> addrs[j].local != src by {
        forall j | 0 <= j < k + 1 ensures addrs[j].local != src {
          if j > 0 { assert addrs[j] == addrs[1..][j - 1]; }
        }
      }
    } else {
      assert addrs[0].mask == FirstMatchMask(addrs, src);
    }
  }

  /** Entries after a match are never consulted. */
  lemma {:induction false} FirstMatchMaskLaterIgnored(first: seq<IfAddr>, later: seq<IfAddr>, src: bv32)
    requires exists j :: 0 <= j < |first| && first[j].local == src
    ensures FirstMatchMask(first + later, src) == FirstMatchMask(first, src)
  {
    if first[0].local != src {
      var j :| 0 <= j < |first| && first[j].local == src;
      assert first[1..][j - 1] == first[j];
      assert (first + later)[1..] == first[1..] + later;
      FirstMatchMaskLaterIgnored(first[1..], later, src);
    }
  }

  /**
   * ssdp_src_netmask: walks the device's address list and stops at the first
   * entry whose local address is the original source address.
   */
  method SsdpSrcNetmask(dev: Option<seq<IfAddr>>, orig: Tuple) returns (ret: bv32)
    ensures ret == SrcNetmask(dev, Ip(orig.srcU3))
    ensures dev.None? ==> ret == 0
  {
    ret := 0;
    if dev.None? {
      return;
    }
    var addrs := dev.value;
    var i := 0;
    while i < |addrs|
      invariant 0 <= i <= |addrs|
      invariant ret == 0
      invariant FirstMatchMask(addrs[i..], Ip(orig.srcU3)) == FirstMatchMask(addrs, Ip(orig.srcU3))
    {
      if addrs[i].local == Ip(orig.srcU3) {
        ret := addrs[i].mask;
        break;
      }
      assert addrs[i..][1..] == addrs[i + 1..];
      i := i + 1;
    }
  }

  /**
   * The expectation built for a qualifying request: the reply tuple with
   * its source address replaced by its destination address, masked so that
   * only the source address bits of `netmask` and the whole source port
   * are significant.
   */
  function SsdpExpectation(reply: Tuple, netmask: bv32): (e: Expectation)
    ensures Ip(e.tuple.srcU3) == Ip(reply.dstU3)
    ensures forall i :: 1 <= i < 4 ==> e.tuple.srcU3[i] == reply.srcU3[i]
    ensures e.tuple.(srcU3 := reply.srcU3) == reply
    ensures Ip(e.mask.srcU3) == netmask
    ensures forall i :: 1 <= i < 4 ==> e.mask.srcU3[i] == 0
    ensures e.mask.srcPort == 0xffff
    ensures e.expectfn == Null && e.flags == 0 && e.helper == Null
    ensures e.expectClass == NF_CT_EXPECT_CLASS_DEFAULT
  {
    Expectation(
      reply.(srcU3 := WithIp(reply.srcU3, Ip(reply.dstU3))),
      TupleMask(WithIp(ZERO_ADDR, netmask), 0xffff),
      Null, 0, NF_CT_EXPECT_CLASS_DEFAULT, Null)
  }

  /**
   * The flows the expectation admits: a tuple matches exactly when its
   * source address lies in the `netmask` subnet of the reply tuple's
   * destination address, its source port is the reply tuple's source port,
   * and every other compared field equals the reply tuple's.
   */
  lemma SsdpExpectationMatches(reply: Tuple, netmask: bv32, t: Tuple)
    ensures Matches(t, SsdpExpectation(reply, netmask)) <==>
      SameSubnet(Ip(t.srcU3), Ip(reply.dstU3), netmask)
      && t.srcPort == reply.srcPort
      && t.l3num == reply.l3num
      && t.protonum == reply.protonum
      && t.dstU3 == reply.dstU3
      && t.dstPort == reply.dstPort
  {
    var e := SsdpExpectation(reply, netmask);
    AgreeUnderMeansSameSubnet(Ip(t.srcU3), Ip(e.tuple.srcU3), netmask);
    OnlyFirstWordMasked(t.srcU3, e.tuple.srcU3, e.mask.srcU3);
    FullPortMaskIsEquality(t.srcPort, e.tuple.srcPort);
  }

  /**
   * The helper is attached to flows whose reply comes from port 1900; the
   * expectation then admits only replies sent from that port.
   */
  lemma ExpectedReplyFromSsdpPort(reply: Tuple, netmask: bv32, t: Tuple)
    requires reply.srcPort == SSDP_UDP_PORT
    requires Matches(t, SsdpExpectation(reply, netmask))
    ensures t.srcPort == SSDP_UDP_PORT
  {
    SsdpExpectationMatches(reply, netmask, t);
  }

  /**
   * ssdp_help: the per-packet decision. `orig` and `reply` are the
   * connection's two tuples, `payload` the bytes after the UDP header,
   * `dev` the receiving device's IPv4 address list and `alloc` the result of
   * nf_ct_expect_alloc (`None` for a failed allocation, otherwise a struct
   * with arbitrary contents). The expectation handed to nf_ct_expect_related
   * is returned; the outcome of that registration does not change the verdict.
   */
  method SsdpHelp(orig: Tuple, reply: Tuple, payload: seq<uint8>,
                  dev: Option<seq<IfAddr>>, alloc: Option<Expectation>)
    returns (verdict: Verdict, expectation: Option<Expectation>)
    ensures !IsSearchRequest(Ip(orig.dstU3), payload) ==> verdict == Accept && expectation == None
    ensures (IsSearchRequest(Ip(orig.dstU3), payload) && SrcNetmask(dev, Ip(orig.srcU3)) == 0)
      ==> verdict == Drop && expectation == None
    ensures (IsSearchRequest(Ip(orig.dstU3), payload) && SrcNetmask(dev, Ip(orig.srcU3)) != 0
             && alloc.None?)
      ==> verdict == Drop && expectation == None
    ensures (IsSearchRequest(Ip(orig.dstU3), payload) && SrcNetmask(dev, Ip(orig.srcU3)) != 0
             && alloc.Some?)
      ==> (verdict == Accept
           && expectation == Some(SsdpExpectation(reply, SrcNetmask(dev, Ip(orig.srcU3)))))
    ensures expectation.Some? ==> verdict == Accept && Ip(expectation.value.mask.srcU3) != 0
  {
    if Classify(Ip(orig.dstU3), payload) != MSearch {
      return Accept, None;
    }
    var netmask := SsdpSrcNetmask(dev, orig);
    if netmask == 0 {
      return Drop, None;
    }
    if alloc.None? {
      return Drop, None;
    }
    var e := alloc.value;
    e := e.(tuple := reply);
    e := e.(tuple := e.tuple.(srcU3 := WithIp(e.tuple.srcU3, Ip(e.tuple.dstU3))));
    e := e.(mask := ZERO_MASK);
    e := e.(mask := e.mask.(srcU3 := WithIp(e.mask.srcU3, netmask)));
    e := e.(mask := e.mask.(srcPort := 0xffff));
    e := e.(expectfn := Null, flags := 0, expectClass := NF_CT_EXPECT_CLASS_DEFAULT, helper := Null);
    return Accept, Some(e);
  }

  /** A search to the group whose payload starts with the marker is recognised. */
  lemma SearchRequestRecognised()
    ensures Classify(SSDP_MCAST_ADDR, M_SEARCH_BYTES + AsciiBytes(" * HTTP/1.1")) == MSearch
  {
    assert |M_SEARCH_BYTES| == SSDP_M_SEARCH_SIZE;
    assert M_SEARCH_BYTES[..SSDP_M_SEARCH_SIZE] == M_SEARCH_BYTES;
    ClassifyReadsOnlyPrefix(SSDP_MCAST_ADDR, M_SEARCH_BYTES, AsciiBytes(" * HTTP/1.1"));
  }

  /**
   * 192.168.1.50 on a device that holds 192.168.1.50/24 resolves to the
   * netmask 255.255.255.0; on a device holding only 192.168.1.1 it fails.
   */
  lemma LanAddressResolves()
    ensures SrcNetmask(Some([IfAddr(0xc0a80132, 0xffffff00)]), 0xc0a80132) == 0xffffff00
    ensures SrcNetmask(Some([IfAddr(0xc0a80101, 0xffffff00)]), 0xc0a80132) == 0
  {
    var other := [IfAddr(0xc0a80101, 0xffffff00)];
    assert other[0].local != 0xc0a80132;
    assert other[1..] == [];
  }

  /** A NOTIFY to the group, an M-SEARCH to another group and a truncated marker are ignored. */
  lemma OtherTrafficIgnored()
    ensures Classify(SSDP_MCAST_ADDR, AsciiBytes("NOTIFY * HTTP/1.1")) == NotMSearch
    ensures Classify(0xe0000001, M_SEARCH_BYTES) == NotMulticast
    ensures Classify(SSDP_MCAST_ADDR, M_SEARCH_BYTES[..6]) == TooShort
  {
    var notify := AsciiBytes("NOTIFY * HTTP/1.1");
    assert notify[0] as int == 'N' as int;
    assert M_SEARCH_BYTES[0] as int == 'M' as int;
    assert notify[..SSDP_M_SEARCH_SIZE][0] != M_SEARCH_BYTES[0];
  }
}
