/**
 * The connection-tracking records the SSDP helper reads and fills in:
 * flow tuples, the expectation mask, the expectation itself, the
 * verdicts a helper returns and the addresses configured on a device.
 * Byte order is not modelled: every field is a plain bit-vector.
 */
module Netfilter {

  /** An octet of packet data or an 8-bit header field. */
  newtype uint8 = x: int | 0 <= x < 256

  /** union nf_inet_addr: four 32-bit words; an IPv4 address is word 0 (`.ip`). */
  type InetAddr = w: seq<bv32> | |w| == 4 witness [0, 0, 0, 0]

  const ZERO_ADDR: InetAddr := [0, 0, 0, 0]

  /** The `.ip` view of an address union. */
  function Ip(a: InetAddr): bv32 {
    a[0]
  }

  /** Assigning `.ip`: word 0 changes, the other three words keep their value. */
  function WithIp(a: InetAddr, ip: bv32): (r: InetAddr)
    ensures Ip(r) == ip
    ensures forall i :: 1 <= i < 4 ==> r[i] == a[i]
  {
    a[0 := ip]
  }

  /**
   * struct nf_conntrack_tuple: the source part (address, port, layer-3
   * protocol number) and the destination part (address, port, layer-4
   * protocol number, direction).
   */
  datatype Tuple = Tuple(
    srcU3: InetAddr, srcPort: bv16, l3num: bv16,
    dstU3: InetAddr, dstPort: bv16, protonum: uint8, dir: uint8)

  /** struct nf_conntrack_tuple_mask: a mask for the source part only. */
  datatype TupleMask = TupleMask(srcU3: InetAddr, srcPort: bv16)

  /** An all-zero mask, the result of clearing the whole mask struct. */
  const ZERO_MASK: TupleMask := TupleMask(ZERO_ADDR, 0)

  /** An abstract kernel pointer. */
  datatype Ref = Null | Ptr(id: nat)

  /** NF_CT_EXPECT_CLASS_DEFAULT */
  const NF_CT_EXPECT_CLASS_DEFAULT: bv32 := 0

  /** The fields of struct nf_conntrack_expect that a helper sets. */
  datatype Expectation = Expectation(
    tuple: Tuple, mask: TupleMask, expectfn: Ref, flags: bv32, expectClass: bv32, helper: Ref)

  /** struct nf_conntrack_expect_policy */
  datatype ExpectPolicy = ExpectPolicy(maxExpected: nat, timeout: nat, name: string)

  /** The verdict a helper returns for a packet. */
  datatype Verdict = Drop | Accept

  /** struct in_ifaddr: one local IPv4 address of a device with its netmask. */
  datatype IfAddr = IfAddr(local: bv32, mask: bv32)

  /** Two words agree on the bits a mask selects. */
  predicate AgreeUnder(x: bv32, y: bv32, m: bv32) {
    (x ^ y) & m == 0
  }

  /** Two addresses lie in the same subnet of the given netmask. */
  predicate SameSubnet(a: bv32, b: bv32, netmask: bv32) {
    a & netmask == b & netmask
  }

  /** Two ports agree on the bits a mask selects. */
  predicate PortAgreeUnder(x: bv16, y: bv16, m: bv16) {
    (x ^ y) & m == 0
  }

  /**
   * The masked comparison of a tuple against an expectation (netfilter's
   * nf_ct_tuple_mask_cmp): every source word and the source port agree on
   * the bits the mask selects, the layer-3 and layer-4 protocol numbers
   * agree, and the destination address and port are equal.
   */
  predicate Matches(t: Tuple, e: Expectation) {
    (forall i :: 0 <= i < 4 ==> AgreeUnder(t.srcU3[i], e.tuple.srcU3[i], e.mask.srcU3[i]))
    && PortAgreeUnder(t.srcPort, e.tuple.srcPort, e.mask.srcPort)
    && t.l3num == e.tuple.l3num
    && t.protonum == e.tuple.protonum
    && t.dstU3 == e.tuple.dstU3
    && t.dstPort == e.tuple.dstPort
  }

  /** With words 1 to 3 of the mask clear, only word 0 of the address is compared. */
  lemma OnlyFirstWordMasked(a: InetAddr, b: InetAddr, m: InetAddr)
    requires forall i :: 1 <= i < 4 ==> m[i] == 0
    ensures (forall i :: 0 <= i < 4 ==> AgreeUnder(a[i], b[i], m[i])) <==> AgreeUnder(a[0], b[0], m[0])
  {
    if AgreeUnder(a[0], b[0], m[0]) {
      forall i | 0 <= i < 4 ensures AgreeUnder(a[i], b[i], m[i]) {
        if i != 0 {
          ZeroMaskAdmitsAll(a[i], b[i]);
        }
      }
    }
  }

  /** Agreement under a mask is equality of the masked values. */
  lemma AgreeUnderMeansSameSubnet(x: bv32, y: bv32, m: bv32)
    ensures AgreeUnder(x, y, m) <==> SameSubnet(x, y, m)
  {
    MaskDistributesOverXor(x, y, m);
    XorZeroIsEquality(x & m, y & m);
  }

  /** Masking distributes over exclusive or. */
  lemma MaskDistributesOverXor(x: bv32, y: bv32, m: bv32)
    ensures (x ^ y) & m == (x & m) ^ (y & m)
  {
  }

  /** Two words differ in no bit exactly when they are equal. */
  lemma XorZeroIsEquality(p: bv32, q: bv32)
    ensures p ^ q == 0 <==> p == q
  {
  }

  /** A zero mask selects no bits, so any two words agree under it. */
  lemma ZeroMaskAdmitsAll(x: bv32, y: bv32)
    ensures AgreeUnder(x, y, 0)
  {
  }

  /** Under an all-ones mask two ports agree only when they are equal. */
  lemma FullPortMaskIsEquality(x: bv16, y: bv16)
    ensures PortAgreeUnder(x, y, 0xffff) <==> x == y
  {
    assert (x ^ y) & 0xffff == x ^ y;
    assert x ^ y == 0 <==> x == y;
  }
}
