# SSDP connection-tracking helper, modelled in Dafny

The netfilter helper `nf_conntrack_ssdp` lets the unicast replies to an SSDP
search through a NAT. SSDP (the discovery protocol of UPnP) sends an
`M-SEARCH` request to the multicast group 239.255.255.250, port 1900; the
devices that answer send a unicast UDP reply from their own address back to
the requester. Connection tracking cannot relate such a reply to the
request's flow, so for every outgoing request the helper registers an
*expectation*: a masked tuple that admits a reply from any host in the
requester's subnet.

The model covers the per-packet decision of `ssdp_help` and the netmask
lookup `ssdp_src_netmask`:

- `wrappers.dfy` — module `Wrappers`: the `Option` type that stands for the
  kernel's nullable pointers.
- `netfilter.dfy` — module `Netfilter`: the records the helper reads and
  fills in. `Tuple` is `struct nf_conntrack_tuple`, `TupleMask` is
  `struct nf_conntrack_tuple_mask`, `Expectation` holds the fields of
  `struct nf_conntrack_expect` the helper sets, `IfAddr` is `struct in_ifaddr`,
  `Verdict` is `NF_DROP` / `NF_ACCEPT`. The address union `nf_inet_addr` is
  four 32-bit words with the IPv4 address in word 0 (`.ip`), so the model
  shows which words the helper writes and which the `memset` clears.
  `Matches` is netfilter's masked comparison of a tuple against an
  expectation; the helper does not run it, but it says what the mask the
  helper builds admits.
- `ssdp.dfy` — module `Ssdp`: the constants, the classification of a packet
  (`Classify`, specified by `IsSearchRequest`), the first-match netmask
  search (`SsdpSrcNetmask`, a loop proved against the recursive
  `FirstMatchMask`), the expectation (`SsdpExpectation`) and the helper itself
  (`SsdpHelp`).

Inputs that the kernel provides become parameters of `SsdpHelp`: the
connection's original and reply tuples; the UDP payload as the byte sequence
after the UDP header; the device's IPv4 address list as an `Option` (`None`
when `in_dev_get` finds no IPv4 configuration); and the result of
`nf_ct_expect_alloc` as an `Option<Expectation>`. `None` is a failed
allocation. `Some(e)` is a freshly allocated struct whose contents are
arbitrary, and the proof shows they do not leak into the result. The method
returns the verdict and the expectation handed to `nf_ct_expect_related`.

Where this model and the design description of the helper differ, it follows
the code:

- The result of `nf_ct_expect_related` is ignored (line 111). An expectation
  that fails to register still gives `Accept`; the description says such a
  packet is dropped.
- The source-port mask is `0xffff` (line 105). Every bit of the port is
  significant, so a reply must come from the reply tuple's source port. The
  description calls the port fully wildcarded. `ExpectedReplyFromSsdpPort`
  states the consequence: on a flow whose reply source port is 1900, only
  replies from port 1900 match.
- The expectation's source address is the reply tuple's own destination
  address (line 102), which is the requester's address after translation.
- The policy is `SSDP_POLICY`: `max_expected` = 1 and `timeout` = 1
  (lines 117-121). `SsdpHelp` returns an `Option`, so it yields at most one
  expectation per packet.

## Model

| member | source | states |
|---|---|---|
| `Ssdp.AsciiBytes` | nf_conntrack_ssdp.c:21-22 | the marker as it appears in the payload: one byte per character, with that character's code, so the marker is 8 bytes long |
| `Ssdp.Classify` | nf_conntrack_ssdp.c:76-91 | a packet is an M-SEARCH exactly when its original destination is 239.255.255.250, its payload has at least 8 bytes and those bytes spell `M-SEARCH`, case-sensitively; any other destination gives `NotMulticast` whatever the payload; a short payload to the group gives `TooShort` |
| `Ssdp.MarkerComparison` | nf_conntrack_ssdp.c:88 | the byte-exact comparison of the payload's first 8 bytes with the marker holds exactly when every byte equals the code of the corresponding character of `M-SEARCH` |
| `Ssdp.ClassifyReadsOnlyPrefix` | nf_conntrack_ssdp.c:81-91 | bytes after the first 8 never change the classification: only a marker-sized prefix is fetched and compared |
| `Ssdp.FirstMatchMaskFirst` | nf_conntrack_ssdp.c:42-47 | when entry k is the first whose local address is the source address, the lookup yields entry k's mask |
| `Ssdp.FirstMatchMaskNotFound` | nf_conntrack_ssdp.c:35-51 | when no entry has the source address, the lookup yields 0, the "not found" value |
| `Ssdp.FirstMatchMaskFound` | nf_conntrack_ssdp.c:42-49 | a non-zero result is the mask of an entry with the source address that has no such entry before it |
| `Ssdp.FirstMatchMaskLaterIgnored` | nf_conntrack_ssdp.c:42-48 | once a prefix of the list holds a match, the entries after that prefix do not affect the result |
| `Ssdp.SsdpSrcNetmask` | nf_conntrack_ssdp.c:30-58 | the list walk that breaks at the first match returns exactly the first-match mask, and 0 for a device without IPv4 configuration |
| `Netfilter.WithIp` | nf_conntrack_ssdp.c:102 | assigning `.ip` of an address union sets word 0 and leaves words 1 to 3 as they were |
| `Ssdp.SsdpExpectation` | nf_conntrack_ssdp.c:101-109 | the expectation tuple is the reply tuple with only the IPv4 source word replaced by the reply's destination address; the mask is zero except the source-address word, which is the netmask, and the source port, which is 0xffff; no expect function, no flags, the default class, no helper |
| `Netfilter.OnlyFirstWordMasked` | nf_conntrack_ssdp.c:103-104 | with words 1 to 3 of the address mask cleared, a masked comparison of two addresses compares word 0 alone |
| `Ssdp.SsdpExpectationMatches` | nf_conntrack_ssdp.c:101-105 | a tuple matches the expectation exactly when its source address is in the netmask's subnet around the reply's destination address, its source port is the reply's source port, and its protocol numbers, destination address and destination port are the reply's |
| `Ssdp.ExpectedReplyFromSsdpPort` | nf_conntrack_ssdp.c:105 | for a flow whose reply source port is 1900, every tuple the expectation admits has source port 1900 |
| `Ssdp.SsdpHelp` | nf_conntrack_ssdp.c:60-115 | a packet that is not an M-SEARCH to the group is accepted with no expectation; a qualifying one whose netmask lookup gives 0 is dropped with none; one with a netmask but a failed allocation is dropped with none; otherwise it is accepted with exactly the expectation built from the reply tuple and the netmask, whatever the allocated struct held; any expectation produced has a non-zero address mask |
| `Ssdp.SearchRequestRecognised` | nf_conntrack_ssdp.c:76-91 | an `M-SEARCH * HTTP/1.1` payload sent to the group is classified as a search |
| `Ssdp.LanAddressResolves` | nf_conntrack_ssdp.c:42-51 | 192.168.1.50 on a device holding 192.168.1.50/24 resolves to 255.255.255.0; on a device holding only 192.168.1.1 the lookup fails |
| `Ssdp.OtherTrafficIgnored` | nf_conntrack_ssdp.c:76-91 | a `NOTIFY` to the group, an M-SEARCH to 224.0.0.1 and a 6-byte payload are all ignored |

## Left out

- Module load and unload (`nf_conntrack_ssdp_init`, `nf_conntrack_ssdp_exit`) and the `ssdp_helper` descriptor: kernel registration plumbing. Only its UDP port, `SSDP_UDP_PORT` = 1900, is kept.
- Logging with `pr_debug` and `pr_warn`: it does not affect any result.
- `skb_header_pointer`: the payload is given as the bytes after the UDP header, and fewer than 8 of them stands for its NULL result.
- `in_dev_get` / `in_dev_put` reference counting and RCU: the device's address list is an input value.
- `nf_ct_expect_alloc`, `nf_ct_expect_related` and `nf_ct_expect_put`: foreign netfilter calls. Allocation is an input, registration is the returned expectation, and its outcome is ignored as in the code. The fields these calls set themselves (master connection, timeout, reference count) are not modelled.
- The expectation table: its lookup, timeouts and eviction belong to netfilter. `Matches` restates only the masked comparison, to give the built mask a meaning.
- Byte order (`cpu_to_be32`, `be16_to_cpu`): addresses and ports are plain bit-vectors and the multicast constant is 239.255.255.250.
- The interface label of `struct in_ifaddr`: it is only printed.
- Concurrency across receive queues, and IPv6, which the helper does not handle.
