/**
 What the two XDP programs (kernelspace/xdp_lb.c) decide and write, as functions
 of a frame's bytes and of the values their map lookups returned.
 */
module Packet {
  import opened Types
  import opened Checksum

  type Frame = seq<byte>

  datatype Option<+T> = None | Some(value: T)

  const ETH_LEN := 14
  const IP_LEN := 20
  const ICMP_LEN := 8

  /**
   The `ihl` bit-field. `struct iphdr` declares it first, so it is the low nibble
   where bit-fields fill from the low end and the high one where they do not.
   */
  function Ihl(e: Endian, b: byte): nat {
    match e
    case Little => b % 16
    case Big => b / 16
  }

  /** The parse both programs begin with: an IPv4 ICMP frame long enough for its headers. */
  predicate Accepts(e: Endian, f: Frame) {
    && ETH_LEN <= |f|
    && Load16(e, f[12], f[13]) == Htons(e, 0x0800)
    && ETH_LEN + IP_LEN <= |f|
    && f[23] == 1
    && ETH_LEN + Ihl(e, f[14]) * 4 + ICMP_LEN <= |f|
  }

  function Src(f: Frame): Addr
    requires ETH_LEN + IP_LEN <= |f|
  {
    Addr(f[26], f[27], f[28], f[29])
  }

  function Dst(f: Frame): Addr
    requires ETH_LEN + IP_LEN <= |f|
  {
    Addr(f[30], f[31], f[32], f[33])
  }

  /** The fixed part of the IPv4 header. */
  function Header(f: Frame): seq<byte>
    requires ETH_LEN + IP_LEN <= |f|
  {
    f[14..34]
  }

  function WithMacs(f: Frame, dst: Mac, src: Mac): (r: Frame)
    requires ETH_LEN <= |f|
    ensures |r| == |f|
  {
    dst + src + f[12..]
  }

  function WithSrc(f: Frame, w: Addr): Frame
    requires ETH_LEN + IP_LEN <= |f|
  {
    f[26 := w.a][27 := w.b][28 := w.c][29 := w.d]
  }

  function WithDst(f: Frame, w: Addr): Frame
    requires ETH_LEN + IP_LEN <= |f|
  {
    f[30 := w.a][31 := w.b][32 := w.c][33 := w.d]
  }

  function FixChecksum(f: Frame): Frame
    requires ETH_LEN + IP_LEN <= |f|
  {
    f[24 := HeaderChecksum(Header(f)) / 256][25 := HeaderChecksum(Header(f)) % 256]
  }

  // ------------------------------------------------------- the two programs

  /** The index `xdp_lb_ingress` draws for a frame, or None when it leaves the frame alone. */
  function Choose(e: Endian, cfg: LbConfig, draw: u32, f: Frame): Option<nat> {
    if !Accepts(e, f) || cfg.count == 0 then None
    else if cfg.vip != 0 && Pack(e, Dst(f)) != cfg.vip then None
    else Some(draw % cfg.count)
  }

  /** The rewritten frame, given the backend entry found at the drawn index; a blank entry rewrites nothing. */
  function Dnat(e: Endian, cfg: LbConfig, info: BackendInfo, f: Frame): Option<Frame>
    requires ETH_LEN + IP_LEN <= |f|
  {
    if info.ipv4 == 0 then None
    else Some(FixChecksum(WithDst(WithMacs(f, info.mac, cfg.srcMac), Unpack(e, info.ipv4))))
  }

  /** Whether `xdp_veth_snat` takes the frame's source for a registered backend. */
  predicate FromBackend(e: Endian, ips: map<u32, nat>, f: Frame) {
    Accepts(e, f) && Pack(e, Src(f)) in ips
  }

  function Snat(e: Endian, cfg: LbConfig, f: Frame): Option<Frame>
    requires ETH_LEN + IP_LEN <= |f|
  {
    if cfg.vip == 0 then None else Some(FixChecksum(WithSrc(f, Unpack(e, cfg.vip))))
  }

  // ------------------------------------------------------------- properties

  /** The frame's IPv4 header checksum is one a receiver accepts. */
  predicate ChecksumOk(f: Frame)
    requires ETH_LEN + IP_LEN <= |f|
  {
    Verifies(Words(Big, Header(f)))
  }

  /** `r` is `f` with at most the bytes of `may` changed. */
  ghost predicate SameOutside(f: Frame, r: Frame, may: set<nat>) {
    && |r| == |f|
    && forall i | 0 <= i < |f| && i !in may :: r[i] == f[i]
  }

  /** A stretch of bytes that may not change does not. */
  lemma KeptSlice(f: Frame, r: Frame, may: set<nat>, lo: nat, hi: nat)
    requires SameOutside(f, r, may) && lo <= hi <= |f| && forall i: nat | lo <= i < hi :: i !in may
    ensures r[lo..hi] == f[lo..hi]
  {
  }

  const MAC_BYTES: set<nat> := set i: nat | i < 12
  const CHECKSUM_BYTES: set<nat> := {24, 25}
  const SRC_BYTES: set<nat> := {26, 27, 28, 29}
  const DST_BYTES: set<nat> := {30, 31, 32, 33}

  lemma FixChecksumHeader(f: Frame)
    requires ETH_LEN + IP_LEN <= |f|
    ensures Header(FixChecksum(f)) == WithChecksum(Header(f))
    ensures ChecksumOk(FixChecksum(f))
  {
    ChecksumVerifies(Big, Header(f));
  }

  /**
   A rewritten request: addressed to one backend at both layers, checksum good,
   and nothing else touched, so the ICMP message and the client address survive.
   */
  lemma DnatCorrect(e: Endian, cfg: LbConfig, info: BackendInfo, f: Frame)
    requires ETH_LEN + IP_LEN <= |f|
    ensures Dnat(e, cfg, info, f).Some? <==> info.ipv4 != 0
    ensures Dnat(e, cfg, info, f).Some? ==>
              var r := Dnat(e, cfg, info, f).value;
              && SameOutside(f, r, MAC_BYTES + CHECKSUM_BYTES + DST_BYTES)
              && r[..6] == info.mac && r[6..12] == cfg.srcMac
              && Pack(e, Dst(r)) == info.ipv4 && Src(r) == Src(f)
              && ChecksumOk(r)
  {
    if info.ipv4 != 0 {
      var g := WithDst(WithMacs(f, info.mac, cfg.srcMac), Unpack(e, info.ipv4));
      FixChecksumHeader(g);
    }
  }

  /** A rewritten reply: it comes from the VIP, checksum good, nothing else touched. */
  lemma SnatCorrect(e: Endian, cfg: LbConfig, f: Frame)
    requires ETH_LEN + IP_LEN <= |f|
    ensures Snat(e, cfg, f).Some? <==> cfg.vip != 0
    ensures Snat(e, cfg, f).Some? ==>
              var r := Snat(e, cfg, f).value;
              && SameOutside(f, r, CHECKSUM_BYTES + SRC_BYTES)
              && Pack(e, Src(r)) == cfg.vip && Dst(r) == Dst(f)
              && ChecksumOk(r)
  {
    if cfg.vip != 0 {
      FixChecksumHeader(WithSrc(f, Unpack(e, cfg.vip)));
    }
  }
}
