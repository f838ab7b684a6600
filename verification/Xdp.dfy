/**
 The XDP programs of kernelspace/xdp_lb.c in place on a packet buffer, proved
 against the functions of `Packet`. Here a program runs without interference;
 `System` splits the same functions at the map lookups.
 */
module Xdp {
  import opened Types
  import opened Bits
  import opened Checksum
  import opened KernelMaps
  import opened Packet

  /** The index whose backend receives the frame, if it is rewritten at all. */
  function Target(k: Kernel, draw: u32, f: Frame): Option<nat> {
    match Choose(k.host, k.config, draw, f)
    case Some(i) => if i < MAX_BACKENDS && k.slots[i].ipv4 != 0 then Some(i) else None
    case None => None
  }

  function Ingress(k: Kernel, draw: u32, f: Frame): Frame {
    match Target(k, draw, f)
    case Some(i) => Dnat(k.host, k.config, k.slots[i], f).value
    case None => f
  }

  function Egress(k: Kernel, f: Frame): Frame {
    if FromBackend(k.host, k.ips, f) && k.config.vip != 0 then Snat(k.host, k.config, f).value else f
  }

  lemma Digits(q: byte, r: byte)
    ensures (256 * q + r) / 256 == q && (256 * q + r) % 256 == r
  {
  }

  lemma SwappedStore(c: u16)
    ensures Store16(Little, Not16(Swap(c))) == (Not16(c) / 256, Not16(c) % 256)
  {
    Digits(255 - c % 256, 255 - c / 256);
    Digits(255 - c / 256, 255 - c % 256);
  }

  /** A native store of the native sum leaves the network-order checksum on the wire. */
  lemma StoredBytes(e: Endian, h: seq<byte>)
    requires |h| == 20
    ensures Store16(e, Not16(OnesSum(Words(e, Blanked(h)))))
         == (HeaderChecksum(h) / 256, HeaderChecksum(h) % 256)
  {
    if e == Little {
      ByteOrderIndependent(Blanked(h));
      SwappedStore(OnesSum(Words(Big, Blanked(h))));
    }
  }

  /** The summing loop of `update_ip_csum`; a `u32` never overflows in it. */
  method SumHeader(e: Endian, pkt: array<byte>, off: nat) returns (csum: u32)
    requires off + IP_LEN <= pkt.Length
    ensures csum == Sum(Words(e, pkt[off..off + IP_LEN]))
  {
    ghost var ws := Words(e, pkt[off..off + IP_LEN]);
    csum := 0;
    for i := 0 to IP_LEN / 2
      invariant csum == Sum(ws[..i]) <= M * i
    {
      assert ws[..i + 1][..i] == ws[..i];
      csum := csum + Load16(e, pkt[off + 2 * i], pkt[off + 2 * i + 1]);
    }
    assert ws[..10] == ws;
  }

  /** The two folds and the complement of `update_ip_csum`. */
  method FoldSum(sum: u32) returns (check: u16)
    ensures check == Not16(Canon(sum))
  {
    HalfWords(sum);
    TwoFoldsSuffice(sum);
    var csum: u32 := Shr(sum, 16) + And(sum, 0xFFFF);
    HalfWords(csum);
    csum := csum + Shr(csum, 16);
    LowComplement(csum);
    check := And(Not(csum, 32), 0xFFFF);
  }

  /** `update_ip_csum`, on the header at `off`, with loads and stores in the host's byte order. */
  method UpdateIpCsum(e: Endian, pkt: array<byte>, off: nat)
    requires off + IP_LEN <= pkt.Length
    modifies pkt
    ensures var c := HeaderChecksum(old(pkt[off..off + IP_LEN]));
            pkt[..] == old(pkt[..])[off + 10 := c / 256][off + 11 := c % 256]
  {
    ghost var h := pkt[off..off + IP_LEN];
    pkt[off + 10], pkt[off + 11] := 0, 0;
    assert pkt[off..off + IP_LEN] == Blanked(h);
    var csum := SumHeader(e, pkt, off);
    var check := FoldSum(csum);
    OnesSumIsCanon(Words(e, Blanked(h)));
    StoredBytes(e, h);
    var bytes := Store16(e, check);
    pkt[off + 10], pkt[off + 11] := bytes.0, bytes.1;
  }

  /** The MAC copy loop. */
  method CopyMacs(pkt: array<byte>, dst: Mac, src: Mac)
    requires ETH_LEN <= pkt.Length
    modifies pkt
    ensures pkt[..] == WithMacs(old(pkt[..]), dst, src)
  {
    for i := 0 to 6
      invariant pkt[..i] == dst[..i] && pkt[6..6 + i] == src[..i]
      invariant pkt[12..] == old(pkt[12..])
    {
      pkt[i] := dst[i];
      pkt[6 + i] := src[i];
    }
    assert pkt[..] == pkt[..6] + pkt[6..12] + pkt[12..];
  }

  /** The DNAT block of `xdp_lb_ingress`. */
  method RewriteRequest(e: Endian, pkt: array<byte>, cfg: LbConfig, backend: BackendInfo)
    requires ETH_LEN + IP_LEN <= pkt.Length && backend.ipv4 != 0
    modifies pkt
    ensures pkt[..] == Dnat(e, cfg, backend, old(pkt[..])).value
  {
    ghost var f := pkt[..];
    CopyMacs(pkt, backend.mac, cfg.srcMac);
    var w := Unpack(e, backend.ipv4);
    pkt[30], pkt[31], pkt[32], pkt[33] := w.a, w.b, w.c, w.d;
    assert pkt[..] == WithDst(WithMacs(f, backend.mac, cfg.srcMac), w);
    UpdateIpCsum(e, pkt, ETH_LEN);
  }

  /** The per-CPU counter update: one packet, its bytes, each wrapping at 2^64. */
  method CountFrame(m: Maps, idx: nat, cpu: nat, len: nat)
    requires m.Valid() && idx < MAX_BACKENDS && cpu < m.cpus
    modifies m.counters
    ensures var was := old(m.counters[idx, cpu]);
            m.counters[idx, cpu] == Stats((was.packets + 1) % 0x1_0000_0000_0000_0000,
                                          (was.bytes + len) % 0x1_0000_0000_0000_0000)
    ensures forall i, c | 0 <= i < MAX_BACKENDS && 0 <= c < m.cpus && (i != idx || c != cpu) ::
              m.counters[i, c] == old(m.counters[i, c])
  {
    m.counters[idx, cpu] := Bump(m.counters[idx, cpu], len);
  }

  /** The tests and lookups of `xdp_lb_ingress`, up to the entry it will rewrite the frame for. */
  method SelectBackend(m: Maps, draw: u32, pkt: array<byte>) returns (target: Option<nat>)
    ensures target == Target(m.View(), draw, pkt[..])
  {
    if pkt.Length < ETH_LEN || Load16(m.host, pkt[12], pkt[13]) != Htons(m.host, 0x0800) { return None; }
    if pkt.Length < ETH_LEN + IP_LEN || pkt[23] != 1 { return None; }
    if pkt.Length < ETH_LEN + Ihl(m.host, pkt[14]) * 4 + ICMP_LEN { return None; }

    var cfg := m.config;
    if cfg.count == 0 { return None; }
    if cfg.vip != 0 && Pack(m.host, Addr(pkt[30], pkt[31], pkt[32], pkt[33])) != cfg.vip { return None; }
    var idx := draw % cfg.count;
    if idx >= MAX_BACKENDS || m.slots[idx].ipv4 == 0 { return None; }
    target := Some(idx);
  }

  /** `xdp_lb_ingress`: its verdict is always XDP_PASS, so only its effects are modelled. */
  method XdpLbIngress(m: Maps, cpu: nat, draw: u32, pkt: array<byte>)
    requires m.Valid() && cpu < m.cpus
    modifies pkt, m.counters
    ensures pkt[..] == Ingress(m.View(), draw, old(pkt[..]))
    ensures forall i, c | 0 <= i < MAX_BACKENDS && 0 <= c < m.cpus ::
              var was := old(m.counters[i, c]);
              m.counters[i, c] == if Target(m.View(), draw, old(pkt[..])) == Some(i) && c == cpu
                                  then Stats((was.packets + 1) % 0x1_0000_0000_0000_0000,
                                             (was.bytes + pkt.Length) % 0x1_0000_0000_0000_0000)
                                  else was
  {
    var target := SelectBackend(m, draw, pkt);
    if target.Some? {
      RewriteRequest(m.host, pkt, m.config, m.slots[target.value]);
      CountFrame(m, target.value, cpu, pkt.Length);
    }
  }

  /** The SNAT block of `xdp_veth_snat`. */
  method RewriteReply(e: Endian, pkt: array<byte>, cfg: LbConfig)
    requires ETH_LEN + IP_LEN <= pkt.Length && cfg.vip != 0
    modifies pkt
    ensures pkt[..] == Snat(e, cfg, old(pkt[..])).value
  {
    ghost var f := pkt[..];
    var w := Unpack(e, cfg.vip);
    pkt[26], pkt[27], pkt[28], pkt[29] := w.a, w.b, w.c, w.d;
    assert pkt[..] == WithSrc(f, w);
    UpdateIpCsum(e, pkt, ETH_LEN);
  }

  /** `xdp_veth_snat` */
  method XdpVethSnat(m: Maps, pkt: array<byte>)
    modifies pkt
    ensures pkt[..] == Egress(m.View(), old(pkt[..]))
  {
    if pkt.Length < ETH_LEN || Load16(m.host, pkt[12], pkt[13]) != Htons(m.host, 0x0800) { return; }
    if pkt.Length < ETH_LEN + IP_LEN || pkt[23] != 1 { return; }
    if pkt.Length < ETH_LEN + Ihl(m.host, pkt[14]) * 4 + ICMP_LEN { return; }

    if Pack(m.host, Addr(pkt[26], pkt[27], pkt[28], pkt[29])) !in m.ips { return; }
    var cfg := m.config;
    if cfg.vip == 0 { return; }
    RewriteReply(m.host, pkt, cfg);
  }
}
