/**
 What a rewritten frame looks like on the wire: its full header with options, its
 checksum against the incremental update, and the same bytes on either kind of host.
 */
module WireFormat {
  import opened Types
  import opened Checksum
  import opened Packet
  import opened Reconciler

  // ---------------------------------------------------------------- options

  /** The header length in bytes, from the low nibble on the wire (section 3.1 of RFC 791). */
  function HeaderLen(f: Frame): nat
    requires ETH_LEN + IP_LEN <= |f|
  {
    4 * (f[14] % 16)
  }

  /** The frame holds at least the header it declares, of at least five words. */
  predicate WholeHeader(f: Frame) {
    ETH_LEN + IP_LEN <= |f| && IP_LEN <= HeaderLen(f) && ETH_LEN + HeaderLen(f) <= |f|
  }

  predicate FullChecksumOk(f: Frame)
    requires WholeHeader(f)
  {
    Verifies(Words(Big, f[14..14 + HeaderLen(f)]))
  }

  function Options(f: Frame): seq<byte>
    requires WholeHeader(f)
  {
    f[34..14 + HeaderLen(f)]
  }

  lemma HeaderSplit(f: Frame)
    requires WholeHeader(f)
    ensures f[14..14 + HeaderLen(f)] == Header(f) + Options(f)
  {
  }

  lemma FixKeepsOptions(f: Frame)
    requires WholeHeader(f)
    ensures WholeHeader(FixChecksum(f)) && Options(FixChecksum(f)) == Options(f)
  {
    assert FixChecksum(f)[14] == f[14];
  }

  /** The whole header of a recomputed frame verifies exactly when its option words sum to zero modulo 65535. */
  lemma FixedOptions(f: Frame)
    requires WholeHeader(f)
    ensures var r := FixChecksum(f);
            WholeHeader(r) && (FullChecksumOk(r) <==> Sum(Words(Big, Options(f))) % M == 0)
  {
    var r := FixChecksum(f);
    FixKeepsOptions(f);
    FixChecksumHeader(f);
    HeaderSplit(r);
    OptionsCharacterisation(Header(f), Options(f));
  }

  /** A rewritten request is good for receivers that check options if and only if the options sum to zero. */
  lemma DnatOptions(e: Endian, cfg: LbConfig, info: BackendInfo, f: Frame)
    requires WholeHeader(f) && info.ipv4 != 0
    ensures var r := Dnat(e, cfg, info, f).value;
            WholeHeader(r) && (FullChecksumOk(r) <==> Sum(Words(Big, Options(f))) % M == 0)
  {
    var g := WithDst(WithMacs(f, info.mac, cfg.srcMac), Unpack(e, info.ipv4));
    assert g[14] == f[14] && g[34..] == f[34..];
    assert Options(g) == g[34..][..HeaderLen(f) - IP_LEN];
    assert Options(f) == f[34..][..HeaderLen(f) - IP_LEN];
    FixedOptions(g);
  }

  lemma SnatOptions(e: Endian, cfg: LbConfig, f: Frame)
    requires WholeHeader(f) && cfg.vip != 0
    ensures var r := Snat(e, cfg, f).value;
            WholeHeader(r) && (FullChecksumOk(r) <==> Sum(Words(Big, Options(f))) % M == 0)
  {
    var g := WithSrc(f, Unpack(e, cfg.vip));
    assert g[14] == f[14] && g[34..] == f[34..];
    assert Options(g) == g[34..][..HeaderLen(f) - IP_LEN];
    assert Options(f) == f[34..][..HeaderLen(f) - IP_LEN];
    FixedOptions(g);
  }

  lemma EmptyOptions(f: Frame)
    requires WholeHeader(f) && HeaderLen(f) == IP_LEN
    ensures Sum(Words(Big, Options(f))) == 0
  {
    assert Options(f) == [];
  }

  /** Without options (IHL 5) both always verify. */
  lemma NoOptions(e: Endian, cfg: LbConfig, info: BackendInfo, f: Frame)
    requires WholeHeader(f) && HeaderLen(f) == IP_LEN && info.ipv4 != 0 && cfg.vip != 0
    ensures WholeHeader(Dnat(e, cfg, info, f).value) && FullChecksumOk(Dnat(e, cfg, info, f).value)
    ensures WholeHeader(Snat(e, cfg, f).value) && FullChecksumOk(Snat(e, cfg, f).value)
  {
    EmptyOptions(f);
    DnatOptions(e, cfg, info, f);
    SnatOptions(e, cfg, f);
  }

  /** An echo request with three no-operation options and an end of options. */
  function OptionFrame(): Frame {
    OptionEthernet() + OptionHeader() + [1, 1, 1, 0] + [8, 0, 0, 0, 0, 0, 0, 0]
  }

  function OptionEthernet(): (r: seq<byte>)
    ensures |r| == ETH_LEN && r[12] == 8 && r[13] == 0
  {
    [0, 0, 0, 0, 0, 0, 0, 0, 0, 0, 0, 0, 8, 0]
  }

  function OptionHeader(): (r: seq<byte>)
    ensures |r| == IP_LEN && r[0] == 0x46 && r[9] == 1
  {
    [0x46, 0, 0, 32, 0, 0, 0, 0, 64, 1, 0x63, 0xCF, 10, 0, 0, 5, 10, 0, 0, 9]
  }

  /** A frame put together from its parts, with one word of options. */
  lemma FrameOf(eth: seq<byte>, hdr: seq<byte>, opts: seq<byte>, icmp: seq<byte>)
    requires |eth| == ETH_LEN && |hdr| == IP_LEN && |opts| == 4 && |icmp| == ICMP_LEN
    requires eth[12] == 8 && eth[13] == 0 && hdr[0] == 0x46 && hdr[9] == 1
    ensures var f := eth + hdr + opts + icmp;
            && WholeHeader(f) && Header(f) == hdr && Options(f) == opts
            && Accepts(Little, f) && Accepts(Big, f)
  {
    var f := eth + hdr + opts + icmp;
    assert f[12] == 8 && f[13] == 0 && f[14] == hdr[0] && f[23] == hdr[9];
  }

  lemma SumPrefix(ws: seq<u16>, k: nat)
    requires k < |ws|
    ensures Sum(ws[..k + 1]) == Sum(ws[..k]) + ws[k]
  {
    assert ws[..k + 1][..k] == ws[..k];
  }

  lemma SumTwo(ws: seq<u16>)
    requires |ws| == 2
    ensures Sum(ws) == ws[0] as int + ws[1]
  {
    SumPrefix(ws, 0);
    SumPrefix(ws, 1);
    assert ws[..2] == ws;
  }

  lemma SumTen(ws: seq<u16>)
    requires |ws| == 10
    ensures Sum(ws) == ws[0] as int + ws[1] + ws[2] + ws[3] + ws[4] + ws[5] + ws[6] + ws[7] + ws[8] + ws[9]
  {
    forall k | 0 <= k < 10 ensures Sum(ws[..k + 1]) == Sum(ws[..k]) + ws[k] {
      SumPrefix(ws, k);
    }
    assert Sum(ws[..5]) == ws[0] as int + ws[1] + ws[2] + ws[3] + ws[4];
    assert ws[..10] == ws;
  }

  lemma OptionSums()
    ensures Sum(Words(Big, OptionHeader())) == 0xFDFE && Sum(Words(Big, [1, 1, 1, 0])) == 0x0201
  {
    SumTen(Words(Big, OptionHeader()));
    SumTwo(Words(Big, [1, 1, 1, 0]));
  }

  /** A header and options whose words sum to 65535 verify. */
  lemma SumVerifies(hdr: seq<byte>, opts: seq<byte>)
    requires |hdr| % 2 == 0 && |opts| % 2 == 0
    requires Sum(Words(Big, hdr)) + Sum(Words(Big, opts)) == M
    ensures Verifies(Words(Big, hdr + opts))
  {
    WordsConcat(Big, hdr, opts);
    SumConcat(Words(Big, hdr), Words(Big, opts));
    OnesSumIsCanon(Words(Big, hdr + opts));
  }

  /** That frame arrives with a checksum that verifies, and leaves either program with one that does not. */
  lemma OptionsFail(e: Endian, cfg: LbConfig, info: BackendInfo)
    requires info.ipv4 != 0 && cfg.vip != 0
    ensures var f := OptionFrame();
            && Accepts(e, f) && WholeHeader(f) && FullChecksumOk(f)
            && var g, r := Dnat(e, cfg, info, f).value, Snat(e, cfg, f).value;
            && WholeHeader(g) && !FullChecksumOk(g)
            && WholeHeader(r) && !FullChecksumOk(r)
  {
    var f, opts := OptionFrame(), [1, 1, 1, 0];
    FrameOf(OptionEthernet(), OptionHeader(), opts, [8, 0, 0, 0, 0, 0, 0, 0]);
    HeaderSplit(f);
    OptionSums();
    SumVerifies(OptionHeader(), opts);
    DnatOptions(e, cfg, info, f);
    SnatOptions(e, cfg, f);
  }

  // ------------------------------------------------------------ incremental

  /** Recomputing `g`, which is `f` with the address of words `i` and `i + 1` replaced by a non-zero one. */
  lemma FixedIncrement(f: Frame, g: Frame, i: nat)
    requires ETH_LEN + IP_LEN <= |f| == |g| && 6 <= i < 9
    requires f[23] == 1 && ChecksumOk(f)
    requires var ws, gs := Words(Big, Header(f)), Words(Big, Header(g)); gs == ws[i := gs[i]][i + 1 := gs[i + 1]]
    requires Words(Big, Header(g))[i] != 0 || Words(Big, Header(g))[i + 1] != 0
    ensures var ws, ns := Words(Big, Header(f)), Words(Big, Header(FixChecksum(g)));
            ns[5] == Increment(Increment(ws[5], ws[i], ns[i]), ws[i + 1], ns[i + 1])
  {
    var ws, gs := Words(Big, Header(f)), Words(Big, Header(g));
    FixChecksumHeader(g);
    WithChecksumWords(Header(g));
    assert Words(Big, Blanked(Header(g))) == gs[5 := 0];
    RecomputeIsIncrement(ws, i, gs[i], gs[i + 1]);
  }

  /** For an ICMP frame whose checksum verifies, the recomputation is the incremental update, never its exception. */
  lemma DnatIncrement(e: Endian, cfg: LbConfig, info: BackendInfo, f: Frame)
    requires Accepts(e, f) && ChecksumOk(f) && info.ipv4 != 0
    ensures var ws, ns := Words(Big, Header(f)), Words(Big, Header(Dnat(e, cfg, info, f).value));
            ns[5] == Increment(Increment(ws[5], ws[8], ns[8]), ws[9], ns[9])
  {
    var w := Unpack(e, info.ipv4);
    PackZero(e, w);
    var g := WithDst(WithMacs(f, info.mac, cfg.srcMac), w);
    FixedIncrement(f, g, 8);
  }

  lemma SnatIncrement(e: Endian, cfg: LbConfig, f: Frame)
    requires Accepts(e, f) && ChecksumOk(f) && cfg.vip != 0
    ensures var ws, ns := Words(Big, Header(f)), Words(Big, Header(Snat(e, cfg, f).value));
            ns[5] == Increment(Increment(ws[5], ws[6], ns[6]), ws[7], ns[7])
  {
    var w := Unpack(e, cfg.vip);
    PackZero(e, w);
    FixedIncrement(f, WithSrc(f, w), 6);
  }

  // -------------------------------------------------------------- byte order

  /** With the maps filled on each kind of host by its own native stores, both rewrite a frame to the same bytes. */
  lemma SameBytesOnTheWire(s: Settings, count: u32, b: Backend, f: Frame)
    requires ETH_LEN + IP_LEN <= |f|
    ensures Dnat(Little, ConfigOf(Little, s, count), Info(Little, b), f)
         == Dnat(Big, ConfigOf(Big, s, count), Info(Big, b), f)
    ensures Snat(Little, ConfigOf(Little, s, count), f) == Snat(Big, ConfigOf(Big, s, count), f)
  {
    if b.ip.V4? {
      UnpackPack(Little, b.ip.addr);
      UnpackPack(Big, b.ip.addr);
      PackZero(Little, b.ip.addr);
      PackZero(Big, b.ip.addr);
    }
    if s.vip.V4? {
      UnpackPack(Little, s.vip.addr);
      UnpackPack(Big, s.vip.addr);
      PackZero(Little, s.vip.addr);
      PackZero(Big, s.vip.addr);
    }
  }

  /** A frame both kinds of host parse is given the same index by both. */
  lemma SameChoice(s: Settings, count: u32, draw: u32, f: Frame)
    requires Accepts(Little, f) && Accepts(Big, f)
    ensures Choose(Little, ConfigOf(Little, s, count), draw, f) == Choose(Big, ConfigOf(Big, s, count), draw, f)
  {
    if s.vip.V4? {
      PackInjective(Little, Dst(f), s.vip.addr);
      PackInjective(Big, Dst(f), s.vip.addr);
      PackZero(Little, s.vip.addr);
      PackZero(Big, s.vip.addr);
    }
  }

  /** The parse in wire terms: EtherType 0x0800 high byte first, protocol 1, room for the headers. */
  lemma ParsedFrames(e: Endian, f: Frame)
    ensures Accepts(e, f) <==>
              && 34 <= |f| && f[12] == 8 && f[13] == 0 && f[23] == 1
              && 14 + 4 * (if e == Little then f[14] % 16 else f[14] / 16) + 8 <= |f|
  {
    if ETH_LEN <= |f| {
      EtherType(e, f[12], f[13]);
    }
  }

  lemma EtherType(e: Endian, x: byte, y: byte)
    ensures Load16(e, x, y) == Htons(e, 0x0800) <==> x == 8 && y == 0
  {
    Load16Injective(e, x, y, 8, 0);
  }

  /**
   Where they do not parse alike: for an option-less IPv4 ICMP frame a big-endian
   build reads the version as the header length, so it also accepts frames that
   end up to four bytes before the end of the ICMP header.
   */
  lemma BigEndianParse(f: Frame)
    requires ETH_LEN + IP_LEN <= |f| && f[12] == 8 && f[13] == 0 && f[14] == 0x45 && f[23] == 1
    ensures Accepts(Little, f) <==> |f| >= 42
    ensures Accepts(Big, f) <==> |f| >= 38
  {
  }
}
