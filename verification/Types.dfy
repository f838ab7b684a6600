/**
 Records shared by the two planes of the load balancer (kernelspace/types.h and
 the Go structs that mirror them), and how addresses sit in memory.
 */
module Types {

  const MAX_BACKENDS: nat := 64

  type byte = x: int | 0 <= x < 256
  type u16 = x: int | 0 <= x < 0x1_0000
  type u32 = x: int | 0 <= x < 0x1_0000_0000
  type u64 = x: int | 0 <= x < 0x1_0000_0000_0000_0000

  /** The byte order of the host: the same compiled source runs on either. */
  datatype Endian = Little | Big

  /** Four address bytes in wire order. */
  datatype Addr = Addr(a: byte, b: byte, c: byte, d: byte)

  const ZERO_ADDR := Addr(0, 0, 0, 0)

  /** `net.IP`: `V4` is every value whose `To4()` is not nil. */
  datatype IP = V4(addr: Addr) | NotV4(raw: seq<byte>)

  type Mac = s: seq<byte> | |s| == 6 witness [0, 0, 0, 0, 0, 0]

  const ZERO_MAC: Mac := [0, 0, 0, 0, 0, 0]

  /** A discovered container: the fields of `discovery.Backend` that Sync reads. */
  datatype Backend = Backend(ip: IP, mac: seq<byte>, port: u16, veth: string, vethIdx: int)

  /** `struct backend_info` */
  datatype BackendInfo = BackendInfo(ipv4: u32, port: u16, mac: Mac, weight: u32)

  const EMPTY_INFO := BackendInfo(0, 0, ZERO_MAC, 0)

  /** `struct lb_config` */
  datatype LbConfig = LbConfig(vip: u32, vport: u16, count: u32, srcMac: Mac)

  const EMPTY_CONFIG := LbConfig(0, 0, 0, ZERO_MAC)

  // ---------------------------------------------------------------- words

  /** A native 16-bit load of two consecutive bytes. */
  function Load16(e: Endian, x: byte, y: byte): u16 {
    match e
    case Big => 256 * x + y
    case Little => 256 * y + x
  }

  /** The two bytes a native 16-bit store leaves in memory. */
  function Store16(e: Endian, w: u16): (r: (byte, byte))
    ensures Load16(e, r.0, r.1) == w
  {
    match e
    case Big => (w / 256, w % 256)
    case Little => (w % 256, w / 256)
  }

  /** `bpf_htons` */
  function Htons(e: Endian, w: u16): u16 {
    match e
    case Big => w
    case Little => 256 * (w % 256) + w / 256
  }

  /** A native 32-bit load; also `binary.NativeEndian.Uint32`. */
  function Pack(e: Endian, w: Addr): u32 {
    match e
    case Big => 0x1_0000 * Load16(e, w.a, w.b) + Load16(e, w.c, w.d)
    case Little => 0x1_0000 * Load16(e, w.c, w.d) + Load16(e, w.a, w.b)
  }

  /** The bytes a native 32-bit store leaves in memory. */
  function Unpack(e: Endian, v: u32): (r: Addr)
    ensures Pack(e, r) == v
  {
    var hi, lo := Store16(e, v / 0x1_0000), Store16(e, v % 0x1_0000);
    match e
    case Big => Addr(hi.0, hi.1, lo.0, lo.1)
    case Little => Addr(lo.0, lo.1, hi.0, hi.1)
  }

  lemma Load16Injective(e: Endian, x: byte, y: byte, x': byte, y': byte)
    ensures Load16(e, x, y) == Load16(e, x', y') <==> x == x' && y == y'
  {
  }

  /** Two packed words are equal exactly when the four wire bytes match. */
  lemma PackInjective(e: Endian, v: Addr, w: Addr)
    ensures Pack(e, v) == Pack(e, w) <==> v == w
  {
    Load16Injective(e, v.a, v.b, w.a, w.b);
    Load16Injective(e, v.c, v.d, w.c, w.d);
  }

  /** What a native load makes of four bytes: the first is the least or the most significant. */
  lemma PackValue(w: Addr)
    ensures Pack(Little, w) == w.a + 0x100 * w.b + 0x1_0000 * w.c + 0x100_0000 * w.d
    ensures Pack(Big, w) == 0x100_0000 * w.a + 0x1_0000 * w.b + 0x100 * w.c + w.d
  {
  }

  lemma UnpackPack(e: Endian, w: Addr)
    ensures Unpack(e, Pack(e, w)) == w
  {
    PackInjective(e, Unpack(e, Pack(e, w)), w);
  }

  lemma PackZero(e: Endian, w: Addr)
    ensures Pack(e, w) == 0 <==> w == ZERO_ADDR
  {
  }

  // ------------------------------------------------- what the maps store

  /** The `backend_ips_map` key of an address; 0 when it is not IPv4. */
  function Key(e: Endian, ip: IP): u32 {
    if ip.V4? then Pack(e, ip.addr) else 0
  }

  /** Copies a hardware address of six bytes; any other length leaves zeros. */
  function MacOf(m: seq<byte>): Mac {
    if |m| == 6 then m else ZERO_MAC
  }

  /** The `backend_map` value `UpdateBackend` builds. */
  function Info(e: Endian, b: Backend): BackendInfo {
    BackendInfo(Key(e, b.ip), b.port, MacOf(b.mac), 1)
  }

  function Veths(bs: seq<Backend>): set<string> {
    set b | b in bs :: b.veth
  }

  /** What discovery guarantees of one list: IPv4, six-byte MACs, and addresses non-zero and distinct. */
  ghost predicate Discovered(bs: seq<Backend>) {
    && (forall i | 0 <= i < |bs| :: bs[i].ip.V4? && bs[i].ip.addr != ZERO_ADDR && |bs[i].mac| == 6)
    && (forall i, j | 0 <= i < j < |bs| :: bs[i].ip != bs[j].ip)
  }

  lemma KeyInjective(e: Endian, x: IP, y: IP)
    requires x.V4? && y.V4?
    ensures Key(e, x) == Key(e, y) <==> x == y
  {
    PackInjective(e, x.addr, y.addr);
  }
}
