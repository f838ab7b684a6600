/**
 `bpf.Manager` (userspace/bpf/maps.go, userspace/bpf/loader.go): what the control
 plane does to the maps and to the table of veth links. The ghost results are the
 environment's outcomes of the atomic operations made, in order.
 */
module BpfManager {
  import opened Types
  import opened KernelMaps
  import opened Reconciler

  class Manager {
    const objs: Maps
    var vethLinks: map<string, int>

    constructor (objs: Maps)
      ensures this.objs == objs && vethLinks == map[]
    {
      this.objs := objs;
      vethLinks := map[];
    }

    method UpdateConfig(vip: IP, vport: u16, backendCount: u32, srcMac: seq<byte>) returns (err: bool, ghost ok: bool)
      modifies objs`config
      ensures var word := if vip.V4? then Pack(objs.host, vip.addr) else 0;
              var mac := if |srcMac| == 6 then srcMac else [0, 0, 0, 0, 0, 0];
              objs.View() == if ok then old(objs.View()).(config := LbConfig(word, vport, backendCount, mac))
                             else old(objs.View())
      ensures err == !ok
    {
      var vipWord: u32 := 0;
      if vip.V4? {
        vipWord := Pack(objs.host, vip.addr);
      }
      var mac: Mac := ZERO_MAC;
      if |srcMac| == 6 {
        mac := srcMac;
      }
      err, ok := objs.Configure(LbConfig(vipWord, vport, backendCount, mac));
    }

    /** Forward entry first, then the reverse one. */
    method UpdateBackend(index: nat, ip: IP, port: u16, mac: seq<byte>)
      returns (err: bool, ghost ok1: bool, ghost ok2: bool)
      modifies objs`slots, objs`ips
      ensures
        var k := old(objs.View());
        var key := if ip.V4? then Pack(objs.host, ip.addr) else 0;
        var bytes := if |mac| == 6 then mac else [0, 0, 0, 0, 0, 0];
        var k1 := PutSlot(k, index, BackendInfo(key, port, bytes, 1), ok1);
        if !ip.V4? || !SlotAccepted(index, ok1) then err && objs.View() == k
        else objs.View() == PutIp(k1, key, index, ok2) && err == !IpAccepted(k1, key, ok2)
    {
      ok1, ok2 := false, false;
      if !ip.V4? {
        return true, ok1, ok2;
      }
      var bytes: Mac := ZERO_MAC;
      if |mac| == 6 {
        bytes := mac;
      }
      var key := Pack(objs.host, ip.addr);
      err, ok1 := objs.Put(index, BackendInfo(key, port, bytes, 1));
      if err {
        return;
      }
      err, ok2 := objs.Register(key, index);
    }

    /** The forward slot is zeroed first; the delete that follows may fail unnoticed. */
    method ClearBackend(index: nat, ip: IP) returns (err: bool, ghost ok1: bool, ghost ok2: bool)
      modifies objs`slots, objs`ips
      ensures
        var k := old(objs.View());
        && err == !SlotAccepted(index, ok1)
        && var k1 := PutSlot(k, index, BackendInfo(0, 0, [0, 0, 0, 0, 0, 0], 0), ok1);
        objs.View() == if err then k
                       else if ip.V4? && ok2 then k1.(ips := k1.ips - {Pack(objs.host, ip.addr)})
                       else k1
    {
      ok2 := true;
      err, ok1 := objs.Put(index, EMPTY_INFO);
      if err {
        return;
      }
      if ip.V4? {
        ok2 := objs.Unregister(Pack(objs.host, ip.addr));
      }
    }

    method AttachVethXDP(vethName: string, vethIfIndex: int) returns (err: bool, ghost ok: bool)
      modifies this`vethLinks
      ensures err == (vethName !in old(vethLinks) && !ok)
      ensures vethLinks == if vethName in old(vethLinks) || err then old(vethLinks)
                           else old(vethLinks)[vethName := vethIfIndex]
    {
      var up: bool := *;
      ok := up;
      if vethName in vethLinks {
        return false, ok;
      }
      err := !up;
      if up {
        vethLinks := vethLinks[vethName := vethIfIndex];
      }
    }

    method DetachVethXDP(vethName: string) returns (err: bool, ghost ok: bool)
      modifies this`vethLinks
      ensures err == (vethName in old(vethLinks) && !ok)
      ensures vethLinks == if err then old(vethLinks) else old(vethLinks) - {vethName}
    {
      var up: bool := *;
      ok := up;
      if vethName !in vethLinks {
        assert vethLinks - {vethName} == vethLinks;
        return false, ok;
      }
      err := !up;
      if up {
        vethLinks := vethLinks - {vethName};
      }
    }

    /** Sums the per-CPU counters of one index, wrapping; an index past the map is an error. */
    method ReadStats(index: nat) returns (packets: u64, bytes: u64, err: bool)
      requires objs.Valid()
      ensures err == (index >= 64)
      ensures err ==> packets == 0 && bytes == 0
      ensures !err ==> packets == SumOf(PacketCount, objs.Row(index)) % 0x1_0000_0000_0000_0000
      ensures !err ==> bytes == SumOf(ByteCount, objs.Row(index)) % 0x1_0000_0000_0000_0000
    {
      packets, bytes := 0, 0;
      if index >= MAX_BACKENDS {
        return 0, 0, true;
      }
      err := false;
      ghost var row := objs.Row(index);
      for c := 0 to objs.cpus
        invariant packets == Wrap64(SumOf(PacketCount, row[..c])) && bytes == Wrap64(SumOf(ByteCount, row[..c]))
      {
        assert row[..c + 1][..c] == row[..c];
        var v := objs.counters[index, c];
        WrapSum(packets, SumOf(PacketCount, row[..c]), v.packets, v.packets);
        WrapSum(bytes, SumOf(ByteCount, row[..c]), v.bytes, v.bytes);
        packets := Wrap64(packets + v.packets);
        bytes := Wrap64(bytes + v.bytes);
      }
      assert row[..objs.cpus] == row;
    }
  }
}
