/** The interface object: a cache, a request table and queues changed in place. */
module NetworkInterfaces {
  import opened Bytes
  import opened InterfaceModel

  class NetworkInterface {
    const mac: Mac
    const ip: Ip
    var cache: map<Ip, Mapping>
    var pending: seq<Waiting>
    var requests: map<Ip, nat>
    var now: nat
    var framesOut: seq<Frame>

    ghost function View(): Interface
      reads this
    {
      Interface(mac, ip, cache, pending, requests, now, framesOut)
    }

    /** Requests were made, and mappings learned, in the past. */
    ghost predicate Ok()
      reads this
    {
      && (forall k <- requests :: requests[k] <= now)
      && (forall k <- cache :: cache[k].learned <= now)
    }

    constructor (mac: Mac, ip: Ip)
      ensures Ok()
      ensures View() == NewInterface(mac, ip)
    {
      this.mac, this.ip := mac, ip;
      cache, pending, requests, now, framesOut := map[], [], map[], 0, [];
    }

    method SendDatagram(dgram: Datagram, hop: Ip)
      requires Ok()
      modifies this
      ensures Ok()
      ensures View() == old(View()).Send(dgram, hop)
    {
      if hop in cache {
        var to := cache[hop].mac;
        framesOut := framesOut + [Frame(to, mac, Ipv4(dgram))];
      } else {
        if hop !in requests || now - requests[hop] > REQUEST_INTERVAL {
          var request := ArpMessage(true, mac, ip, 0, hop);
          framesOut := framesOut + [Frame(ETHERNET_BROADCAST, mac, Arp(request))];
          requests := requests[hop := now];
        }
        pending := pending + [Waiting(hop, dgram)];
      }
    }

    method RecvFrame(frame: Frame) returns (dgram: Option<Datagram>)
      requires Ok()
      modifies this
      ensures Ok()
      ensures View() == old(View()).Receive(frame)
      ensures dgram == old(View()).HandsUp(frame)
    {
      dgram := None;
      if frame.dst == mac || frame.dst == ETHERNET_BROADCAST {
        match frame.payload {
          case Ipv4(d) => dgram := Some(d);
          case Arp(msg) =>
            cache := cache[msg.senderIp := Mapping(msg.senderMac, now)];
            requests := requests - {msg.senderIp};
            SendPendingDatagrams(msg.senderIp);
            if msg.request && msg.targetIp == ip {
              var reply := ArpMessage(false, mac, ip, msg.senderMac, msg.senderIp);
              framesOut := framesOut + [Frame(msg.senderMac, mac, Arp(reply))];
            }
          case Unusable =>
        }
      }
    }

    method Tick(ms: nat)
      requires Ok()
      modifies this
      ensures Ok()
      ensures View() == old(View()).Tick(ms)
    {
      now := now + ms;
      RemoveExpiredCache();
    }

    /** Erase while iterating: every mapping is visited once. */
    method RemoveExpiredCache()
      requires forall k <- cache :: cache[k].learned <= now
      modifies this`cache
      ensures cache == Unexpired(old(cache), now)
    {
      var toVisit := cache.Keys;
      while toVisit != {}
        invariant toVisit <= old(cache).Keys
        invariant cache == map k | k in old(cache) && (k in toVisit || now <= old(cache)[k].learned + MAPPING_LIFETIME) :: old(cache)[k]
        decreases |toVisit|
      {
        var k :| k in toVisit;
        toVisit := toVisit - {k};
        if now - cache[k].learned > MAPPING_LIFETIME {
          cache := cache - {k};
        }
      }
    }

    /** Erase while iterating: the datagrams for `hop` leave in order, the others stay in order. */
    method SendPendingDatagrams(hop: Ip)
      requires hop in cache
      modifies this`pending, this`framesOut
      ensures View() == old(View()).Release(hop)
    {
      ghost var was := pending;
      ghost var i := 0;
      var it := 0;
      while it < |pending|
        invariant i <= |was| && it <= |pending|
        invariant pending[it..] == was[i..]
        invariant pending[..it] == PendingForOthers(was[..i], hop)
        invariant framesOut == old(framesOut) + FramesFor(cache[hop].mac, mac, PendingFor(was[..i], hop))
        decreases |was| - i
      {
        assert was[..i + 1][..i] == was[..i] && pending[it] == was[i];
        assert was[i + 1..] == was[i..][1..] && pending[it + 1..] == pending[it..][1..];
        var entry := pending[it];
        if entry.hop == hop {
          framesOut := framesOut + [Frame(cache[hop].mac, mac, Ipv4(entry.dgram))];
          pending := pending[..it] + pending[it + 1..];
        } else {
          assert pending[..it + 1] == pending[..it] + [entry];
          it := it + 1;
        }
        i := i + 1;
      }
      assert was[..i] == was && pending[..it] == pending;
    }
  }
}
