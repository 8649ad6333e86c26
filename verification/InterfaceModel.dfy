/** A network interface with its ARP state, as a value (libsponge/network_interface). */
module InterfaceModel {
  import opened Bytes

  type Ip = i: int | 0 <= i < 0x1_0000_0000

  type Mac = m: int | 0 <= m < 0x1_0000_0000_0000

  const ETHERNET_BROADCAST: Mac := 0xffff_ffff_ffff

  const REQUEST_INTERVAL: nat := 5000

  const MAPPING_LIFETIME: nat := 30000

  /** An IPv4 datagram, as far as interfaces and routers look into it. */
  datatype Datagram = Datagram(dst: Ip, ttl: byte, content: seq<byte>)

  datatype ArpMessage = ArpMessage(request: bool, senderMac: Mac, senderIp: Ip, targetMac: Mac, targetIp: Ip)

  /** What an Ethernet frame can carry: a datagram, an ARP message, or something that is neither or
      does not parse. */
  datatype Payload = Ipv4(dgram: Datagram) | Arp(msg: ArpMessage) | Unusable

  datatype Frame = Frame(dst: Mac, src: Mac, payload: Payload)

  datatype Mapping = Mapping(mac: Mac, learned: nat)

  datatype Waiting = Waiting(hop: Ip, dgram: Datagram)

  datatype Interface = Interface(mac: Mac, ip: Ip, cache: map<Ip, Mapping>, pending: seq<Waiting>,
                                 requests: map<Ip, nat>, now: nat, framesOut: seq<Frame>) {
    function RequestFrame(target: Ip): Frame {
      Frame(ETHERNET_BROADCAST, mac, Arp(ArpMessage(true, mac, ip, 0, target)))
    }

    function ReplyFrame(to: Mac, toIp: Ip): Frame {
      Frame(to, mac, Arp(ArpMessage(false, mac, ip, to, toIp)))
    }

    /** Is it time to ask for `hop`, for the first time or again? */
    predicate MayRequest(hop: Ip) {
      hop !in requests || now > requests[hop] + REQUEST_INTERVAL
    }

    /** `send_datagram` */
    function Send(dgram: Datagram, hop: Ip): Interface {
      if hop in cache then
        this.(framesOut := framesOut + [Frame(cache[hop].mac, mac, Ipv4(dgram))])
      else if MayRequest(hop) then
        this.(framesOut := framesOut + [RequestFrame(hop)],
              requests := requests[hop := now],
              pending := pending + [Waiting(hop, dgram)])
      else
        this.(pending := pending + [Waiting(hop, dgram)])
    }

    /** Learn a mapping: the request for it is settled. */
    function Learn(who: Ip, where: Mac): Interface {
      this.(cache := cache[who := Mapping(where, now)], requests := requests - {who})
    }

    /** `_send_pending_datagrams` */
    function Release(hop: Ip): Interface
      requires hop in cache
    {
      this.(framesOut := framesOut + FramesFor(cache[hop].mac, mac, PendingFor(pending, hop)),
            pending := PendingForOthers(pending, hop))
    }

    function Reply(msg: ArpMessage): Interface {
      if msg.request && msg.targetIp == ip then
        this.(framesOut := framesOut + [ReplyFrame(msg.senderMac, msg.senderIp)])
      else
        this
    }

    predicate Accepts(frame: Frame) {
      frame.dst == mac || frame.dst == ETHERNET_BROADCAST
    }

    /** `recv_frame` */
    function Receive(frame: Frame): Interface {
      if Accepts(frame) && frame.payload.Arp? then
        var msg := frame.payload.msg;
        Learn(msg.senderIp, msg.senderMac).Release(msg.senderIp).Reply(msg)
      else
        this
    }

    /** The datagram that `recv_frame` hands up. */
    function HandsUp(frame: Frame): Option<Datagram> {
      if Accepts(frame) && frame.payload.Ipv4? then Some(frame.payload.dgram) else None
    }

    /** `tick` */
    function Tick(ms: nat): Interface {
      var later := this.(now := now + ms);
      later.(cache := Unexpired(cache, later.now))
    }
  }

  function Unexpired(cache: map<Ip, Mapping>, now: nat): map<Ip, Mapping> {
    map k | k in cache && now <= cache[k].learned + MAPPING_LIFETIME :: cache[k]
  }

  /** The pending datagrams for one hop, in order. */
  function PendingFor(pending: seq<Waiting>, hop: Ip): seq<Datagram> {
    if pending == [] then []
    else
      var last := pending[|pending| - 1];
      PendingFor(pending[..|pending| - 1], hop) + (if last.hop == hop then [last.dgram] else [])
  }

  function PendingForOthers(pending: seq<Waiting>, hop: Ip): seq<Waiting> {
    if pending == [] then []
    else
      var last := pending[|pending| - 1];
      PendingForOthers(pending[..|pending| - 1], hop) + (if last.hop == hop then [] else [last])
  }

  /** One frame for each datagram, in order. */
  function FramesFor(to: Mac, from: Mac, dgrams: seq<Datagram>): seq<Frame> {
    seq(|dgrams|, i requires 0 <= i < |dgrams| => Frame(to, from, Ipv4(dgrams[i])))
  }

  function NewInterface(mac: Mac, ip: Ip): Interface {
    Interface(mac, ip, map[], [], map[], 0, [])
  }
}
