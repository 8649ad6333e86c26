/** What an interface knows and sends after every run, told from the inputs of the run alone. */
module InterfaceExact {
  import opened Bytes
  import opened InterfaceModel
  import opened InterfaceRuns

  /** How much time the inputs let pass. */
  function Clock(inputs: seq<Input>): nat {
    if inputs == [] then 0
    else
      var last := inputs[|inputs| - 1];
      Clock(inputs[..|inputs| - 1]) + (if last.Pass? then last.ms else 0)
  }

  /** A frame for the hardware address or for all. */
  predicate IsFor(frame: Frame, mac: Mac) {
    frame.dst == mac || frame.dst == 0xffff_ffff_ffff
  }

  /** What the last ARP message from `hop` said, request or reply, and when it came. */
  function LastHeard(mac: Mac, inputs: seq<Input>, hop: Ip): Option<Mapping> {
    if inputs == [] then None
    else
      var before, last := inputs[..|inputs| - 1], inputs[|inputs| - 1];
      if last.Arrive? && IsFor(last.frame, mac) && last.frame.payload.Arp? && last.frame.payload.msg.senderIp == hop then
        Some(Mapping(last.frame.payload.msg.senderMac, Clock(before)))
      else
        LastHeard(mac, before, hop)
  }

  lemma {:induction false} RunKeepsAddresses(mac: Mac, ip: Ip, inputs: seq<Input>)
    ensures var i := Run(mac, ip, inputs).iface;
            i.mac == mac && i.ip == ip && i.now == Clock(inputs)
  {
    hide PendingFor, PendingForOthers, FramesFor, NewFrames, Stamp;
    if inputs != [] {
      RunKeepsAddresses(mac, ip, inputs[..|inputs| - 1]);
    }
  }

  lemma {:induction false} HeardBefore(mac: Mac, inputs: seq<Input>, hop: Ip)
    ensures LastHeard(mac, inputs, hop).Some? ==> LastHeard(mac, inputs, hop).value.learned <= Clock(inputs)
  {
    if inputs != [] {
      HeardBefore(mac, inputs[..|inputs| - 1], hop);
    }
  }

  /** Over every run an address is cached exactly when an ARP message from it was accepted at most thirty
      seconds ago, with the hardware address that the last such message gave. */
  lemma {:induction false} CacheIsExact(mac: Mac, ip: Ip, inputs: seq<Input>, hop: Ip)
    ensures var i, heard := Run(mac, ip, inputs).iface, LastHeard(mac, inputs, hop);
            && (hop in i.cache <==> heard.Some? && Clock(inputs) <= heard.value.learned + 30000)
            && (hop in i.cache ==> i.cache[hop] == heard.value)
  {
    hide PendingFor, PendingForOthers, FramesFor, NewFrames, Stamp;
    if inputs != [] {
      var before := inputs[..|inputs| - 1];
      CacheIsExact(mac, ip, before, hop);
      RunKeepsAddresses(mac, ip, before);
      HeardBefore(mac, before, hop);
    }
  }

  // ---- What a datagram provokes

  /** When `hop` was last asked for. */
  function LastAsked(log: seq<Emission>, hop: Ip): nat {
    if log == [] then 0
    else
      var last := log[|log| - 1];
      if last.Asks(hop) then last.time else LastAsked(log[..|log| - 1], hop)
  }

  lemma {:induction false} AskedAppends(log: seq<Emission>, more: seq<Emission>, hop: Ip)
    requires forall e <- more :: !e.Asks(hop)
    ensures LastAsked(log + more, hop) == LastAsked(log, hop)
    decreases |more|
  {
    if more == [] {
      assert log + more == log;
    } else {
      assert (log + more)[..|log + more| - 1] == log + more[..|more| - 1];
      AskedAppends(log, more[..|more| - 1], hop);
    }
  }

  /** The request table holds the time of the last request. */
  ghost predicate TableRight(h: History) {
    forall hop <- h.iface.requests :: h.iface.requests[hop] == LastAsked(h.log, hop)
  }

  lemma SendTable(h: History, dgram: Datagram, hop: Ip)
    requires Logged(h) && TableRight(h)
    ensures TableRight(Next(h, Submit(dgram, hop)))
  {
    var after := Next(h, Submit(dgram, hop));
    var more := Stamp(SendFrames(h.iface, dgram, hop), hop, h.iface.now);
    SendLogs(h, dgram, hop);
    forall k <- after.iface.requests ensures after.iface.requests[k] == LastAsked(after.log, k) {
      if k == hop && hop !in h.iface.cache && h.iface.MayRequest(hop) {
        assert after.log[|after.log| - 1] == Emission(h.iface.RequestFrame(hop), hop, h.iface.now);
      } else {
        AskedAppends(h.log, more, k);
      }
    }
  }

  lemma ReceiveTable(h: History, frame: Frame)
    requires Logged(h) && TableRight(h) && Teaches(h.iface, frame)
    ensures TableRight(Next(h, Arrive(frame)))
  {
    var after := Next(h, Arrive(frame));
    forall k <- after.iface.requests ensures after.iface.requests[k] == LastAsked(after.log, k) {
      assert h.log <= after.log;
      forall e <- after.log[|h.log|..] ensures !e.Asks(k) {
        var n :| |h.log| <= n < |after.log| && after.log[n] == e;
        ReceiveAsksNothing(h, frame, n, k);
      }
      assert after.log == h.log + after.log[|h.log|..];
      AskedAppends(h.log, after.log[|h.log|..], k);
    }
  }

  lemma QuietTable(h: History, input: Input)
    requires Logged(h) && TableRight(h)
    requires input.Pass? || (input.Arrive? && !Teaches(h.iface, input.frame))
    ensures TableRight(Next(h, input))
  {
    StampLogs(h, input, []);
    assert Next(h, input).log == h.log;
  }

  lemma {:induction false} RunTable(mac: Mac, ip: Ip, inputs: seq<Input>)
    ensures TableRight(Run(mac, ip, inputs))
  {
    hide LastAsked, Keyed, Current, Conserved, AllTaught, AllRemembered, Spaced, Next;
    if inputs != [] {
      var before, input := inputs[..|inputs| - 1], inputs[|inputs| - 1];
      var h := Run(mac, ip, before);
      RunGood(mac, ip, before);
      RunTable(mac, ip, before);
      match input {
        case Submit(dgram, hop) => SendTable(h, dgram, hop);
        case Arrive(frame) =>
          if Teaches(h.iface, frame) {
            ReceiveTable(h, frame);
          } else {
            QuietTable(h, input);
          }
        case Pass(_) => QuietTable(h, input);
      }
    }
  }

  /** Over every run a datagram for a known hop leaves at once. For an unknown one a request is broadcast
      exactly when no datagram waits for the hop yet, or the last request was made more than five seconds
      ago; the datagram itself waits. */
  lemma SubmitEmits(mac: Mac, ip: Ip, inputs: seq<Input>, dgram: Datagram, hop: Ip)
    ensures var h := Run(mac, ip, inputs);
            var sent := NewFrames(h.iface, h.iface.Send(dgram, hop));
            var heard := LastHeard(mac, inputs, hop);
            if heard.Some? && Clock(inputs) <= heard.value.learned + 30000 then
              sent == [Frame(heard.value.mac, mac, Ipv4(dgram))]
            else if PendingFor(h.iface.pending, hop) == [] || Clock(inputs) > LastAsked(h.log, hop) + 5000 then
              sent == [Frame(0xffff_ffff_ffff, mac, Arp(ArpMessage(true, mac, ip, 0, hop)))]
            else
              sent == []
  {
    hide PendingFor, LastAsked;
    RunGood(mac, ip, inputs);
    RunTable(mac, ip, inputs);
    RunKeepsAddresses(mac, ip, inputs);
    CacheIsExact(mac, ip, inputs, hop);
  }

  // ---- What a frame provokes

  /** Over every run a frame for another hardware address is neither handed up nor has any effect; a
      datagram is handed up otherwise. An ARP message lets out everything that waits for its sender, in
      order, to the address it gives, followed by a reply exactly when it asks for this interface. */
  lemma ArriveEmits(mac: Mac, ip: Ip, inputs: seq<Input>, frame: Frame)
    ensures var i := Run(mac, ip, inputs).iface;
            var sent := NewFrames(i, i.Receive(frame));
            && i.HandsUp(frame) == (if IsFor(frame, mac) && frame.payload.Ipv4? then Some(frame.payload.dgram) else None)
            && (if IsFor(frame, mac) && frame.payload.Arp? then
                  var msg := frame.payload.msg;
                  var waiting := PendingFor(i.pending, msg.senderIp);
                  && |waiting| <= |sent|
                  && (forall n | 0 <= n < |waiting| :: sent[n] == Frame(msg.senderMac, mac, Ipv4(waiting[n])))
                  && sent[|waiting|..] ==
                     (if msg.request && msg.targetIp == ip then
                        [Frame(msg.senderMac, mac, Arp(ArpMessage(false, mac, ip, msg.senderMac, msg.senderIp)))]
                      else [])
                else
                  i.Receive(frame) == i)
  {
    hide PendingFor, PendingForOthers;
    RunKeepsAddresses(mac, ip, inputs);
    var i := Run(mac, ip, inputs).iface;
    if IsFor(frame, mac) && frame.payload.Arp? {
      var msg := frame.payload.msg;
      assert i.Receive(frame).framesOut == i.framesOut + ReceiveFrames(i, msg);
      assert NewFrames(i, i.Receive(frame)) == ReceiveFrames(i, msg);
    }
  }
}
