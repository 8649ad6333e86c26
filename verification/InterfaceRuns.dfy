/** What every run of a network interface keeps: spaced requests, no datagram lost or reordered, and
    no mapping used after its time. */
module InterfaceRuns {
  import opened Bytes
  import opened InterfaceModel

  datatype Input =
    | Submit(dgram: Datagram, hop: Ip)
    | Arrive(frame: Frame)
    | Pass(ms: nat)

  /** A frame that left, with the neighbour it concerned and when. */
  datatype Emission = Emission(frame: Frame, hop: Ip, time: nat) {
    predicate Asks(target: Ip) {
      frame.payload.Arp? && frame.payload.msg.request && frame.payload.msg.targetIp == target
    }

    predicate Carries() {
      frame.payload.Ipv4?
    }
  }

  /** An ARP message told the interface who owns an address. */
  datatype Lesson = Lesson(ip: Ip, mac: Mac, time: nat)

  /** An interface with everything that went in and out of it. */
  datatype History = History(iface: Interface, submitted: seq<Waiting>, log: seq<Emission>, lessons: set<Lesson>)

  function Apply(i: Interface, input: Input): Interface {
    match input
    case Submit(dgram, hop) => i.Send(dgram, hop)
    case Arrive(frame) => i.Receive(frame)
    case Pass(ms) => i.Tick(ms)
  }

  /** The neighbour that a step is about. */
  function Neighbour(input: Input): Ip {
    match input
    case Submit(_, hop) => hop
    case Arrive(frame) => if frame.payload.Arp? then frame.payload.msg.senderIp else 0
    case Pass(_) => 0
  }

  function Stamp(frames: seq<Frame>, hop: Ip, now: nat): seq<Emission> {
    seq(|frames|, i requires 0 <= i < |frames| => Emission(frames[i], hop, now))
  }

  function Frames(log: seq<Emission>): seq<Frame> {
    seq(|log|, i requires 0 <= i < |log| => log[i].frame)
  }

  /** Whatever the step added to the frame queue is logged. */
  function NewFrames(before: Interface, after: Interface): seq<Frame> {
    if |before.framesOut| <= |after.framesOut| then after.framesOut[|before.framesOut|..] else []
  }

  function Learned(i: Interface, input: Input): set<Lesson> {
    if input.Arrive? && i.Accepts(input.frame) && input.frame.payload.Arp? then
      var msg := input.frame.payload.msg;
      {Lesson(msg.senderIp, msg.senderMac, i.now)}
    else
      {}
  }

  function Next(h: History, input: Input): History {
    var after := Apply(h.iface, input);
    History(after,
            if input.Submit? then h.submitted + [Waiting(input.hop, input.dgram)] else h.submitted,
            h.log + Stamp(NewFrames(h.iface, after), Neighbour(input), after.now),
            h.lessons + Learned(h.iface, input))
  }

  function Run(mac: Mac, ip: Ip, inputs: seq<Input>): History {
    if inputs == [] then History(NewInterface(mac, ip), [], [], {})
    else Next(Run(mac, ip, inputs[..|inputs| - 1]), inputs[|inputs| - 1])
  }

  /** The datagrams that left for one hop, in order. */
  function SentTo(log: seq<Emission>, hop: Ip): seq<Datagram> {
    if log == [] then []
    else
      var last := log[|log| - 1];
      SentTo(log[..|log| - 1], hop) +
      (if last.hop == hop && last.Carries() then [last.frame.payload.dgram] else [])
  }

  // ---- the invariants ----

  /** Datagrams wait exactly for the addresses with a request outstanding, and those are not cached. */
  ghost predicate Keyed(i: Interface) {
    && (forall hop: Ip :: hop in i.requests <==> PendingFor(i.pending, hop) != [])
    && i.requests.Keys !! i.cache.Keys
  }

  /** Every cached mapping was learned from a message, at most its lifetime ago. */
  ghost predicate Current(h: History) {
    forall hop <- h.iface.cache ::
      && h.iface.cache[hop].learned <= h.iface.now <= h.iface.cache[hop].learned + MAPPING_LIFETIME
      && Lesson(hop, h.iface.cache[hop].mac, h.iface.cache[hop].learned) in h.lessons
  }

  /** For each hop: what was submitted is what was sent, then what waits. */
  ghost predicate Conserved(h: History) {
    forall hop: Ip ::
      PendingFor(h.submitted, hop) == SentTo(h.log, hop) + PendingFor(h.iface.pending, hop)
  }

  ghost predicate Logged(h: History) {
    && h.iface.framesOut == Frames(h.log)
    && forall e <- h.log :: e.time <= h.iface.now
  }

  /** A data frame goes to the address that a message gave for its hop, at most a lifetime before. */
  ghost predicate Taught(e: Emission, lessons: set<Lesson>) {
    exists t: nat :: Lesson(e.hop, e.frame.dst, t) in lessons && t <= e.time <= t + 30000
  }

  ghost predicate AllTaught(log: seq<Emission>, lessons: set<Lesson>) {
    forall e <- log :: e.Carries() ==> Taught(e, lessons)
  }

  /** A past request is still on record, or settled by a mapping that is still cached, or long ago. */
  ghost predicate Remembered(i: Interface, target: Ip, time: nat) {
    || (target in i.requests && time <= i.requests[target] <= i.now)
    || (target in i.cache && time <= i.cache[target].learned)
    || i.now > time + MAPPING_LIFETIME
  }

  ghost predicate AllRemembered(h: History) {
    forall e <- h.log, target: Ip :: e.Asks(target) ==> Remembered(h.iface, target, e.time)
  }

  ghost predicate Spaced(log: seq<Emission>) {
    forall a, b, target: Ip :: 0 <= a < b < |log| && log[a].Asks(target) && log[b].Asks(target) ==>
      log[b].time > log[a].time + REQUEST_INTERVAL
  }

  ghost predicate Good(h: History) {
    && Keyed(h.iface)
    && Current(h)
    && Conserved(h)
    && Logged(h)
    && AllTaught(h.log, h.lessons)
    && AllRemembered(h)
    && Spaced(h.log)
  }

  // ---- sequences ----

  lemma {:induction false} SentAppends(log: seq<Emission>, more: seq<Emission>, hop: Ip)
    ensures SentTo(log + more, hop) == SentTo(log, hop) + SentTo(more, hop)
    decreases |more|
  {
    if more == [] {
      assert log + more == log;
    } else {
      var n := |more| - 1;
      SentAppends(log, more[..n], hop);
      assert (log + more)[..|log| + n] == log + more[..n];
    }
  }

  lemma {:induction false} SentReleased(to: Mac, from: Mac, dgrams: seq<Datagram>, who: Ip, now: nat, hop: Ip)
    ensures SentTo(Stamp(FramesFor(to, from, dgrams), who, now), hop) == if hop == who then dgrams else []
    decreases |dgrams|
  {
    var log := Stamp(FramesFor(to, from, dgrams), who, now);
    if dgrams != [] {
      var n := |dgrams| - 1;
      SentReleased(to, from, dgrams[..n], who, now, hop);
      assert log[..n] == Stamp(FramesFor(to, from, dgrams[..n]), who, now);
      assert dgrams == dgrams[..n] + [dgrams[n]];
    }
  }

  lemma {:induction false} OthersStay(pending: seq<Waiting>, who: Ip, hop: Ip)
    ensures PendingFor(PendingForOthers(pending, who), hop) == if hop == who then [] else PendingFor(pending, hop)
    decreases |pending|
  {
    if pending != [] {
      var n := |pending| - 1;
      OthersStay(pending[..n], who, hop);
      if pending[n].hop == who {
        assert PendingForOthers(pending, who) == PendingForOthers(pending[..n], who);
      } else {
        PendingAppends(PendingForOthers(pending[..n], who), pending[n], hop);
      }
    }
  }

  lemma PendingAppends(pending: seq<Waiting>, w: Waiting, hop: Ip)
    ensures PendingFor(pending + [w], hop) == PendingFor(pending, hop) + (if w.hop == hop then [w.dgram] else [])
  {
    assert (pending + [w])[..|pending|] == pending;
  }

  /** Stamped frames join the log, and the log joins the frames. */
  lemma StampLogs(h: History, input: Input, more: seq<Frame>)
    requires Logged(h) && h.iface.now <= Apply(h.iface, input).now
    requires Apply(h.iface, input).framesOut == h.iface.framesOut + more
    ensures Next(h, input).log == h.log + Stamp(more, Neighbour(input), Apply(h.iface, input).now)
    ensures Logged(Next(h, input))
  {
    assert (h.iface.framesOut + more)[|h.iface.framesOut|..] == more;
  }

  // ---- sending ----

  /** The frame that `send_datagram` adds, if any. */
  function SendFrames(i: Interface, dgram: Datagram, hop: Ip): seq<Frame> {
    if hop in i.cache then [Frame(i.cache[hop].mac, i.mac, Ipv4(dgram))]
    else if i.MayRequest(hop) then [i.RequestFrame(hop)]
    else []
  }

  lemma SendLogs(h: History, dgram: Datagram, hop: Ip)
    requires Logged(h)
    ensures Logged(Next(h, Submit(dgram, hop)))
    ensures Next(h, Submit(dgram, hop)).log == h.log + Stamp(SendFrames(h.iface, dgram, hop), hop, h.iface.now)
  {
    StampLogs(h, Submit(dgram, hop), SendFrames(h.iface, dgram, hop));
  }

  lemma SendKeyed(i: Interface, dgram: Datagram, hop: Ip)
    requires Keyed(i)
    ensures Keyed(i.Send(dgram, hop))
  {
    if hop !in i.cache {
      var after := i.Send(dgram, hop);
      forall k: Ip
        ensures k in after.requests <==> PendingFor(after.pending, k) != []
      {
        PendingAppends(i.pending, Waiting(hop, dgram), k);
      }
    }
  }

  lemma SendSent(i: Interface, dgram: Datagram, hop: Ip, k: Ip)
    ensures SentTo(Stamp(SendFrames(i, dgram, hop), hop, i.now), k) ==
            if hop in i.cache && k == hop then [dgram] else []
  {
  }

  /** A datagram for a known neighbour overtakes nothing: what is cached has nothing waiting for it. */
  lemma SendConserved(h: History, dgram: Datagram, hop: Ip, k: Ip)
    requires Keyed(h.iface) && Conserved(h) && Logged(h)
    ensures PendingFor(Next(h, Submit(dgram, hop)).submitted, k) ==
            SentTo(Next(h, Submit(dgram, hop)).log, k) + PendingFor(h.iface.Send(dgram, hop).pending, k)
  {
    hide SentTo, PendingFor, SendFrames, Stamp;
    SendLogs(h, dgram, hop);
    PendingAppends(h.submitted, Waiting(hop, dgram), k);
    PendingAppends(h.iface.pending, Waiting(hop, dgram), k);
    var more := Stamp(SendFrames(h.iface, dgram, hop), hop, h.iface.now);
    SentAppends(h.log, more, k);
    SendSent(h.iface, dgram, hop, k);
    var sent, waiting := SentTo(h.log, k), PendingFor(h.iface.pending, k);
    if k != hop {
      assert sent + [] == sent && waiting + [] == waiting;
    } else if hop in h.iface.cache {
      assert waiting == [];
      assert sent + [] == sent && (sent + [dgram]) + [] == sent + [dgram];
    } else {
      assert sent + (waiting + [dgram]) == sent + waiting + [dgram];
    }
  }

  lemma SendTaught(h: History, dgram: Datagram, hop: Ip)
    requires Current(h) && Logged(h) && AllTaught(h.log, h.lessons)
    ensures AllTaught(Next(h, Submit(dgram, hop)).log, h.lessons)
  {
    SendLogs(h, dgram, hop);
    if hop in h.iface.cache {
      var m := h.iface.cache[hop];
      assert Lesson(hop, m.mac, m.learned) in h.lessons;
    }
  }

  lemma SendRemembered(h: History, dgram: Datagram, hop: Ip)
    requires AllRemembered(h) && Logged(h)
    ensures AllRemembered(Next(h, Submit(dgram, hop)))
  {
    SendLogs(h, dgram, hop);
    var after := Next(h, Submit(dgram, hop));
    forall e <- after.log, target: Ip | e.Asks(target)
      ensures Remembered(after.iface, target, e.time)
    {
      assert e in h.log ==> Remembered(h.iface, target, e.time);
    }
  }

  /** A new request is far from every earlier one: an erased record means a cache entry, which has to
      expire before anything is asked again. */
  lemma SendSpaced(h: History, dgram: Datagram, hop: Ip)
    requires Keyed(h.iface) && AllRemembered(h) && Logged(h) && Spaced(h.log)
    ensures Spaced(Next(h, Submit(dgram, hop)).log)
  {
    SendLogs(h, dgram, hop);
    var log := Next(h, Submit(dgram, hop)).log;
    forall a, b, target: Ip | 0 <= a < b < |log| && log[a].Asks(target) && log[b].Asks(target)
      ensures log[b].time > log[a].time + REQUEST_INTERVAL
    {
      if b == |h.log| {
        assert h.log[a].Asks(target) && h.log[a] in h.log;
        assert Remembered(h.iface, target, h.log[a].time);
      }
    }
  }

  lemma SendGood(h: History, dgram: Datagram, hop: Ip)
    requires Good(h)
    ensures Good(Next(h, Submit(dgram, hop)))
  {
    hide Taught, Remembered, SentTo, PendingFor;
    var after := Next(h, Submit(dgram, hop));
    SendLogs(h, dgram, hop);
    SendKeyed(h.iface, dgram, hop);
    assert after.lessons == h.lessons;
    assert Conserved(after) by {
      forall k: Ip { SendConserved(h, dgram, hop, k); }
    }
    SendTaught(h, dgram, hop);
    SendRemembered(h, dgram, hop);
    SendSpaced(h, dgram, hop);
  }

  // ---- learning ----

  ghost predicate Teaches(i: Interface, frame: Frame) {
    i.Accepts(frame) && frame.payload.Arp?
  }

  /** The frames that an ARP message lets out: what waited for its sender, then perhaps a reply. */
  function ReceiveFrames(i: Interface, msg: ArpMessage): seq<Frame> {
    FramesFor(msg.senderMac, i.mac, PendingFor(i.pending, msg.senderIp)) + ReplyFrames(i, msg)
  }

  function ReplyFrames(i: Interface, msg: ArpMessage): seq<Frame> {
    if msg.request && msg.targetIp == i.ip then [i.ReplyFrame(msg.senderMac, msg.senderIp)] else []
  }

  lemma ReceiveLogs(h: History, frame: Frame)
    requires Logged(h) && Teaches(h.iface, frame)
    ensures Logged(Next(h, Arrive(frame)))
    ensures var msg := frame.payload.msg;
            Next(h, Arrive(frame)).log == h.log + Stamp(ReceiveFrames(h.iface, msg), msg.senderIp, h.iface.now)
  {
    StampLogs(h, Arrive(frame), ReceiveFrames(h.iface, frame.payload.msg));
  }

  lemma ReceiveKeyed(i: Interface, frame: Frame)
    requires Keyed(i) && Teaches(i, frame)
    ensures Keyed(i.Receive(frame))
  {
    var who := frame.payload.msg.senderIp;
    var after := i.Receive(frame);
    forall k: Ip
      ensures k in after.requests <==> PendingFor(after.pending, k) != []
    {
      OthersStay(i.pending, who, k);
    }
  }

  lemma ReceiveSent(i: Interface, msg: ArpMessage, k: Ip)
    ensures SentTo(Stamp(ReceiveFrames(i, msg), msg.senderIp, i.now), k) ==
            if k == msg.senderIp then PendingFor(i.pending, k) else []
  {
    hide SentTo, Stamp, PendingFor, FramesFor;
    var who := msg.senderIp;
    var data := FramesFor(msg.senderMac, i.mac, PendingFor(i.pending, who));
    var rest := ReplyFrames(i, msg);
    SentReleased(msg.senderMac, i.mac, PendingFor(i.pending, who), who, i.now, k);
    StampJoins(data, rest, who, i.now);
    SentAppends(Stamp(data, who, i.now), Stamp(rest, who, i.now), k);
    ReplyCarriesNothing(i, msg, k);
  }

  lemma StampJoins(a: seq<Frame>, b: seq<Frame>, hop: Ip, now: nat)
    ensures Stamp(a + b, hop, now) == Stamp(a, hop, now) + Stamp(b, hop, now)
  {
  }

  lemma ReplyCarriesNothing(i: Interface, msg: ArpMessage, k: Ip)
    ensures SentTo(Stamp(ReplyFrames(i, msg), msg.senderIp, i.now), k) == []
  {
  }

  /** The datagrams let out are exactly those that waited, in order. */
  lemma ReceiveConserved(h: History, frame: Frame, k: Ip)
    requires Conserved(h) && Logged(h) && Teaches(h.iface, frame)
    ensures PendingFor(h.submitted, k) ==
            SentTo(Next(h, Arrive(frame)).log, k) + PendingFor(h.iface.Receive(frame).pending, k)
  {
    hide SentTo, PendingFor, ReceiveFrames, Stamp;
    var msg := frame.payload.msg;
    ReceiveLogs(h, frame);
    SentAppends(h.log, Stamp(ReceiveFrames(h.iface, msg), msg.senderIp, h.iface.now), k);
    ReceiveSent(h.iface, msg, k);
    OthersStay(h.iface.pending, msg.senderIp, k);
    var sent, waiting := SentTo(h.log, k), PendingFor(h.iface.pending, k);
    if k == msg.senderIp {
      assert sent + waiting + [] == sent + waiting;
    } else {
      assert sent + [] == sent;
    }
  }

  lemma StampedFor(i: Interface, msg: ArpMessage, e: Emission)
    requires e in Stamp(ReceiveFrames(i, msg), msg.senderIp, i.now)
    ensures e.hop == msg.senderIp && e.frame.dst == msg.senderMac && e.time == i.now
  {
    var frames := ReceiveFrames(i, msg);
    var n :| 0 <= n < |frames| && e == Stamp(frames, msg.senderIp, i.now)[n];
    assert frames[n].dst == msg.senderMac;
  }

  lemma ReceiveTaught(h: History, frame: Frame)
    requires Logged(h) && AllTaught(h.log, h.lessons) && Teaches(h.iface, frame)
    ensures AllTaught(Next(h, Arrive(frame)).log, Next(h, Arrive(frame)).lessons)
  {
    hide ReceiveFrames, Stamp;
    var msg, after := frame.payload.msg, Next(h, Arrive(frame));
    ReceiveLogs(h, frame);
    assert Lesson(msg.senderIp, msg.senderMac, h.iface.now) in after.lessons;
    forall e <- after.log | e.Carries()
      ensures Taught(e, after.lessons)
    {
      if e in h.log {
        assert Taught(e, h.lessons);
      } else {
        StampedFor(h.iface, msg, e);
      }
    }
  }

  /** Learning asks nothing. */
  lemma ReceiveAsksNothing(h: History, frame: Frame, n: nat, target: Ip)
    requires Logged(h) && Teaches(h.iface, frame)
    requires |h.log| <= n < |Next(h, Arrive(frame)).log|
    ensures !Next(h, Arrive(frame)).log[n].Asks(target)
  {
    hide Next;
    ReceiveLogs(h, frame);
    assert Next(h, Arrive(frame)).log[n].frame == ReceiveFrames(h.iface, frame.payload.msg)[n - |h.log|];
  }

  /** Learning settles every request for the address learned. */
  lemma ReceiveRequests(h: History, frame: Frame)
    requires Logged(h) && AllRemembered(h) && Spaced(h.log) && Teaches(h.iface, frame)
    ensures AllRemembered(Next(h, Arrive(frame)))
    ensures Spaced(Next(h, Arrive(frame)).log)
  {
    hide ReceiveFrames, Stamp;
    var after := Next(h, Arrive(frame));
    ReceiveLogs(h, frame);
    forall n, target: Ip | |h.log| <= n < |after.log|
      ensures !after.log[n].Asks(target)
    {
      ReceiveAsksNothing(h, frame, n, target);
    }
    forall e <- after.log, target: Ip | e.Asks(target)
      ensures Remembered(after.iface, target, e.time)
    {
      assert e in h.log && Remembered(h.iface, target, e.time);
    }
  }

  lemma ReceiveCurrent(h: History, frame: Frame)
    requires Current(h) && Teaches(h.iface, frame)
    ensures Current(Next(h, Arrive(frame)))
  {
    var msg, after := frame.payload.msg, Next(h, Arrive(frame));
    assert Lesson(msg.senderIp, msg.senderMac, h.iface.now) in after.lessons;
  }

  lemma ReceiveGood(h: History, frame: Frame)
    requires Good(h) && Teaches(h.iface, frame)
    ensures Good(Next(h, Arrive(frame)))
  {
    hide Taught, Remembered, SentTo, PendingFor;
    var after := Next(h, Arrive(frame));
    ReceiveLogs(h, frame);
    ReceiveKeyed(h.iface, frame);
    ReceiveCurrent(h, frame);
    assert Conserved(after) by {
      forall k: Ip { ReceiveConserved(h, frame, k); }
    }
    ReceiveTaught(h, frame);
    ReceiveRequests(h, frame);
  }

  // ---- whole runs ----

  /** Other frames change nothing here, and time only ages what is known. */
  lemma QuietGood(h: History, input: Input)
    requires Good(h)
    requires input.Pass? || (input.Arrive? && !Teaches(h.iface, input.frame))
    ensures Good(Next(h, input))
  {
    var after := Next(h, input);
    StampLogs(h, input, []);
    assert after.log == h.log && after.lessons == h.lessons && after.iface.pending == h.iface.pending;
    forall e <- h.log, target: Ip | e.Asks(target)
      ensures Remembered(after.iface, target, e.time)
    {
      assert Remembered(h.iface, target, e.time);
    }
    assert Conserved(after);
  }

  lemma {:induction false} RunGood(mac: Mac, ip: Ip, inputs: seq<Input>)
    ensures Good(Run(mac, ip, inputs))
  {
    if inputs != [] {
      var h, input := Run(mac, ip, inputs[..|inputs| - 1]), inputs[|inputs| - 1];
      RunGood(mac, ip, inputs[..|inputs| - 1]);
      match input {
        case Submit(dgram, hop) => SendGood(h, dgram, hop);
        case Arrive(frame) =>
          if Teaches(h.iface, frame) {
            ReceiveGood(h, frame);
          } else {
            QuietGood(h, input);
          }
        case Pass(_) => QuietGood(h, input);
      }
    }
  }

  /** Two requests for the same address are always more than five seconds apart. */
  lemma RequestsSpaced(mac: Mac, ip: Ip, inputs: seq<Input>, a: nat, b: nat, target: Ip)
    requires a < b < |Run(mac, ip, inputs).log|
    requires Run(mac, ip, inputs).log[a].Asks(target) && Run(mac, ip, inputs).log[b].Asks(target)
    ensures Run(mac, ip, inputs).log[b].time > Run(mac, ip, inputs).log[a].time + 5000
  {
    RunGood(mac, ip, inputs);
  }

  /** For each hop the datagrams sent, followed by those waiting, are those submitted, in order; some
      wait exactly when a request is outstanding, and then the hop is not in the cache. */
  lemma DatagramsConserved(mac: Mac, ip: Ip, inputs: seq<Input>, hop: Ip)
    ensures var h := Run(mac, ip, inputs);
            && PendingFor(h.submitted, hop) == SentTo(h.log, hop) + PendingFor(h.iface.pending, hop)
            && h.iface.framesOut == Frames(h.log)
            && (PendingFor(h.iface.pending, hop) != [] <==> hop in h.iface.requests)
            && (hop in h.iface.requests ==> hop !in h.iface.cache)
  {
    RunGood(mac, ip, inputs);
  }

  /** Each data frame went to a hardware address that an ARP message, received at most thirty seconds
      earlier, gave for its hop. */
  lemma MappingsCurrent(mac: Mac, ip: Ip, inputs: seq<Input>, n: nat)
    requires n < |Run(mac, ip, inputs).log| && Run(mac, ip, inputs).log[n].Carries()
    ensures Taught(Run(mac, ip, inputs).log[n], Run(mac, ip, inputs).lessons)
  {
    RunGood(mac, ip, inputs);
  }

  // ---- two interfaces ----

  function Latest(i: Interface): Frame
    requires i.framesOut != []
  {
    i.framesOut[|i.framesOut| - 1]
  }

  /** Resolution: the request that a datagram for an unknown neighbour provokes is answered by that
      neighbour, which learns who asked; the answer lets the datagram out, to an address at which the
      neighbour accepts it, and leaves nothing waiting. */
  lemma Resolution(a: Interface, b: Interface, dgram: Datagram)
    requires b.ip !in a.cache && a.MayRequest(b.ip)
    ensures var asked := a.Send(dgram, b.ip);
            var answered := b.Receive(Latest(asked));
            asked.framesOut != [] && answered.framesOut != [] &&
            var sent := asked.Receive(Latest(answered));
            && a.ip in answered.cache && answered.cache[a.ip] == Mapping(a.mac, b.now)
            && b.ip in sent.cache && sent.cache[b.ip] == Mapping(b.mac, a.now)
            && PendingFor(sent.pending, b.ip) == [] && b.ip !in sent.requests
            && sent.framesOut != [] && b.HandsUp(Latest(sent)) == Some(dgram)
  {
    hide PendingFor, PendingForOthers, FramesFor;
    RequestGoesOut(a, b.ip, dgram);
    ReplyComesBack(b, a.mac, a.ip);
    DatagramIsReleased(a.Send(dgram, b.ip), b.ip, b.mac, dgram);
  }

  lemma RequestGoesOut(a: Interface, target: Ip, dgram: Datagram)
    requires target !in a.cache && a.MayRequest(target)
    ensures var asked := a.Send(dgram, target);
            && asked.framesOut != [] && Latest(asked) == a.RequestFrame(target)
            && PendingFor(asked.pending, target) == PendingFor(a.pending, target) + [dgram]
            && asked.mac == a.mac && asked.ip == a.ip && asked.now == a.now
  {
    PendingAppends(a.pending, Waiting(target, dgram), target);
  }

  lemma ReplyComesBack(b: Interface, who: Mac, ip: Ip)
    ensures var request := Frame(ETHERNET_BROADCAST, who, Arp(ArpMessage(true, who, ip, 0, b.ip)));
            var answered := b.Receive(request);
            && answered.framesOut != [] && Latest(answered) == b.ReplyFrame(who, ip)
            && ip in answered.cache && answered.cache[ip] == Mapping(who, b.now)
  {
  }

  lemma DatagramIsReleased(asked: Interface, who: Ip, where: Mac, dgram: Datagram)
    requires |PendingFor(asked.pending, who)| > 0
    requires PendingFor(asked.pending, who)[|PendingFor(asked.pending, who)| - 1] == dgram
    ensures var reply := Frame(asked.mac, where, Arp(ArpMessage(false, where, who, asked.mac, asked.ip)));
            var sent := asked.Receive(reply);
            && who in sent.cache && sent.cache[who] == Mapping(where, asked.now)
            && PendingFor(sent.pending, who) == [] && who !in sent.requests
            && sent.framesOut != [] && Latest(sent) == Frame(where, asked.mac, Ipv4(dgram))
  {
    var out := FramesFor(where, asked.mac, PendingFor(asked.pending, who));
    OthersStay(asked.pending, who, who);
    assert out[|out| - 1] == Frame(where, asked.mac, Ipv4(dgram));
    assert (asked.framesOut + out)[|asked.framesOut| + |out| - 1] == out[|out| - 1];
  }
}
