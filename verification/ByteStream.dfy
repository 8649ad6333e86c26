/** The flow-controlled in-memory byte stream (libsponge/byte_stream). */
module ByteStreams {
  import opened Bytes

  /** A byte stream as its history: everything the writer got accepted, and how much of it the
      reader has taken. The bytes in between are the ones a `ByteStream` object must store. */
  datatype Stream = Stream(written: seq<byte>, bytesRead: nat, capacity: nat, inputEnded: bool, error: bool) {
    predicate Valid() {
      bytesRead <= |written| <= bytesRead + capacity
    }

    function Buffer(): seq<byte>
      requires Valid()
    {
      written[bytesRead..]
    }

    function Space(): nat
      requires Valid()
    {
      capacity - |Buffer()|
    }

    predicate Eof()
      requires Valid()
    {
      inputEnded && Buffer() == []
    }

    /** As much of `data` as fits is accepted. */
    function Write(data: seq<byte>): (s: Stream)
      requires Valid()
      ensures s.Valid()
    {
      this.(written := written + data[..Min(|data|, Space())])
    }

    function Pop(len: nat): (s: Stream)
      requires Valid()
      ensures s.Valid()
    {
      this.(bytesRead := bytesRead + Min(len, |Buffer()|))
    }

    function Peek(len: nat): seq<byte>
      requires Valid()
    {
      Buffer()[..Min(len, |Buffer()|)]
    }

    function EndInput(): (s: Stream) {
      this.(inputEnded := true)
    }

    function SetError(): (s: Stream) {
      this.(error := true)
    }
  }

  function NewStream(capacity: nat): (s: Stream)
    ensures s.Valid()
  {
    Stream([], 0, capacity, false, false)
  }

  /** What a writer and a reader can do to a stream. */
  datatype StreamOp = WriteOp(data: seq<byte>) | ReadOp(len: nat) | EndOp

  function Apply(s: Stream, op: StreamOp): (s': Stream)
    requires s.Valid()
    ensures s'.Valid()
  {
    match op
    case WriteOp(data) => s.Write(data)
    case ReadOp(len) => s.Pop(len)
    case EndOp => s.EndInput()
  }

  function ApplyAll(s: Stream, ops: seq<StreamOp>): (s': Stream)
    requires s.Valid()
    ensures s'.Valid()
    decreases |ops|
  {
    if ops == [] then s else ApplyAll(Apply(s, ops[0]), ops[1..])
  }

  /** Everything the reader obtained during a run, in order. */
  function Obtained(s: Stream, ops: seq<StreamOp>): seq<byte>
    requires s.Valid()
    decreases |ops|
  {
    if ops == [] then []
    else (if ops[0].ReadOp? then s.Peek(ops[0].len) else []) + Obtained(Apply(s, ops[0]), ops[1..])
  }

  /** Conservation in one step, for an operation that hands `got` to the reader. */
  lemma StepConservation(s: Stream, op: StreamOp, got: seq<byte>)
    requires s.Valid()
    requires got == if op.ReadOp? then s.Peek(op.len) else []
    ensures s.written <= Apply(s, op).written
    ensures got + Apply(s, op).Buffer() == s.Buffer() + Apply(s, op).written[|s.written|..]
  {
  }

  /** A write takes a prefix of the data and leaves some only when the stream is full; a read yields the
      oldest bytes and fewer than asked for only when it empties the stream. */
  lemma TransfersAreMaximal(s: Stream, data: seq<byte>, len: nat)
    requires s.Valid()
    ensures var t := s.Write(data);
            && s.written <= t.written <= s.written + data
            && (t.written == s.written + data || |t.Buffer()| == s.capacity)
    ensures var got, t := s.Peek(len), s.Pop(len);
            && got + t.Buffer() == s.Buffer()
            && |got| <= len && (|got| == len || t.Buffer() == [])
  {
    assert data[..Min(|data|, s.Space())] <= data;
    assert |data| <= s.Space() ==> data[..Min(|data|, s.Space())] == data;
  }

  lemma Regroup(got: seq<byte>, rest: seq<byte>, kept: seq<byte>, first: seq<byte>, mid: seq<byte>, last: seq<byte>, b: seq<byte>)
    requires got + b == first + mid
    requires rest + kept == b + last
    ensures got + rest + kept == first + (mid + last)
  {
    assert got + rest + kept == got + (rest + kept) == (got + b) + last == first + (mid + last);
  }

  /** Conservation over every run: what the reader obtained followed by what is still buffered is
      exactly what was buffered at first followed by what was accepted since. */
  lemma {:induction false} StreamConservation(s: Stream, ops: seq<StreamOp>)
    requires s.Valid()
    ensures var t := ApplyAll(s, ops);
            && s.written <= t.written
            && Obtained(s, ops) + t.Buffer() == s.Buffer() + t.written[|s.written|..]
    decreases |ops|
  {
    if ops != [] {
      var u, t := Apply(s, ops[0]), ApplyAll(s, ops);
      var got := if ops[0].ReadOp? then s.Peek(ops[0].len) else [];
      StepConservation(s, ops[0], got);
      StreamConservation(u, ops[1..]);
      Regroup(got, Obtained(u, ops[1..]), t.Buffer(), s.Buffer(), u.written[|s.written|..], t.written[|u.written|..], u.Buffer());
      assert u.written[|s.written|..] + t.written[|u.written|..] == t.written[|s.written|..];
    }
  }

  /** The object: a queue of unread bytes and two counters. `written` records the history that the
      queue no longer holds. */
  class ByteStream {
    var buffer: seq<byte>
    var bytesRead: nat
    var bytesWritten: nat
    const capacity: nat
    var inputEnded: bool
    var error: bool
    ghost var written: seq<byte>

    ghost predicate Valid()
      reads this
    {
      && View().Valid()
      && bytesWritten == |written|
      && buffer == written[bytesRead..]
    }

    ghost function View(): Stream
      reads this
    {
      Stream(written, bytesRead, capacity, inputEnded, error)
    }

    constructor (capacity: nat)
      ensures Valid()
      ensures View() == NewStream(capacity)
    {
      this.capacity := capacity;
      buffer, bytesRead, bytesWritten, written := [], 0, 0, [];
      inputEnded, error := false, false;
    }

    method Write(data: seq<byte>) returns (n: nat)
      requires Valid()
      modifies this
      ensures Valid()
      ensures View() == old(View()).Write(data)
      ensures n == Min(|data|, old(View()).Space())
    {
      n := 0;
      ghost var before := View();
      while n < |data|
        invariant n <= Min(|data|, before.Space())
        invariant View() == before.(written := before.written + data[..n])
        invariant buffer == before.Buffer() + data[..n]
        invariant bytesWritten == |before.written|
      {
        if |buffer| >= capacity {
          break;
        }
        buffer := buffer + [data[n]];
        written := written + [data[n]];
        n := n + 1;
      }
      bytesWritten := bytesWritten + n;
    }

    method PeekOutput(len: nat) returns (peeked: seq<byte>)
      requires Valid()
      ensures peeked == View().Peek(len)
    {
      var tmp := buffer;
      peeked := [];
      var count := 0;
      while count < len && tmp != []
        invariant count <= Min(len, |buffer|)
        invariant peeked == buffer[..count] && tmp == buffer[count..]
        decreases |tmp|
      {
        peeked := peeked + [tmp[0]];
        tmp := tmp[1..];
        count := count + 1;
      }
    }

    method PopOutput(len: nat)
      requires Valid()
      modifies this
      ensures Valid()
      ensures View() == old(View()).Pop(len)
    {
      var count := 0;
      var popped := Min(len, |buffer|);
      ghost var before := buffer;
      while count < popped && buffer != []
        invariant count <= popped
        invariant buffer == before[count..]
        invariant View() == old(View()) && bytesWritten == |written|
      {
        buffer := buffer[1..];
        count := count + 1;
      }
      bytesRead := bytesRead + popped;
    }

    method Read(len: nat) returns (data: seq<byte>)
      requires Valid()
      modifies this
      ensures Valid()
      ensures data == old(View()).Peek(len)
      ensures View() == old(View()).Pop(len)
    {
      data := PeekOutput(len);
      PopOutput(|data|);
    }

    method EndInput()
      requires Valid()
      modifies this
      ensures Valid()
      ensures View() == old(View()).EndInput()
    {
      inputEnded := true;
    }

    method SetError()
      requires Valid()
      modifies this
      ensures Valid()
      ensures View() == old(View()).SetError()
    {
      error := true;
    }
  }
}
