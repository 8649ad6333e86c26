/** TCP segments as the sender and the receiver exchange them. */
module TcpSegments {
  import opened Bytes
  import opened WrappingIntegers

  datatype Segment = Segment(seqno: uint32, syn: bool, fin: bool, rst: bool, ack: bool, ackno: uint32, win: nat,
                             payload: seq<byte>) {
    /** `length_in_sequence_space`: SYN and FIN count for one position each. */
    function Length(): nat {
      |payload| + (if syn then 1 else 0) + (if fin then 1 else 0)
    }

    /** Carries nothing that occupies sequence space. */
    predicate Bare() {
      !syn && !fin && payload == []
    }
  }

  const BLANK := Segment(0, false, false, false, false, 0, 0, [])
}
