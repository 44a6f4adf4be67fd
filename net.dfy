/**
 * A UDP association seen from one end: the datagrams (or read errors) it
 * will deliver, in order, and the datagrams written to it. Once the
 * scripted results are used up every read fails with a timeout, as a read
 * past the association's deadline does.
 */
module Net {
  import opened Common

  /** Transport failures: the deadline passed, or anything else the socket reports. */
  datatype NetError = Timeout | ConnectionError(code: int)

  /** The result of one `Read` on the socket. */
  datatype ReadResult = Datagram(payload: seq<byte>) | Failure(err: NetError)

  /** A datagram read into a buffer of `size` bytes; the excess is lost, as on Linux. */
  function Truncated(d: seq<byte>, size: nat): (r: seq<byte>)
    ensures |r| == Min(|d|, size) && HasPrefix(d, r)
  {
    d[..Min(|d|, size)]
  }

  class Conn {
    /** What the next reads return, in order. */
    var incoming: seq<ReadResult>
    /** Every datagram written so far, in order. */
    var sent: seq<seq<byte>>
    /** When set, every write fails with this error. */
    const writeError: Option<NetError>

    constructor (incoming: seq<ReadResult>, writeError: Option<NetError>)
      ensures this.incoming == incoming && sent == [] && this.writeError == writeError
    {
      this.incoming := incoming;
      this.writeError := writeError;
      sent := [];
    }

    /** `conn.Read(buf)` with `len(buf) == size`: one datagram, or an error. */
    method Read(size: nat) returns (data: seq<byte>, err: Option<NetError>)
      modifies this
      ensures sent == old(sent)
      ensures old(incoming) == [] ==> incoming == [] && data == [] && err == Some(Timeout)
      ensures old(incoming) != [] ==> incoming == old(incoming)[1..]
      ensures old(incoming) != [] && old(incoming)[0].Datagram? ==>
                data == Truncated(old(incoming)[0].payload, size) && err == None
      ensures old(incoming) != [] && old(incoming)[0].Failure? ==>
                data == [] && err == Some(old(incoming)[0].err)
    {
      if incoming == [] {
        data, err := [], Some(Timeout);
      } else {
        match incoming[0] {
          case Datagram(d) => data, err := Truncated(d, size), None;
          case Failure(e) => data, err := [], Some(e);
        }
        incoming := incoming[1..];
      }
    }

    /** `conn.Write(p)`. */
    method Write(p: seq<byte>) returns (err: Option<NetError>)
      modifies this
      ensures incoming == old(incoming) && err == writeError
      ensures sent == old(sent) + (if writeError.None? then [p] else [])
    {
      err := writeError;
      if err.None? {
        sent := sent + [p];
      }
    }
  }
}
