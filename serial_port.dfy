/** The serial device as the baud-rate procedure sees it: a current rate that
    can be read and written, where either operation may fail, and where a
    write may leave the line at a rate other than the one requested. */
module SerialPort {
  import opened Baudrates

  /** How a particular device behaves. Operations on the port are numbered
      from 0; `fails(n)` says whether operation `n` (a read or a write of the
      baud rate) raises an error, and `adopt(from, requested)` is the rate the
      line is at after a successful write of `requested` when it was at `from`. */
  datatype Device = Device(fails: nat -> bool, adopt: (uint32, uint32) -> uint32)

  /** A device on which no operation fails and every write takes effect exactly. */
  ghost predicate Ideal(d: Device)
  {
    (forall n :: !d.fails(n)) && (forall from, requested :: d.adopt(from, requested) == requested)
  }

  /** One write of the baud rate: the rate in effect before it and the rate requested. */
  datatype SetCall = SetCall(from: uint32, to: uint32)

  /** The serial line. `rate` is the baud rate in effect, `ops` the number of
      operations performed so far, and `calls` the history of rate writes. */
  class Port {
    const device: Device
    var rate: uint32
    var ops: nat
    ghost var calls: seq<SetCall>

    constructor (device: Device, rate: uint32)
      ensures this.device == device && this.rate == rate
      ensures ops == 0 && calls == []
    {
      this.device := device;
      this.rate := rate;
      ops := 0;
      calls := [];
    }

    /** Reads the baud rate in effect; `ok` is false when the read fails. */
    method GetRate() returns (r: uint32, ok: bool)
      modifies this`ops
      ensures ops == old(ops) + 1
      ensures ok == !device.fails(old(ops))
      ensures ok ==> r == rate
    {
      ok := !device.fails(ops);
      r := rate;
      ops := ops + 1;
    }

    /** Writes the baud rate; `ok` is false when the write fails, in which case
        the line stays at its old rate. The attempt is recorded either way. */
    method SetRate(requested: uint32) returns (ok: bool)
      modifies this`rate, this`ops, this`calls
      ensures ops == old(ops) + 1
      ensures ok == !device.fails(old(ops))
      ensures rate == if ok then device.adopt(old(rate), requested) else old(rate)
      ensures calls == old(calls) + [SetCall(old(rate), requested)]
    {
      ok := !device.fails(ops);
      calls := calls + [SetCall(rate, requested)];
      if ok {
        rate := device.adopt(rate, requested);
      }
      ops := ops + 1;
    }
  }
}
