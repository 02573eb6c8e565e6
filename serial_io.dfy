/** The serial transport of the driver: the requested rate and flow-control
    mode taken from the settings, the serial line it drives, the stepwise
    baud-rate procedure and the choice of flow-control flags. */
module SerialIo {
  import opened Baudrates
  import opened SerialPort
  import opened Negotiation

  /** The input, output, control and local mode words of a POSIX `termios`
      structure (`tcflag_t` is 32 bits wide on Linux). */
  datatype Termios = Termios(iflag: bv32, oflag: bv32, cflag: bv32, lflag: bv32)

  /** Linux values of the flags the flow-control choice touches. */
  const IXON: bv32 := 0x400
  const IXOFF: bv32 := 0x1000
  const CRTSCTS: bv32 := 0x8000_0000

  /** The flow-control part of the line configuration: hardware flow
      control on for the mode "RTS|CTS" and off for any other, software flow
      control off in both cases, every other bit left as it was. */
  function SelectFlowControl(tio: Termios, flowcontrol: string): (r: Termios)
    ensures (r.cflag & CRTSCTS != 0) <==> flowcontrol == "RTS|CTS"
    ensures r.iflag & IXON == 0 && r.iflag & IXOFF == 0
    ensures r.iflag | IXON | IXOFF == tio.iflag | IXON | IXOFF
    ensures r.cflag | CRTSCTS == tio.cflag | CRTSCTS
    ensures r.oflag == tio.oflag && r.lflag == tio.lflag
  {
    if flowcontrol == "RTS|CTS" then
      tio.(iflag := tio.iflag & !(IXOFF | IXON), cflag := tio.cflag | CRTSCTS)
    else
      tio.(iflag := tio.iflag & !(IXOFF | IXON), cflag := tio.cflag & !CRTSCTS)
  }

  /** Selecting the same mode twice changes nothing more. */
  lemma SelectFlowControlIdempotent(tio: Termios, flowcontrol: string)
    ensures SelectFlowControl(SelectFlowControl(tio, flowcontrol), flowcontrol)
      == SelectFlowControl(tio, flowcontrol)
  {
  }

  class SerialIo {
    /** The flow-control mode and the requested baud rate from the settings. */
    const flowcontrol: string
    const baudrate: uint32
    /** The serial line. */
    const stream: Port

    constructor (flowcontrol: string, baudrate: uint32, stream: Port)
      ensures this.flowcontrol == flowcontrol && this.baudrate == baudrate && this.stream == stream
    {
      this.flowcontrol := flowcontrol;
      this.baudrate := baudrate;
      this.stream := stream;
    }

    /** Moves the line towards the requested rate through the table of rates:
        reads the rate in effect, then walks the table. Returns false as soon
        as a read or a write fails, and true when the requested rate is
        reached or the table runs out. */
    method SetBaudrate() returns (ok: bool)
      modifies stream
      ensures var r := Negotiate(stream.device, baudrate, old(stream.rate), old(stream.ops));
        ok == r.ok && stream.rate == r.rate && stream.ops == r.ops &&
        stream.calls == old(stream.calls) + r.calls
    {
      var current, got := stream.GetRate();
      if !got {
        return false;
      }
      TableWellFormed();
      ok := WalkTable(Table, current);
    }

    /** The loop of `SetBaudrate` over `table`, from the rate `start` just
        read: for each entry in order, stop once the requested rate is
        reached, skip an entry the line is already at or above while the
        requested rate is above it, and otherwise write the entry and read
        back the rate adopted. The index is an 8-bit counter. */
    method WalkTable(table: seq<uint32>, start: uint32) returns (ok: bool)
      requires |table| < 0x100 && start == stream.rate
      modifies stream
      ensures var r := Walk(table, stream.device, baudrate, 0, old(stream.rate), old(stream.ops));
        ok == r.ok && stream.rate == r.rate && stream.ops == r.ops &&
        stream.calls == old(stream.calls) + r.calls
    {
      ghost var total := Walk(table, stream.device, baudrate, 0, start, stream.ops);
      var current := start;
      var i: uint8 := 0;
      while (i as int) < |table|
        invariant i as int <= |table|
        invariant current == stream.rate
        invariant var rest := Walk(table, stream.device, baudrate, i as nat, current, stream.ops);
          rest.ok == total.ok && rest.rate == total.rate && rest.ops == total.ops &&
          stream.calls + rest.calls == old(stream.calls) + total.calls
      {
        if current == baudrate {
          break;
        }
        if current >= table[i] && baudrate > table[i] {
          i := i + 1;
          continue;
        }
        ghost var before := stream.calls;
        ghost var rest := Walk(table, stream.device, baudrate, i as nat + 1, stream.device.adopt(current, table[i]), stream.ops + 2);
        var written := stream.SetRate(table[i]);
        if !written {
          return false;
        }
        var got;
        current, got := stream.GetRate();
        if !got {
          return false;
        }
        assert stream.calls + rest.calls == before + ([SetCall(stream.calls[|before|].from, table[i])] + rest.calls);
        i := i + 1;
      }
      return true;
    }
  }
}
