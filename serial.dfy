/**
 * The 16550 UART driver of kernel/arch/x86_64/serial.c.
 *
 * The static com_ports[4] is the array `ports` of the class `SerialState`;
 * a serial_port_t pointer is an index into it, NULL being `None`. Bytes the
 * driver writes to I/O ports are appended to the log `out`. What the
 * hardware answers (the scratch-register probe, the line status) is a
 * parameter of the method that reads it.
 */
module Serial {
  import opened Wrappers

  const Com1: nat := 0x3F8
  const Com2: nat := 0x2F8
  const Com3: nat := 0x3E8
  const Com4: nat := 0x2E8
  const ComCount: nat := 4
  /** The 16550's base clock divided by 16. */
  const BaseClock: nat := 115200
  const U16: nat := 0x1_0000

  /** Register offsets from a port's base. */
  const DataReg: nat := 0
  const IntEnableReg: nat := 1
  const FifoCtrlReg: nat := 2
  const LineCtrlReg: nat := 3
  const ModemCtrlReg: nat := 4

  const Dlab: byte := 0x80
  /** 8 data bits, no parity, 1 stop bit. */
  const Line8N1: bv8 := 0x03
  /** FIFO on, both FIFOs cleared, 14-byte trigger. */
  const FifoSetup: byte := 0xC7
  /** DTR, RTS and OUT2. */
  const ModemSetup: byte := 0x0B

  const CR: byte := 13
  const LF: byte := 10

  datatype Port = Port(base: nat, baudRate: nat, initialized: bool, lineConfig: bv8)

  /** One byte written to an I/O port. */
  datatype Out = Out(port: nat, value: byte)

  // ---------------------------------------------------------------------
  // COM numbers and port addresses
  // ---------------------------------------------------------------------

  /** serial_get_port_address. */
  function PortAddress(com: int): (r: nat)
    ensures r != 0 <==> 1 <= com <= 4
  {
    match com
    case 1 => Com1
    case 2 => Com2
    case 3 => Com3
    case 4 => Com4
    case _ => 0
  }

  /** serial_get_com_number. */
  function ComNumber(address: nat): (r: nat)
    ensures r <= 4
  {
    if address == Com1 then 1
    else if address == Com2 then 2
    else if address == Com3 then 3
    else if address == Com4 then 4
    else 0
  }

  /**
   * The two tables are inverse on COM1-COM4 and their four base addresses,
   * and every other input is answered with 0.
   */
  lemma ComTables(com: int, address: nat)
    ensures 1 <= com <= 4 ==> ComNumber(PortAddress(com)) == com
    ensures ComNumber(address) != 0 ==> PortAddress(ComNumber(address)) == address
    ensures ComNumber(address) != 0 <==> address in {Com1, Com2, Com3, Com4}
  {
  }

  // ---------------------------------------------------------------------
  // Divisor and line control
  // ---------------------------------------------------------------------

  /** serial_get_divisor: 115200 / baud, stored in a uint16_t. */
  function Divisor(baud: nat): nat
    requires baud != 0
  {
    (BaseClock / baud) % U16
  }

  /**
   * From 2 baud up the quotient fits in 16 bits and is the largest divisor
   * whose rate is at least the one asked for; above 115200 baud it is 0;
   * at 1 baud the 16-bit store cuts 115200 down to 49664.
   */
  lemma DivisorRange(baud: nat)
    requires baud != 0
    ensures baud >= 2 ==> Divisor(baud) * baud <= BaseClock < (Divisor(baud) + 1) * baud
    ensures baud > BaseClock <==> Divisor(baud) == 0
    ensures baud == 1 ==> Divisor(baud) == 49664
  {
    var q := BaseClock / baud;
    if baud >= 2 {
      assert q * 2 <= q * baud;
      assert q < U16;
    }
  }

  /** The data-bits field: 5 to 8 bits are codes 0 to 3. */
  function DataBitsCode(dataBits: int): Option<bv8>
  {
    match dataBits
    case 5 => Some(0x00)
    case 6 => Some(0x01)
    case 7 => Some(0x02)
    case 8 => Some(0x03)
    case _ => None
  }

  function StopBitsCode(stopBits: int): Option<bv8>
  {
    if stopBits == 1 then Some(0x00) else if stopBits == 2 then Some(0x04) else None
  }

  /** None, odd and even parity. */
  function ParityCode(parity: int): Option<bv8>
  {
    match parity
    case 0 => Some(0x00)
    case 1 => Some(0x08)
    case 2 => Some(0x18)
    case _ => None
  }

  /** The line control byte serial_configure computes, or None when it returns false. */
  function LineConfig(dataBits: int, stopBits: int, parity: int): (r: Option<bv8>)
    ensures r.Some? <==> 5 <= dataBits <= 8 && 1 <= stopBits <= 2 && 0 <= parity <= 2
  {
    var cs, st, pa := DataBitsCode(dataBits), StopBitsCode(stopBits), ParityCode(parity);
    if cs.None? || st.None? || pa.None? then None
    else Some(cs.value | st.value | pa.value)
  }

  /** Reads the three settings back out of a line control byte. */
  function DecodeLine(c: bv8): (int, int, int)
  {
    var parity := if c & 0x38 == 0x00 then 0 else if c & 0x38 == 0x08 then 1 else if c & 0x38 == 0x18 then 2 else -1;
    (5 + (c & 0x03) as int, if c & 0x04 == 0 then 1 else 2, parity)
  }

  /** The bytes serial_configure can produce: no break or DLAB bit, and none, odd or even parity. */
  predicate Encodable(c: bv8)
  {
    c & 0xC0 == 0 && (c & 0x38 == 0x00 || c & 0x38 == 0x08 || c & 0x38 == 0x18)
  }

  /** Every accepted setting is encoded so that it reads back unchanged. */
  lemma LineConfigDecodes(dataBits: int, stopBits: int, parity: int)
    requires LineConfig(dataBits, stopBits, parity).Some?
    ensures Encodable(LineConfig(dataBits, stopBits, parity).value)
    ensures DecodeLine(LineConfig(dataBits, stopBits, parity).value) == (dataBits, stopBits, parity)
  {
    var c := LineConfig(dataBits, stopBits, parity).value;
    assert c & 0x03 == DataBitsCode(dataBits).value;
    assert c & 0x04 == StopBitsCode(stopBits).value;
    assert c & 0x38 == ParityCode(parity).value;
  }

  /** Every encodable byte is the encoding of the settings it reads as. */
  lemma DecodeLineEncodes(c: bv8)
    requires Encodable(c)
    ensures var (d, s, p) := DecodeLine(c); LineConfig(d, s, p) == Some(c)
  {
    var (d, s, p) := DecodeLine(c);
    assert DataBitsCode(d) == Some(c & 0x03);
    assert StopBitsCode(s) == Some(c & 0x04);
    assert ParityCode(p) == Some(c & 0x38);
  }

  /** serial_init's fixed 0x03 is what serial_configure makes of 8 data bits, 1 stop bit, no parity. */
  lemma InitLineIs8N1()
    ensures LineConfig(8, 1, 0) == Some(Line8N1)
  {
  }

  /** Interrupts off, DLAB on, the divisor low then high byte. */
  function DivisorWrites(base: nat, divisor: nat): seq<Out>
  {
    [Out(base + IntEnableReg, 0), Out(base + LineCtrlReg, Dlab),
     Out(base + DataReg, divisor % 256), Out(base + IntEnableReg, (divisor / 256) % 256)]
  }

  /** The port writes of a first serial_init. */
  function InitWrites(base: nat, divisor: nat): seq<Out>
  {
    DivisorWrites(base, divisor)
      + [Out(base + LineCtrlReg, Line8N1 as byte), Out(base + FifoCtrlReg, FifoSetup), Out(base + ModemCtrlReg, ModemSetup)]
  }

  /** The port writes of a successful serial_configure. */
  function ConfigWrites(base: nat, divisor: nat, line: bv8): seq<Out>
  {
    DivisorWrites(base, divisor) + [Out(base + LineCtrlReg, line as byte)]
  }

  // ---------------------------------------------------------------------
  // Newline translation
  // ---------------------------------------------------------------------

  /** The bytes serial_write_str sends for a string: a CR goes out before every LF. */
  function Expand(s: seq<byte>): seq<byte>
  {
    if s == [] then []
    else if s[0] == LF then [CR, LF] + Expand(s[1..])
    else [s[0]] + Expand(s[1..])
  }

  /** Drops the CR in front of each LF. */
  function Unexpand(r: seq<byte>): seq<byte>
  {
    if r == [] then []
    else if |r| >= 2 && r[0] == CR && r[1] == LF then [LF] + Unexpand(r[2..])
    else [r[0]] + Unexpand(r[1..])
  }

  function Count(s: seq<byte>, b: byte): nat
  {
    if s == [] then 0 else (if s[0] == b then 1 else 0) + Count(s[1..], b)
  }

  lemma {:induction false} ExpandAppend(x: seq<byte>, y: seq<byte>)
    ensures Expand(x + y) == Expand(x) + Expand(y)
  {
    if x == [] {
      assert x + y == y;
    } else {
      assert (x + y)[1..] == x[1..] + y;
      ExpandAppend(x[1..], y);
    }
  }

  /** The translation never starts with a bare LF. */
  lemma ExpandHead(s: seq<byte>)
    ensures Expand(s) == [] || Expand(s)[0] != LF
  {
  }

  /** Taking the CRs out again gives the string back. */
  lemma {:induction false} UnexpandExpand(s: seq<byte>)
    ensures Unexpand(Expand(s)) == s
  {
    if s != [] {
      var r := Expand(s);
      UnexpandExpand(s[1..]);
      ExpandHead(s[1..]);
      if s[0] == LF {
        assert r[2..] == Expand(s[1..]);
      } else {
        assert r[1..] == Expand(s[1..]);
      }
    }
  }

  /** One extra byte per LF, and every LF sent has a CR right before it. */
  lemma {:induction false} ExpandShape(s: seq<byte>)
    ensures |Expand(s)| == |s| + Count(s, LF)
    ensures forall k :: 0 <= k < |Expand(s)| && Expand(s)[k] == LF ==> k > 0 && Expand(s)[k - 1] == CR
  {
    if s != [] {
      ExpandShape(s[1..]);
      var t := Expand(s[1..]);
      ExpandHead(s[1..]);
      if s[0] == LF {
        assert Expand(s) == [CR, LF] + t;
      } else {
        assert Expand(s) == [s[0]] + t;
      }
    }
  }

  /** A string that already ends in CR LF, as serial_init_all's banner does, goes out with two CRs. */
  lemma CrLfDoubled()
    ensures Expand([CR, LF]) == [CR, CR, LF]
  {
    assert [CR, LF][1..] == [LF];
    assert Expand([LF]) == [CR, LF] + Expand([]);
  }

  /** The data register writes for a run of bytes. */
  function Sent(base: nat, bytes: seq<byte>): (r: seq<Out>)
    ensures |r| == |bytes|
  {
    seq(|bytes|, k requires 0 <= k < |bytes| => Out(base + DataReg, bytes[k]))
  }

  lemma SentAppend(base: nat, x: seq<byte>, y: seq<byte>)
    ensures Sent(base, x + y) == Sent(base, x) + Sent(base, y)
  {
    assert forall k :: 0 <= k < |x| + |y| ==> Sent(base, x + y)[k] == (Sent(base, x) + Sent(base, y))[k];
  }

  // ---------------------------------------------------------------------
  // The ports
  // ---------------------------------------------------------------------

  class SerialState {
    /** com_ports[4]. */
    var ports: array<Port>
    /** What the driver has written to I/O ports, in order. */
    var out: seq<Out>

    /** Port i is COM(i+1), at its fixed base address. */
    ghost predicate Valid()
      reads this, ports
    {
      ports.Length == ComCount && forall i :: 0 <= i < ComCount ==> ports[i].base == PortAddress(i + 1)
    }

    constructor ()
      ensures Valid() && fresh(ports) && out == []
      ensures forall i :: 0 <= i < ComCount ==> ports[i] == Port(PortAddress(i + 1), 0, false, 0)
    {
      ports := new Port[ComCount](i => Port(PortAddress(i + 1), 0, false, 0));
      out := [];
    }

    /** serial_is_initialized: a non-NULL pointer to an initialised port. */
    function IsInitialized(p: Option<nat>): (r: bool)
      requires p.Some? ==> p.value < ports.Length
      reads this, ports
      ensures r ==> p.Some?
    {
      p.Some? && ports[p.value].initialized
    }

    /** The lookup loop of serial_init: the entry whose base is `port`. */
    method Find(port: nat) returns (i: Option<nat>)
      requires Valid()
      ensures i.Some? <==> ComNumber(port) != 0
      ensures i.Some? ==> i.value == ComNumber(port) - 1
    {
      var k := 0;
      while k < ComCount
        invariant 0 <= k <= ComCount
        invariant forall j :: 0 <= j < k ==> ports[j].base != port
      {
        if ports[k].base == port {
          return Some(k);
        }
        k := k + 1;
      }
      assert ports[0].base != port && ports[1].base != port && ports[2].base != port && ports[3].base != port;
      return None;
    }

    /**
     * serial_init: only the four COM addresses, and only when the probe
     * finds the UART (`present`), give a port. A port already initialised
     * comes back untouched; otherwise it is programmed and marked
     * initialised at the baud rate with line control 0x03.
     */
    method Init(port: nat, baud: nat, present: bool) returns (r: Option<nat>)
      requires Valid() && baud != 0
      modifies ports, this`out
      ensures Valid()
      ensures r.Some? <==> ComNumber(port) != 0 && present
      ensures r.Some? ==> r.value == ComNumber(port) - 1 && ports[r.value].initialized
      ensures r.None? || old(ports[r.value].initialized) ==> ports[..] == old(ports[..]) && out == old(out)
      ensures r.Some? && !old(ports[r.value].initialized) ==>
        ports[..] == old(ports[..])[r.value := Port(port, baud, true, Line8N1)] && out == old(out) + InitWrites(port, Divisor(baud))
    {
      var i := Find(port);
      if i.None? || !present {
        return None;
      }
      if ports[i.value].initialized {
        return i;
      }
      var divisor := (BaseClock / baud) % U16;
      out := out + DivisorWrites(port, divisor);
      out := out + [Out(port + LineCtrlReg, Line8N1 as byte), Out(port + FifoCtrlReg, FifoSetup), Out(port + ModemCtrlReg, ModemSetup)];
      ports[i.value] := ports[i.value].(initialized := true, baudRate := baud, lineConfig := Line8N1);
      return i;
    }

    /**
     * serial_configure: false, with nothing written, for a port that is
     * not initialised or for settings out of range; otherwise the divisor
     * and line control are written and only baud_rate and line_config change.
     */
    method Configure(p: Option<nat>, baud: nat, dataBits: int, stopBits: int, parity: int) returns (ok: bool)
      requires Valid() && (p.Some? ==> p.value < ComCount) && baud != 0
      modifies ports, this`out
      ensures Valid()
      ensures ok <==> IsInitialized(p) && LineConfig(dataBits, stopBits, parity).Some?
      ensures !ok ==> ports[..] == old(ports[..]) && out == old(out)
      ensures ok ==> var c := LineConfig(dataBits, stopBits, parity).value;
        && ports[..] == old(ports[..])[p.value := old(ports[p.value]).(baudRate := baud, lineConfig := c)]
        && out == old(out) + ConfigWrites(ports[p.value].base, Divisor(baud), c)
    {
      if !IsInitialized(p) {
        return false;
      }
      var divisor := (BaseClock / baud) % U16;
      var line := LineConfig(dataBits, stopBits, parity);
      if line.None? {
        return false;
      }
      var base := ports[p.value].base;
      out := out + DivisorWrites(base, divisor) + [Out(base + LineCtrlReg, line.value as byte)];
      ports[p.value] := ports[p.value].(baudRate := baud, lineConfig := line.value);
      return true;
    }

    /** serial_write_char: the byte goes to the data register of an initialised port. */
    method WriteChar(p: Option<nat>, c: byte) returns (ok: bool)
      requires p.Some? ==> p.value < ports.Length
      modifies this`out
      ensures ok == IsInitialized(p)
      ensures out == old(out) + (if ok then Sent(ports[p.value].base, [c]) else [])
    {
      if !IsInitialized(p) {
        return false;
      }
      out := out + [Out(ports[p.value].base + DataReg, c)];
      return true;
    }

    /**
     * serial_write_str on the bytes before the terminating NUL: nothing
     * for a port that is not initialised, else the string with a CR
     * before each LF.
     */
    method WriteStr(p: Option<nat>, s: seq<byte>) returns (ok: bool)
      requires p.Some? ==> p.value < ports.Length
      modifies this`out
      ensures ok == IsInitialized(p)
      ensures out == old(out) + (if ok then Sent(ports[p.value].base, Expand(s)) else [])
    {
      if !IsInitialized(p) {
        return false;
      }
      var base := ports[p.value].base;
      var i := 0;
      while i < |s|
        invariant 0 <= i <= |s|
        invariant out == old(out) + Sent(base, Expand(s[..i]))
      {
        WriteTranslated(p, s[i]);
        assert s[..i + 1] == s[..i] + [s[i]];
        ExpandAppend(s[..i], [s[i]]);
        SentAppend(base, Expand(s[..i]), Expand([s[i]]));
        i := i + 1;
      }
      assert s[..|s|] == s;
      return true;
    }

    /** One turn of serial_write_str's loop: a CR first if the byte is LF, then the byte. */
    method WriteTranslated(p: Option<nat>, c: byte)
      requires p.Some? ==> p.value < ports.Length
      requires IsInitialized(p)
      modifies this`out
      ensures out == old(out) + Sent(ports[p.value].base, Expand([c]))
    {
      assert [c][1..] == [];
      if c == LF {
        var _ := WriteChar(p, CR);
        var _ := WriteChar(p, c);
        SentAppend(ports[p.value].base, [CR], [LF]);
      } else {
        var _ := WriteChar(p, c);
      }
    }

    /**
     * serial_read_char: -1 for a port that is not initialised or when the
     * line status shows no data (`ready`), else the received byte.
     */
    method ReadChar(p: Option<nat>, ready: bool, data: byte) returns (r: int)
      requires p.Some? ==> p.value < ports.Length
      ensures r == -1 <==> !IsInitialized(p) || !ready
      ensures r != -1 ==> r == data
    {
      if !IsInitialized(p) {
        return -1;
      }
      if !ready {
        return -1;
      }
      return data;
    }
  }
}
