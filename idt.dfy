/**
 * The Interrupt Descriptor Table of kernel/arch/x86_64/idt.c.
 *
 * A 64-bit gate (section 6.14.1 of the Intel SDM, Volume 3A) holds the
 * handler's offset split in three parts, the code segment selector, a
 * 3-bit interrupt stack table index, the type and attribute byte and a
 * reserved doubleword. The 256 gates, the registered handlers and the
 * IDT pointer are the fields of the class `IdtState`; a handler is named
 * by its address, NULL being `None`. The addresses of the 48 assembly
 * stubs (isr0-isr31, irq0-irq15) are a parameter of `Init`.
 */
module Idt {
  import opened Wrappers

  const Vectors: nat := 256
  const Stubs: nat := 48
  const KernelCode: bv16 := 0x08
  /** Present, DPL 0, 64-bit interrupt gate. */
  const InterruptGate: bv8 := 0x8E
  /** sizeof(struct idt_entry), packed. */
  const GateSize: nat := 2 + 2 + 1 + 1 + 2 + 4 + 4
  /** idt_pointer.limit: the table's size in bytes, minus one. */
  const TableLimit: bv16 := 0x0FFF

  /** The limit covers exactly the 256 gates. */
  lemma TableLimitCovers()
    ensures TableLimit as int + 1 == GateSize * Vectors
  {
  }

  datatype Gate = Gate(baseLow: bv16, selector: bv16, ist: bv8, flags: bv8, baseMid: bv16, baseHigh: bv32, reserved: bv32)

  /** The gate idt_set_gate stores. */
  function GateFor(base: bv64, selector: bv16, ist: bv8, flags: bv8): Gate
  {
    Gate((base & 0xFFFF) as bv16, selector, ist & 0x7, flags,
         ((base >> 16) & 0xFFFF) as bv16, ((base >> 32) & 0xFFFF_FFFF) as bv32, 0)
  }

  /** The handler's offset, put back together from its three parts. */
  function OffsetOf(g: Gate): bv64
  {
    (g.baseLow as bv64) | ((g.baseMid as bv64) << 16) | ((g.baseHigh as bv64) << 32)
  }

  /**
   * The three parts of the offset give the address back; the selector and
   * flags are kept as given, the IST index keeps its low three bits, and
   * the reserved doubleword is 0.
   */
  lemma GateFields(base: bv64, selector: bv16, ist: bv8, flags: bv8)
    ensures var g := GateFor(base, selector, ist, flags);
      && OffsetOf(g) == base
      && g.selector == selector && g.flags == flags
      && g.ist < 8 && (ist < 8 ==> g.ist == ist)
      && g.reserved == 0
  {
  }

  /** The gate idt_init leaves on vectors without a stub: every field 0. */
  const ZeroGate: Gate := Gate(0, 0, 0, 0, 0, 0, 0)

  /** The table after idt_init, for the stubs' addresses. */
  function InitialGates(stubs: seq<bv64>): (r: seq<Gate>)
    requires |stubs| == Stubs
    ensures |r| == Vectors
  {
    seq(Vectors, i requires 0 <= i < Vectors =>
      if i < Stubs then GateFor(stubs[i], KernelCode, 0, InterruptGate) else GateFor(0, 0, 0, 0))
  }

  /**
   * After idt_init the 32 exception vectors and the 16 IRQ vectors go to
   * their stubs through the kernel code segment as interrupt gates; every
   * other vector is an all-zero (not present) gate.
   */
  lemma InitialLayout(stubs: seq<bv64>, v: nat)
    requires |stubs| == Stubs && v < Vectors
    ensures var g := InitialGates(stubs)[v];
      && (v < Stubs ==> OffsetOf(g) == stubs[v] && g.selector == KernelCode && g.flags == InterruptGate && g.ist == 0)
      && (v >= Stubs ==> g == ZeroGate)
  {
    if v < Stubs {
      GateFields(stubs[v], KernelCode, 0, InterruptGate);
    }
  }

  // ---------------------------------------------------------------------
  // Dispatch
  // ---------------------------------------------------------------------

  /** What handle_interrupt does: call the handler, panic, or log. */
  datatype Action =
    | Call(handler: nat)
    | Panic(name: string, interrupt: nat, errorCode: nat, rip: nat)
    | Log(interrupt: nat)

  /** exception_messages[]. */
  function ExceptionName(n: nat): string
    requires n < 32
  {
    match n
    case 0 => "Division By Zero"
    case 1 => "Debug"
    case 2 => "Non Maskable Interrupt"
    case 3 => "Breakpoint"
    case 4 => "Into Detected Overflow"
    case 5 => "Out of Bounds"
    case 6 => "Invalid Opcode"
    case 7 => "No Coprocessor"
    case 8 => "Double Fault"
    case 9 => "Coprocessor Segment Overrun"
    case 10 => "Bad TSS"
    case 11 => "Segment Not Present"
    case 12 => "Stack Fault"
    case 13 => "General Protection Fault"
    case 14 => "Page Fault"
    case 15 => "Unknown Interrupt"
    case 16 => "Coprocessor Fault"
    case 17 => "Alignment Check"
    case 18 => "Machine Check"
    case 19 => "SIMD Floating-Point Exception"
    case 20 => "Virtualization Exception"
    case 21 => "Control Protection Exception"
    case 22 => "Reserved"
    case 23 => "Hypervisor Injection Exception"
    case 24 => "VMM Communication Exception"
    case 25 => "Security Exception"
    case _ => "Reserved"
  }

  /** handle_interrupt's decision for a vector, given the handler table. */
  function Dispatch(handlers: seq<Option<nat>>, interrupt: nat, errorCode: nat, rip: nat): (r: Action)
    requires interrupt < |handlers|
    ensures r.Call? <==> handlers[interrupt].Some?
    ensures r.Panic? <==> handlers[interrupt].None? && interrupt < 32
    ensures r.Log? <==> handlers[interrupt].None? && interrupt >= 32
  {
    if handlers[interrupt].Some? then Call(handlers[interrupt].value)
    else if interrupt < 32 then Panic(ExceptionName(interrupt), interrupt, errorCode, rip)
    else Log(interrupt)
  }

  /**
   * Registering a handler makes its vector call it, and leaves the
   * decision for every other vector as it was.
   */
  lemma RegisterThenDispatch(handlers: seq<Option<nat>>, num: nat, h: nat, v: nat, errorCode: nat, rip: nat)
    requires num < |handlers| && v < |handlers|
    ensures Dispatch(handlers[num := Some(h)], num, errorCode, rip) == Call(h)
    ensures v != num ==> Dispatch(handlers[num := Some(h)], v, errorCode, rip) == Dispatch(handlers, v, errorCode, rip)
  {
  }

  /** With no handler registered, the exceptions panic with their names and the IRQ vectors are logged. */
  lemma UnhandledVectors(errorCode: nat, rip: nat)
    ensures var none := seq(Vectors, _ => None);
      && Dispatch(none, 14, errorCode, rip) == Panic("Page Fault", 14, errorCode, rip)
      && Dispatch(none, 13, errorCode, rip) == Panic("General Protection Fault", 13, errorCode, rip)
      && Dispatch(none, 32, errorCode, rip) == Log(32)
  {
  }

  // ---------------------------------------------------------------------
  // The table
  // ---------------------------------------------------------------------

  class IdtState {
    /** idt[] and interrupt_handlers[]. */
    var gates: array<Gate>
    var handlers: array<Option<nat>>
    /** idt_pointer. */
    var limit: bv16
    var base: bv64

    ghost predicate Valid()
      reads this
    {
      gates.Length == Vectors && handlers.Length == Vectors && gates != handlers as object
    }

    constructor ()
      ensures Valid() && fresh(gates) && fresh(handlers)
    {
      gates := new Gate[Vectors](_ => ZeroGate);
      handlers := new Option<nat>[Vectors](_ => None);
      limit, base := 0, 0;
    }

    /** idt_set_gate: gate num is set, no other gate changes. */
    method SetGate(num: nat, b: bv64, selector: bv16, ist: bv8, flags: bv8)
      requires Valid() && num < Vectors
      modifies gates
      ensures gates[..] == old(gates[..])[num := GateFor(b, selector, ist, flags)]
    {
      gates[num] := Gate((b & 0xFFFF) as bv16, selector, ist & 0x7, flags,
                         ((b >> 16) & 0xFFFF) as bv16, ((b >> 32) & 0xFFFF_FFFF) as bv32, 0);
    }

    /** register_interrupt_handler: only interrupt_handlers[num] changes. */
    method RegisterHandler(num: bv8, handler: Option<nat>)
      requires Valid()
      modifies handlers
      ensures handlers[..] == old(handlers[..])[num as int := handler]
    {
      handlers[num as int] := handler;
    }

    /** handle_interrupt: the action it takes; it changes nothing here. */
    method HandleInterrupt(interrupt: nat, errorCode: nat, rip: nat) returns (a: Action)
      requires Valid() && interrupt < Vectors
      ensures a == Dispatch(handlers[..], interrupt, errorCode, rip)
    {
      if handlers[interrupt].Some? {
        return Call(handlers[interrupt].value);
      }
      if interrupt < 32 {
        return Panic(ExceptionName(interrupt), interrupt, errorCode, rip);
      }
      return Log(interrupt);
    }

    /**
     * idt_init: the pointer covers the 256 gates of 16 bytes; every gate is
     * cleared and every handler is NULL, then vectors 0-47 are pointed at
     * their stubs.
     */
    method Init(tableBase: bv64, stubs: seq<bv64>)
      requires Valid() && |stubs| == Stubs
      modifies this, gates, handlers
      ensures Valid() && gates == old(gates) && handlers == old(handlers)
      ensures limit == TableLimit && base == tableBase
      ensures gates[..] == InitialGates(stubs)
      ensures forall v :: 0 <= v < Vectors ==> handlers[v] == None
    {
      limit := TableLimit;
      base := tableBase;
      ClearTables();
      SetStubGates(stubs);
    }

    /** The loop of idt_init over all 256 vectors: gate cleared, handler NULL. */
    method ClearTables()
      requires Valid()
      modifies gates, handlers
      ensures forall v :: 0 <= v < Vectors ==> gates[v] == GateFor(0, 0, 0, 0) && handlers[v] == None
    {
      var i := 0;
      while i < Vectors
        invariant 0 <= i <= Vectors
        invariant forall v :: 0 <= v < i ==> gates[v] == GateFor(0, 0, 0, 0) && handlers[v] == None
      {
        SetGate(i, 0, 0, 0, 0);
        handlers[i] := None;
        i := i + 1;
      }
    }

    /** The 48 calls `idt_set_gate(n, stub n, 0x08, 0, 0x8E)`, in vector order. */
    method SetStubGates(stubs: seq<bv64>)
      requires Valid() && |stubs| == Stubs
      requires forall v :: 0 <= v < Vectors ==> gates[v] == GateFor(0, 0, 0, 0)
      modifies gates
      ensures gates[..] == InitialGates(stubs)
    {
      var n := 0;
      while n < Stubs
        invariant 0 <= n <= Stubs
        invariant forall v :: 0 <= v < n ==> gates[v] == GateFor(stubs[v], KernelCode, 0, InterruptGate)
        invariant forall v :: n <= v < Vectors ==> gates[v] == GateFor(0, 0, 0, 0)
      {
        SetGate(n, stubs[n], KernelCode, 0, InterruptGate);
        n := n + 1;
      }
    }
  }
}
