/**
 * The Global Descriptor Table of kernel/arch/x86_64/gdt.c.
 *
 * A segment descriptor is a 64-bit value whose fields the Intel SDM
 * (Volume 3A, section 3.4.5) lays out as: limit bits 0-15 in bits 0-15,
 * base bits 0-23 in bits 16-39, the access byte in bits 40-47, limit bits
 * 16-19 in bits 48-51, the flags nibble (AVL, L, D/B, G) in bits 52-55 and
 * base bits 24-31 in bits 56-63. A 64-bit TSS descriptor takes two slots,
 * the second holding base bits 32-63.
 *
 * `Descriptor` packs the fields that way; `DescriptorAsWritten` is what
 * gdt_set_gate computes, which shifts the whole granularity byte to bit 52
 * and shifts a 32-bit value by 48. The table, the GDT pointer's limit and
 * the TSS are the fields of the class `GdtState`, whose table has the seven
 * slots the TSS descriptor at index 5 needs; its methods store what
 * gdt_set_gate computes. `FixedTable` is the table the SDM packing gives.
 */
module Gdt {
  const TypeCode: bv8 := 0x9A
  const TypeData: bv8 := 0x92
  const TypeTss: bv8 := 0x89
  const FlagLong: bv8 := 0x20
  const FlagSize: bv8 := 0x40
  const FlagGran: bv8 := 0x80
  /** The DPL 3 bits of the access byte. */
  const UserDpl: bv8 := 0x60

  /** GDT_ENTRIES as the source sets it, and the count the TSS at index 5 needs. */
  const EntriesAsWritten: nat := 6
  const Entries: nat := 7

  /** sizeof(tss_entry_t): reserved1, rsp0-2, reserved2, ist1-7, reserved3, reserved4, iomap_base, packed. */
  const TssSize: nat := 4 + 3 * 8 + 8 + 7 * 8 + 8 + 2 + 2

  // ---------------------------------------------------------------------
  // Descriptor packing
  // ---------------------------------------------------------------------

  /** A descriptor laid out as the SDM asks; the flags are the high nibble of `gran`. */
  function Descriptor(base: bv64, limit: bv32, access: bv8, gran: bv8): bv64
  {
    ((limit & 0xFFFF) as bv64)
    | ((base & 0xFFFF) << 16)
    | (((base >> 16) & 0xFF) << 32)
    | ((access as bv64) << 40)
    | ((((limit >> 16) & 0xF) as bv64) << 48)
    | (((gran & 0xF0) as bv64) << 48)
    | (((base >> 24) & 0xFF) << 56)
  }

  /** The 20-bit limit a descriptor holds. */
  function LimitOf(d: bv64): bv32
  {
    ((d & 0xFFFF) | (((d >> 48) & 0xF) << 16)) as bv32
  }

  /** The 32-bit base a descriptor holds. */
  function BaseOf(d: bv64): bv64
  {
    ((d >> 16) & 0xFF_FFFF) | (((d >> 56) & 0xFF) << 24)
  }

  /** The access byte of a descriptor. */
  function AccessOf(d: bv64): bv8
  {
    ((d >> 40) & 0xFF) as bv8
  }

  /** The flags nibble of a descriptor: bit 0 AVL, bit 1 L, bit 2 D/B, bit 3 G. */
  function FlagsOf(d: bv64): bv8
  {
    ((d >> 52) & 0xF) as bv8
  }

  /** Every field reads back from the packed descriptor. */
  lemma DescriptorFields(base: bv64, limit: bv32, access: bv8, gran: bv8)
    requires base < 0x1_0000_0000 && limit < 0x10_0000
    ensures var d := Descriptor(base, limit, access, gran);
      && LimitOf(d) == limit
      && BaseOf(d) == base
      && AccessOf(d) == access
      && FlagsOf(d) == gran >> 4
  {
  }

  /** Only the bits of the fields are set: the limit and base beyond their widths are dropped. */
  lemma DescriptorTruncates(base: bv64, limit: bv32, access: bv8, gran: bv8)
    ensures var d := Descriptor(base, limit, access, gran);
      LimitOf(d) == limit & 0xF_FFFF && BaseOf(d) == base & 0xFFFF_FFFF
  {
  }

  /**
   * `((limit >> 16) & 0xF) << 48` as written: a shift of a 32-bit value by
   * 48, which C leaves undefined. This is the outcome of the x86 `shl`
   * instruction, which takes the count modulo 32: the nibble lands at bits
   * 16-19.
   */
  function LimitHighAsWritten(limit: bv32): bv32
  {
    ((limit >> 16) & 0xF) << (48 % 32)
  }

  /** gdt_set_gate's value as written. */
  function DescriptorAsWritten(base: bv64, limit: bv32, access: bv8, gran: bv8): bv64
  {
    ((limit & 0xFFFF) as bv64)
    | ((base & 0xFFFF) << 16)
    | (((base >> 16) & 0xFF) << 32)
    | ((access as bv64) << 40)
    | (LimitHighAsWritten(limit) as bv64)
    | ((gran as bv64) << 52)
    | (((base >> 24) & 0xFF) << 56)
  }

  /**
   * The kernel code segment as written: the L and G flags (0xA0) land at
   * bits 57 and 59, in the base, and the limit's high nibble lands on base
   * bits 0-3; the flags nibble reads 0. Packed as the SDM asks, the same
   * arguments give the flat 64-bit code segment 0x00AF9A000000FFFF.
   */
  lemma KernelCodeAsWritten()
    ensures var d := DescriptorAsWritten(0, 0xF_FFFF, TypeCode, FlagLong | FlagGran);
      && d == 0x0A00_9A00_000F_FFFF
      && FlagsOf(d) == 0 && BaseOf(d) == 0x0A00_000F && LimitOf(d) == 0xFFFF
    ensures Descriptor(0, 0xF_FFFF, TypeCode, FlagLong | FlagGran) == 0x00AF_9A00_0000_FFFF
  {
  }

  /** The two agree whenever the high limit nibble and the granularity byte are 0, as for the null and TSS descriptors. */
  lemma DescriptorAgrees(base: bv64, limit: bv32, access: bv8)
    requires limit < 0x1_0000
    ensures DescriptorAsWritten(base, limit, access, 0) == Descriptor(base, limit, access, 0)
  {
  }

  /** The second slot of a 64-bit system descriptor: base bits 32-63. */
  function SystemUpper(base: bv64): bv64
  {
    (base >> 32) & 0xFFFF_FFFF
  }

  /** The 64-bit base of a system descriptor from its two slots. */
  function SystemBaseOf(low: bv64, high: bv64): bv64
  {
    BaseOf(low) | (high << 32)
  }

  /**
   * A system descriptor's two slots give the whole 64-bit base back. As
   * written this holds only while the granularity byte and the limit's high
   * nibble are 0, as for the TSS: otherwise they land in the base.
   */
  lemma SystemBase(base: bv64, limit: bv32, access: bv8, gran: bv8)
    ensures SystemBaseOf(Descriptor(base, limit, access, gran), SystemUpper(base)) == base
    ensures gran < 0x10 && limit < 0x1_0000 ==>
              SystemBaseOf(DescriptorAsWritten(base, limit, access, gran), SystemUpper(base)) == base
  {
  }

  /** gdt_set_system writes slots num and num+1: a table of n entries must have num+1 < n. */
  predicate SystemFits(num: int, n: nat)
  {
    0 <= num && num + 1 < n
  }

  /** tss_init's call for index 5 overruns a table of GDT_ENTRIES = 6 slots, and fits one of 7. */
  lemma TssSlotAsWritten()
    ensures !SystemFits(5, EntriesAsWritten) && SystemFits(5, Entries)
  {
  }

  // ---------------------------------------------------------------------
  // The table and the TSS
  // ---------------------------------------------------------------------

  /** The fields of tss_entry_t that are not reserved. */
  datatype Tss = Tss(rsp0: bv64, rsp1: bv64, rsp2: bv64, ist: seq<bv64>, iomapBase: bv16)

  /** The TSS after `memset(&tss, 0, sizeof(tss))`. */
  function ZeroTss(): (r: Tss)
    ensures |r.ist| == 7 && forall i :: 0 <= i < 7 ==> r.ist[i] == 0
  {
    Tss(0, 0, 0, seq(7, _ => 0), 0)
  }

  /** The table gdt_init builds, given the TSS's address. */
  function InitialTable(tssBase: bv64): (r: seq<bv64>)
    ensures |r| == Entries
  {
    [ DescriptorAsWritten(0, 0, 0, 0),
      DescriptorAsWritten(0, 0xF_FFFF, TypeCode, FlagLong | FlagGran),
      DescriptorAsWritten(0, 0xF_FFFF, TypeData, FlagGran),
      DescriptorAsWritten(0, 0xF_FFFF, TypeCode | UserDpl, FlagLong | FlagGran),
      DescriptorAsWritten(0, 0xF_FFFF, TypeData | UserDpl, FlagGran),
      DescriptorAsWritten(tssBase, (TssSize - 1) as bv32, TypeTss, 0),
      SystemUpper(tssBase) ]
  }

  /**
   * The table gdt_init builds, read back: the null descriptor is 0; the
   * kernel segments have base 0x0A00000F (code) and 0x0800000F (data),
   * limit 0xFFFF and no flags, so the code segment is not a long-mode one;
   * the user segments are the kernel ones with DPL 3 and differ from them
   * in no other bit; the TSS descriptor covers the whole TSS at its address.
   */
  lemma InitialLayout(tssBase: bv64)
    ensures var t := InitialTable(tssBase);
      && t[0] == 0
      && t[1] == 0x0A00_9A00_000F_FFFF && t[2] == 0x0800_9200_000F_FFFF
      && BaseOf(t[1]) == 0x0A00_000F && LimitOf(t[1]) == 0xFFFF && AccessOf(t[1]) == TypeCode && FlagsOf(t[1]) == 0
      && BaseOf(t[2]) == 0x0800_000F && LimitOf(t[2]) == 0xFFFF && AccessOf(t[2]) == TypeData && FlagsOf(t[2]) == 0
      && t[3] == t[1] | ((UserDpl as bv64) << 40) && t[3] != t[1]
      && t[4] == t[2] | ((UserDpl as bv64) << 40) && t[4] != t[2]
      && (AccessOf(t[3]) >> 5) & 3 == 3 && (AccessOf(t[1]) >> 5) & 3 == 0
      && LimitOf(t[5]) == (TssSize - 1) as bv32 && AccessOf(t[5]) == TypeTss
      && SystemBaseOf(t[5], t[6]) == tssBase
  {
    SystemBase(tssBase, (TssSize - 1) as bv32, TypeTss, 0);
  }

  /** The table the same calls give with the SDM packing. */
  function FixedTable(tssBase: bv64): (r: seq<bv64>)
    ensures |r| == Entries
  {
    [ Descriptor(0, 0, 0, 0),
      Descriptor(0, 0xF_FFFF, TypeCode, FlagLong | FlagGran),
      Descriptor(0, 0xF_FFFF, TypeData, FlagGran),
      Descriptor(0, 0xF_FFFF, TypeCode | UserDpl, FlagLong | FlagGran),
      Descriptor(0, 0xF_FFFF, TypeData | UserDpl, FlagGran),
      Descriptor(tssBase, (TssSize - 1) as bv32, TypeTss, 0),
      SystemUpper(tssBase) ]
  }

  /**
   * The corrected table's layout: the kernel segments are flat (base 0,
   * limit 0xFFFFF, 4 KiB granularity), code in long mode; the user segments
   * are the kernel ones with DPL 3; the TSS descriptor covers the whole TSS.
   */
  lemma FixedLayout(tssBase: bv64)
    ensures var t := FixedTable(tssBase);
      && t[0] == 0
      && BaseOf(t[1]) == 0 && LimitOf(t[1]) == 0xF_FFFF && AccessOf(t[1]) == TypeCode && FlagsOf(t[1]) == 0xA
      && BaseOf(t[2]) == 0 && LimitOf(t[2]) == 0xF_FFFF && AccessOf(t[2]) == TypeData && FlagsOf(t[2]) == 0x8
      && t[3] == t[1] | ((UserDpl as bv64) << 40) && t[3] != t[1]
      && t[4] == t[2] | ((UserDpl as bv64) << 40) && t[4] != t[2]
      && (AccessOf(t[3]) >> 5) & 3 == 3 && (AccessOf(t[1]) >> 5) & 3 == 0
      && LimitOf(t[5]) == (TssSize - 1) as bv32 && AccessOf(t[5]) == TypeTss
      && SystemBaseOf(t[5], t[6]) == tssBase
  {
    SystemBase(tssBase, (TssSize - 1) as bv32, TypeTss, 0);
  }

  /** The two tables agree on the null and TSS slots and differ on all four segments. */
  lemma TablesDiffer(tssBase: bv64)
    ensures var t, f := InitialTable(tssBase), FixedTable(tssBase);
      t[0] == f[0] && t[5] == f[5] && t[6] == f[6]
      && t[1] != f[1] && t[2] != f[2] && t[3] != f[3] && t[4] != f[4]
  {
    DescriptorAgrees(0, 0, 0);
    DescriptorAgrees(tssBase, (TssSize - 1) as bv32, TypeTss);
    InitialLayout(tssBase);
    FixedLayout(tssBase);
  }

  class GdtState {
    /** gdt[]: the descriptors. */
    var table: array<bv64>
    /** gdt_ptr.limit and gdt_ptr.base. */
    var limit: bv16
    var base: bv64
    /** tss. */
    var tss: Tss

    ghost predicate Valid()
      reads this
    {
      table.Length == Entries
    }

    constructor ()
      ensures Valid() && fresh(table)
    {
      table := new bv64[Entries];
      limit, base := 0, 0;
      tss := ZeroTss();
    }

    /** gdt_set_gate: slot num holds the value it packs, no other slot changes. */
    method SetGate(num: int, b: bv64, lim: bv32, access: bv8, gran: bv8)
      requires Valid() && 0 <= num < table.Length
      modifies table
      ensures table[..] == old(table[..])[num := DescriptorAsWritten(b, lim, access, gran)]
    {
      table[num] := DescriptorAsWritten(b, lim, access, gran);
    }

    /** gdt_set_system: slots num and num+1 hold the two halves of the system descriptor. */
    method SetSystem(num: int, b: bv64, lim: bv32, access: bv8, gran: bv8)
      requires Valid() && SystemFits(num, table.Length)
      modifies table
      ensures table[..] == old(table[..])[num := DescriptorAsWritten(b, lim, access, gran)][num + 1 := SystemUpper(b)]
    {
      SetGate(num, b, lim, access, gran);
      table[num + 1] := (b >> 32) & 0xFFFF_FFFF;
    }

    /**
     * tss_init: the TSS cleared, rsp0 at the top of the kernel stack,
     * iomap_base past the end of the TSS (no I/O bitmap), and its
     * descriptor at index 5.
     */
    method TssInit(tssBase: bv64, stackTop: bv64)
      requires Valid()
      modifies this, table
      ensures tss == ZeroTss().(rsp0 := stackTop, iomapBase := TssSize as bv16)
      ensures table[..] == old(table[..])[5 := DescriptorAsWritten(tssBase, (TssSize - 1) as bv32, TypeTss, 0)][6 := SystemUpper(tssBase)]
      ensures table == old(table) && limit == old(limit) && base == old(base)
    {
      tss := ZeroTss();
      tss := tss.(rsp0 := stackTop);
      tss := tss.(iomapBase := TssSize as bv16);
      SetSystem(5, tssBase, (TssSize - 1) as bv32, TypeTss, 0);
    }

    /**
     * gdt_init: the pointer covers every slot, and the table is the null
     * descriptor, the kernel and user segments and the TSS descriptor.
     */
    method Init(gdtBase: bv64, tssBase: bv64, stackTop: bv64)
      requires Valid()
      modifies this, table
      ensures Valid() && table == old(table)
      ensures limit as int == 8 * Entries - 1 && base == gdtBase
      ensures table[..] == InitialTable(tssBase)
      ensures tss == ZeroTss().(rsp0 := stackTop, iomapBase := TssSize as bv16)
    {
      limit := (8 * Entries - 1) as bv16;
      base := gdtBase;
      SetGate(0, 0, 0, 0, 0);
      SetGate(1, 0, 0xF_FFFF, TypeCode, FlagLong | FlagGran);
      SetGate(2, 0, 0xF_FFFF, TypeData, FlagGran);
      SetGate(3, 0, 0xF_FFFF, TypeCode | UserDpl, FlagLong | FlagGran);
      SetGate(4, 0, 0xF_FFFF, TypeData | UserDpl, FlagGran);
      TssInit(tssBase, stackTop);
    }

    /** gdt_set_kernel_stack: only rsp0 changes. */
    method SetKernelStack(stack: bv64)
      modifies this
      ensures tss == old(tss).(rsp0 := stack)
      ensures table == old(table) && limit == old(limit) && base == old(base)
    {
      tss := tss.(rsp0 := stack);
    }
  }
}
