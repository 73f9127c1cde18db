/** The descriptors of VMSAv8-64 translation tables (4 KiB granule), as the kernel builds and
    decodes them. An entry is the record of the bit fields the kernel sets; the remaining bits
    of the word stay zero. */
module PageTableEntries {
  import opened Wrappers

  const FRAMES: nat := 0x10_0000_0000  // values of the frame number in bits 47..12

  datatype Options = Options(readOnly: bool, el0Access: bool)

  datatype Entry = Entry(
    valid: bool,        // bit 0
    typeBit: bool,      // bit 1
    el0Access: bool,    // bit 6
    readOnly: bool,     // bit 7
    accessFlag: bool,   // bit 10
    address: nat)       // bits 47..12
  {
    /** `set_address`: a value is cut to the 36 bits of the field. */
    function SetAddress(v: nat): Entry { this.(address := v % FRAMES) }

    function OptionsOf(): Options { Options(readOnly, el0Access) }

    /** The next table, unless the entry is invalid, a block, or at the last level. */
    function TableRef(level: nat): Option<nat> {
      if level >= 3 || !valid || !typeBit then None else Some(address * 0x1000)
    }

    /** The output address, unless the entry is invalid or a table. */
    function BaseAddress(level: nat): Option<nat> {
      if !valid || (level < 3 && typeBit) || (level >= 3 && !typeBit) then None
      else Some(address * 0x1000)
    }
  }

  const INVALID := Entry(false, false, false, false, false, 0)

  function TableDesc(address: nat): Entry {
    INVALID.(valid := true, typeBit := true).SetAddress(address / 0x1000)
  }

  function PageEntry(address: nat): Entry {
    INVALID.(valid := true, typeBit := true, accessFlag := true).SetAddress(address / 0x1000)
  }

  /** `None` if the address fails the alignment test of the level: 16 MiB at level 1 and 1 MiB at
      level 2. */
  function BlockEntry(address: nat, level: nat): Option<Entry> {
    if (level == 1 && address % 0x100_0000 == 0) || (level == 2 && address % 0x10_0000 == 0) then
      Some(INVALID.(valid := true, accessFlag := true).SetAddress(address / 0x1000))
    else None
  }

  /** `PageTableEntryOptions::apply` */
  function Apply(o: Options, e: Entry): Entry {
    e.(readOnly := o.readOnly, el0Access := o.el0Access)
  }

  /** A table descriptor leads to its table and is never taken for a mapping. */
  lemma TableDescDecodes(address: nat, level: nat)
    requires level < 3 && address % 0x1000 == 0 && address / 0x1000 < FRAMES
    ensures TableDesc(address).TableRef(level) == Some(address)
    ensures TableDesc(address).BaseAddress(level) == None
  {
  }

  /** Bytes covered by a block at the level. */
  function BlockBytes(level: nat): nat
    requires level == 1 || level == 2
  {
    if level == 1 then 0x4000_0000 else 0x20_0000
  }

  /** The output address of a block as the hardware forms it: the bits of the base above the
      block size, then the offset. */
  function HardwareOutput(base: nat, level: nat, offset: nat): nat
    requires level == 1 || level == 2
  {
    if level == 1 then base / 0x4000_0000 * 0x4000_0000 + offset
    else base / 0x20_0000 * 0x20_0000 + offset
  }

  /** The alignment test of `block_entry` is weaker than the block size: an accepted block is
      translated by the hardware to base plus offset exactly when the base is aligned to the
      whole block. */
  lemma BlockAlignmentExact(address: nat, level: nat, offset: nat)
    requires BlockEntry(address, level).Some? && offset < BlockBytes(level)
    ensures HardwareOutput(address, level, offset) == address + offset <==> address % BlockBytes(level) == 0
  {
  }

  /** Bases that pass the test and are still not aligned. */
  lemma BlockAlignmentFails()
    ensures BlockEntry(0x100_0000, 1).Some? && HardwareOutput(0x100_0000, 1, 0) != 0x100_0000
    ensures BlockEntry(0x10_0000, 2).Some? && HardwareOutput(0x10_0000, 2, 0) != 0x10_0000
  {
  }
}
