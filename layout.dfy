/** The host script's configuration: the loader's position in RAM, the
    mailbox ("interface") layout, the loader's state and error codes as the
    host script numbers them, and the MCU memory map (JFlash.py:20-52). */
module Layout {
  import opened Word32

  // Loader placement, as derived from the loader's linker map.
  const LD_START: int := 0x2000015d
  const LD_STACK: int := 0x20007600
  const LD_IFACE: int := 0x20002004
  const LD_IFACE_SZ: int := 16400

  // The mailbox fields: the data buffer, then four 32-bit words.
  const LD_FIELD_SZ: int := 4
  const LD_DATA: int := LD_IFACE
  const LD_DATA_SZ: int := LD_IFACE_SZ - LD_FIELD_SZ * 4
  const LD_ADDR: int := LD_DATA + LD_DATA_SZ
  const LD_LEN: int := LD_ADDR + LD_FIELD_SZ
  const LD_STATE: int := LD_LEN + LD_FIELD_SZ
  const LD_ERR: int := LD_STATE + LD_FIELD_SZ

  // Loader states (first protocol generation: IDLE is 0).
  const IDLE: u32 := 0
  const ERASE: u32 := 1
  const WRITE_BLOCK: u32 := 2

  // Loader error codes.
  const ERR_NONE: u32 := 0
  const ERR_ADDR: u32 := 1
  const ERR_ADDR_ALIGN: u32 := 2
  const ERR_ADDR_END: u32 := 3

  // MCU memory layout.
  const RAM_START: int := 0x20000000
  const EEPROM_START: int := 0x08000000

  // The word the host sets to RAM_START before starting the loader. On a
  // Cortex-M3 this address is the auxiliary control register ACTLR; the
  // vector table offset register is at 0xE000ED08.
  const BOOT_POKE: int := 0xE000E008

  /** Target addresses of the mailbox fields. */
  datatype Mailbox = Mailbox(data: int, dataSize: int, addr: int, len: int, state: int, err: int)

  /** The mailbox is a region of `size` bytes at `base`: a data buffer
      followed by four 32-bit fields `addr`, `len`, `state`, `err`
      (JFlash.py:31-37). */
  function Fields(base: int, size: int): (m: Mailbox)
    requires size >= 4 * LD_FIELD_SZ
    ensures m.data == base && m.dataSize == size - 4 * LD_FIELD_SZ
    // each field is one word directly after the previous one
    ensures m.addr == m.data + m.dataSize
    ensures m.len == m.addr + LD_FIELD_SZ && m.state == m.len + LD_FIELD_SZ && m.err == m.state + LD_FIELD_SZ
    // the last field ends exactly where the region ends
    ensures m.err + LD_FIELD_SZ == base + size
  {
    var dataSize := size - LD_FIELD_SZ * 4;
    var addr := base + dataSize;
    Mailbox(base, dataSize, addr, addr + LD_FIELD_SZ, addr + 2 * LD_FIELD_SZ, addr + 3 * LD_FIELD_SZ)
  }

  /** The configured mailbox is the layout `Fields` describes: a
      16384-byte buffer, then the four fields, ending exactly at the end of
      the 16400-byte region. */
  lemma ConfiguredMailbox()
    ensures Fields(LD_IFACE, LD_IFACE_SZ) == Mailbox(LD_DATA, LD_DATA_SZ, LD_ADDR, LD_LEN, LD_STATE, LD_ERR)
    ensures LD_DATA == LD_IFACE && LD_DATA_SZ == 16384
    ensures LD_ADDR == 0x20006004 && LD_LEN == 0x20006008 && LD_STATE == 0x2000600C && LD_ERR == 0x20006010
    ensures LD_ERR + LD_FIELD_SZ == LD_IFACE + LD_IFACE_SZ
    ensures LD_DATA % 4 == 0 && LD_STACK % 8 == 0
  {
  }

  /** The program counter written for the loader entry: `LD_START & ~1`,
      the Thumb bit cleared. */
  function EntryPc(start: int): (pc: int)
    requires start >= 0
    ensures pc % 2 == 0 && (pc == start || pc + 1 == start)
  {
    start - start % 2
  }
}
