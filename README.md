# mdr1986x-JFlash, modelled in Dafny

JFlash programs the on-chip EEPROM of a Milandr MDR32F9Qx (1986BE9x)
microcontroller through a J-Link debug probe. Two programs cooperate:

- `program()` in `JFlash.py`, a GDB Python script. It resets and halts the
  MCU and uploads the RAM loader. It starts the loader, waits for the
  EEPROM erase and checks that the first EEPROM word reads `0xFFFFFFFF`.
  It then streams the binary through a mailbox ("interface") in target RAM,
  one buffer-sized block at a time. Finally it dumps the EEPROM and
  compares the dump with the file.
- The RAM loader, `LOADER/source/LOADER.c`. It owns the mailbox: a
  16384-byte data buffer followed by four words `addr`, `len`, `state` and
  `err`. Its command loop erases the EEPROM, or programs `len` words from
  the buffer at `addr`, after checking the request.

The model has one module per concern:

| file | module | what it holds |
|---|---|---|
| `word32.dfy` | `Word32` | `uint32_t` as a bounded integer with explicit wrap-around, and little-endian words |
| `layout.dfy` | `Layout` | the host's constants, and the mailbox field layout as a function of base and size |
| `partition.dfy` | `Partition` | how the writing cycle cuts the file into blocks, and the words per block |
| `target.dfy` | `TargetAccess` | the debug session as a class: byte memory, registers, halted flag and a ghost trace of events |
| `jflash.dfy` | `JFlash` | `program()` and its parts as methods on the target, each proved against the trace it leaves |
| `loader.dfy` | `Loader` | the mailbox and the EEPROM as classes, the request check, the programming loop and the command loop |
| `observe.dfy` | `Observe` | what a run shows when only uploads, mailbox writes, error reads and dumps are looked at |
| `protocol.dfy` | `Protocol` | the host's requests against the loader's check, and where a staged block's bytes land |

The debug session, the file system and the GDB server are abstract.

- The binary file is an `Option<seq<byte>>` (`None` when it does not exist).
- Whether the GDB server accepts the connection is a boolean.
- The loader image is a byte sequence.
- While the target runs, the loader may change anything. A read then
  returns an arbitrary value, and halting a running target leaves memory
  and registers unspecified.

Every run of `program` is described exactly by its trace: what the host
wrote, what it read and the values it saw.

The host and the loader come from different protocol generations. The host
numbers the idle state 0 (`JFlash.py:40`). The loader's idle state is
`0xFFFFFFFF`, and it starts idle (`LOADER.c:31`, `LOADER.c:144`). The host
expects the loader to report `ERASE` right after it starts, without
commanding an erase (`JFlash.py:178-184`). This loader erases only when
commanded (`LOADER.c:150`). Each side is modelled against its own code.
`Protocol.SharedConstants` records what the two sides share and where they
differ. The liveness check passing against this loader is not claimed.

Later generations of the protocol have the host command `ERASE` by
writing `state`. This `JFlash.py` does not, and the model follows its code:
the first state read after `go` must already be `ERASE`. The loader's
`WriteBlock`, `Step` and `Serve` run the request check as written,
`Loader.CheckBlock`, with the programming address wrapping like the 32-bit
`ADR` register. The corrected check `Loader.CheckRequest` (see Findings)
states what was intended, and `Protocol.HostRequest` shows that the two
agree on every request the host sends.

## Model

| member | source | states |
|---|---|---|
| `Word32.ToU32` | JFlash.py:94-95 | storing an integer in a 32-bit cell keeps it modulo 2^32, and leaves values in range unchanged |
| `Word32.Add32` | LOADER/source/LOADER.c:93 | `uint32_t` addition is exact below 2^32 and wraps by exactly 2^32 above it |
| `Word32.Mul32` | LOADER/source/LOADER.c:93 | `uint32_t` multiplication gives the product modulo 2^32, which is the product itself when it fits in 32 bits |
| `Word32.LeWordOfBytes` | JFlash.py:89-95 | splitting a word into its four little-endian bytes and joining them gives the word back |
| `Word32.LeBytesOfWord` | JFlash.py:89-95 | joining four bytes into a word and splitting it gives the same four bytes |
| `Layout.Fields` | JFlash.py:31-37 | the mailbox is a data buffer of size minus 16 bytes, then `addr`, `len`, `state` and `err`, each one word right after the previous one, the last ending exactly at the end of the region |
| `Layout.ConfiguredMailbox` | JFlash.py:23-37 | the configured mailbox has a 16384-byte buffer and its fields at 0x20006004, 0x20006008, 0x2000600C and 0x20006010, ending at `LD_IFACE + LD_IFACE_SZ` |
| `Layout.EntryPc` | JFlash.py:172 | `LD_START & ~1` is even and is `LD_START` or one below it |
| `Partition.SplitStep` | JFlash.py:204-211 | one pass takes a full buffer while more than a buffer is left, otherwise all that is left, and never an empty block |
| `Partition.SplitClosedForm` | JFlash.py:201-235 | starting from any offset, block k starts k buffers further on and is full unless it is last; the last holds 1 to 16384 bytes; there are ceil(rest/16384) blocks |
| `Partition.BlockAt` | JFlash.py:201-235 | block k of an n-byte file starts at k*16384, is full when a whole buffer remains and otherwise holds the rest, and lies inside the file |
| `Partition.BlockSizes` | JFlash.py:201-211 | an n-byte file gives ceil(n/16384) blocks, none exactly when n = 0; all but the last are full, and the last holds 1 to 16384 bytes |
| `Partition.SplitTotal` | JFlash.py:201-211 | the block sizes add up to exactly the bytes that were left |
| `Partition.SplitStarts` | JFlash.py:212-235 | each block starts where the blocks before it end |
| `Partition.BlocksContiguous` | JFlash.py:201-235 | block k of the file starts at the sum of the earlier block sizes, and all sizes sum to the file size |
| `Partition.BlocksCover` | JFlash.py:201-235 | every file offset i lies in exactly one block, block i/16384 |
| `Partition.BlocksIncreasing` | JFlash.py:201-235 | each block ends at or before the start of every later block, so the blocks do not overlap |
| `Partition.WordLen` | JFlash.py:218 | `(sz + 3) // 4` is the least number of words that hold `sz` bytes: `4*len >= sz` and `4*len < sz + 4` |
| `Partition.WordLenTable` | JFlash.py:218 | sizes 0 to 8 bytes need 0, 1, 1, 1, 1, 2, 2, 2, 2 words |
| `Partition.WordLenOfFullBlock` | JFlash.py:218 | a block of at most a buffer needs at most 4096 words |
| `TargetAccess.Target.ResetTarget` | JFlash.py:164 | `monitor reset 0` leaves the target halted and records the reset |
| `TargetAccess.Target.HaltTarget` | JFlash.py:86-87 | `monitor halt` leaves the target halted; halting an already halted target changes neither memory nor registers |
| `TargetAccess.Target.GoTarget` | JFlash.py:86-87 | `monitor go` resumes the target and changes neither memory nor registers |
| `TargetAccess.Target.ReadWord` | JFlash.py:89-91 | `mem32` on a halted target returns the little-endian word in memory, and records the read with the value seen |
| `TargetAccess.Target.WriteWord` | JFlash.py:93-95 | after `set_mem32` the word reads back as the value written and every other byte is unchanged |
| `TargetAccess.Target.WriteReg` | JFlash.py:101-103 | `set_reg` changes exactly the one register |
| `TargetAccess.Target.Restore` | JFlash.py:105-112 | GDB `restore` with bias, start and end puts file byte k at bias + k for k in [start, end) and changes no other byte |
| `TargetAccess.Target.Dump` | JFlash.py:114-116 | `dump binary memory` over a non-empty range returns exactly the n bytes of memory from the given address |
| `JFlash.Bootstrap` | JFlash.py:162-173 | the target ends halted with the loader image at the start of RAM, MSP set to `LD_STACK`, PC set to the entry address with the Thumb bit cleared, and the word at 0xE000E008 set to 0x20000000 |
| `JFlash.WaitWhile` | JFlash.py:187-189 | the loop reads the address until a value other than the busy one appears, within the given patience; the trace holds every read and the value it saw |
| `JFlash.Stage` | JFlash.py:214-219 | file bytes [start, start+sz) land at `LD_DATA`; `LD_ADDR` holds `EEPROM_START + start`; `LD_LEN` holds the length in words; `LD_STATE` holds `WRITE_BLOCK`; no byte outside the buffer and those three words changes, nor any buffer byte past the block |
| `JFlash.MailboxWritten` | JFlash.py:217-219 | writing the three command words leaves the data buffer untouched, and each word holds its value |
| `JFlash.WriteBlock` | JFlash.py:212-231 | one pass stages and commands the block, waits while the state is `WRITE_BLOCK`, halts and reads `LD_ERR`; the result is the error word in memory, and the trace is exactly that block's |
| `JFlash.Prepare` | JFlash.py:162-197 | bootstrap, start, liveness check, erase wait and first-word check, with the exact trace of each way it can stop |
| `JFlash.WriteCycle` | JFlash.py:199-235 | blocks are written in file order; the first refused block stops the cycle and no later block is staged or commanded; the refusal is read twice; when every block is acknowledged, the trace is exactly all block traces in order |
| `JFlash.NextBlock` | JFlash.py:204-212 | the block the loop cuts next is block `block` of the partition, and the loop ends exactly after the last block |
| `JFlash.CycleExtend` | JFlash.py:212-235 | an acknowledged block extends the cycle's trace by exactly that block's trace |
| `JFlash.CycleHung` | JFlash.py:225-226 | a write that never leaves `WRITE_BLOCK` ends the cycle after the earlier blocks |
| `JFlash.CycleFail` | JFlash.py:229-233 | a block refused with a nonzero error ends the cycle, and that block is the last one commanded |
| `JFlash.Program` | JFlash.py:123-256 | returns True exactly on success; a missing file is reported before any target access, and an unreachable server before any target operation; otherwise the whole trace is `Run`: an empty binary ends after the erase check, when GDB refuses the empty dump; success needs a non-empty binary, the loader alive, the erase done, the first word erased, every block acknowledged and the dump equal to the file |
| `Loader.CheckBlock` | LOADER/source/LOADER.c:83-97 | the request check as written: `ERR_ADDR` exactly below the EEPROM, whatever the alignment; `ERR_ADDR_ALIGN` exactly for a misaligned address at or above it; when the end does not wrap, `ERR_ADDR_END` for an aligned address exactly when the block ends past the EEPROM, and success exactly for an aligned block inside the EEPROM; no other answer |
| `Loader.CheckRequest` | LOADER/source/LOADER.c:83-97 | the same checks in the same order: `ERR_ADDR` exactly below the EEPROM; `ERR_ADDR_ALIGN` exactly for a misaligned address at or above it; `ERR_ADDR_END` for an aligned address exactly when the block is longer than the buffer or ends past the EEPROM; success exactly otherwise; it agrees with the code as written wherever that code does not wrap or overrun |
| `Loader.CheckBlockWrapsAround` | LOADER/source/LOADER.c:93-97 | the check as written accepts one word at 0xFFFFFFFC, far past the EEPROM, because the end address wraps to 0 |
| `Loader.CheckBlockOverrunsBuffer` | LOADER/source/LOADER.c:21-23 | the check as written accepts 4097 words, one more than the data buffer holds |
| `Loader.WordAddrNext` | LOADER/source/LOADER.c:101-117 | `ADR += 4` in 32-bit arithmetic moves from the address of word i to that of word i+1, also across 2^32 |
| `Loader.ProgramOps` | LOADER/source/LOADER.c:101-118 | programming a block performs exactly one operation per word |
| `Loader.ProgramOpsAt` | LOADER/source/LOADER.c:101-118 | operation i programs data word i at `addr + 4*i` modulo 2^32 |
| `Loader.ProgramOpsSnoc` | LOADER/source/LOADER.c:102-117 | one more pass of the loop adds exactly one programming operation, for the next word at the next address, after all earlier operations |
| `Loader.BurnedSnoc` | LOADER/source/LOADER.c:101-118 | programming one more word keeps every earlier word and all words outside the block intact |
| `Loader.BurnBurned` | LOADER/source/LOADER.c:101-118 | for a block that does not run past 2^32, after programming each word of the block holds its data, words outside the block keep their value, and no new word appears |
| `Loader.BurnSnoc` | LOADER/source/LOADER.c:116-117 | each pass updates exactly the word at the current `ADR` |
| `Loader.BurnedUnique` | LOADER/source/LOADER.c:101-118 | for a block that does not run past 2^32, the contents after programming are fully determined by the old contents and the block |
| `Loader.Eeprom.ProgramWords` | LOADER/source/LOADER.c:98-122 | the loop programs exactly `len` words, word i at `addr + 4*i` modulo 2^32, word i being `data[i]` wherever i is inside the buffer, so exactly `data[..len]` when `len` fits the buffer |
| `Loader.Eeprom.Erase` | LOADER/source/LOADER.c:53-77 | records one erase |
| `Loader.Eeprom.WriteBlock` | LOADER/source/LOADER.c:79-127 | returns the as-written check's verdict; on any error the EEPROM and its operations are untouched; on success it programs exactly `len` words, word i at `addr + 4*i` modulo 2^32, word i being `data[i]` wherever i is inside the buffer, so exactly `data[..len]` when `len` fits the buffer; nothing else changes |
| `Loader.Iface.constructor` | LOADER/source/LOADER.c:19-44 | the zero-initialised mailbox: a 4096-word buffer of zeros and zero fields |
| `Loader.Iface.Start` | LOADER/source/LOADER.c:143-144 | start-up sets `err = ERR_NONE` and `state = IDLE` and touches nothing else |
| `Loader.Step` | LOADER/source/LOADER.c:146-162 | `ERASE` erases, clears `err` and goes idle; `WRITE_BLOCK` stores the as-written check's verdict in `err`, goes idle, and on success programs `len` words from the buffer at `addr` (and otherwise leaves the EEPROM alone); any other state, `IDLE` included, changes nothing |
| `Loader.Serve` | LOADER/source/LOADER.c:146-162 | a command is executed by the first pass of the loop and never repeated by later ones: after `WRITE_BLOCK`, `err` holds the as-written check's verdict and the EEPROM holds exactly the programmed words |
| `Observe.PollsSelect` | JFlash.py:187-189 | the polling loops only read `LD_STATE`, so they show nothing of any other kind |
| `Observe.StageSelect` | JFlash.py:214-221 | staging a block shows its upload to `LD_DATA`, then its three mailbox writes |
| `Observe.BlockSelect` | JFlash.py:212-233 | a block's pass shows its upload, its three mailbox writes and one `LD_ERR` read |
| `Observe.CycleSelect` | JFlash.py:199-235 | the writing cycle shows, block after block, each block's upload, mailbox writes and `ERR_NONE` read, whatever the waits were |
| `Observe.CycleSelKinds` | JFlash.py:199-235 | the acknowledged blocks were each uploaded once, commanded once and had `LD_ERR` read once, in file order, and nothing was dumped |
| `Observe.UploadsAt` | JFlash.py:214 | the i-th upload of the cycle is block i's bytes to `LD_DATA` |
| `Observe.BootSelect` | JFlash.py:162-173 | bootstrapping writes memory only by the loader upload and the write to 0xE000E008 |
| `Observe.PreludeSelect` | JFlash.py:162-197 | up to the erase check, the host uploads the loader, writes the word at 0xE000E008 and reads the first EEPROM word, and writes no mailbox field |
| `Observe.WrittenShows` | JFlash.py:199-241 | a run that wrote every block and dumped shows the prelude, every block in order, then the dump |
| `Observe.RestartedShows` | JFlash.py:248-251 | the restart after a successful compare adds nothing but `go` and a reset |
| `Observe.SuccessShows` | JFlash.py:123-256 | a successful run uploaded the loader, found the EEPROM erased, uploaded, commanded and acknowledged every block in order, and dumped exactly the file |
| `Observe.MismatchShows` | JFlash.py:237-246 | a mismatch run did everything a successful one did up to the dump, which read back something other than the file |
| `Observe.RefusedShows` | JFlash.py:199-233 | when block n is refused, blocks 1 to n were uploaded and commanded, the earlier ones acknowledged, and nothing of any later block happened |
| `Observe.FailureShows` | JFlash.py:229-233 | a run ending in "Fail to write data" stopped at a real block with a nonzero error, and staged or commanded no later block |
| `Protocol.SharedConstants` | JFlash.py:31-52 | host and loader agree on the buffer size (16384 bytes, 4096 words), the EEPROM base, the command values and the error codes, and disagree on the idle value |
| `Protocol.HostRequest` | JFlash.py:217-218 | for every block whose request ends below 2^32, the host commands its EEPROM address and its length in words; the loader never answers `ERR_ADDR` or `ERR_ADDR_ALIGN`; the check as written agrees with the corrected one; the block is accepted exactly when it ends inside the EEPROM |
| `Protocol.AllAccepted` | JFlash.py:201-233 | every block of a file is accepted by the loader's check as written exactly when the file fits in the 128 KiB EEPROM |
| `Protocol.FirstRefusal` | JFlash.py:229-233 | for a file larger than the EEPROM, blocks 1 to 8 are accepted and block 9 is refused with `ERR_ADDR_END` |
| `Protocol.BufferByte` | LOADER/source/LOADER.c:19-23 | byte i of the data buffer is byte i%4, little-endian, of word i/4 the loader programs |
| `Protocol.BlockLands` | JFlash.py:214-219 | a staged block of a file that fits the EEPROM is accepted, its request fits the buffer, and once the loader programs it from that request it lands in the EEPROM byte for byte: file byte `start + i` is in EEPROM at `EEPROM_START + start + i` |

## Left out

- GDB plumbing is left out: `execute`, `monitor`, the parsing of `x` output in `mem32`, the `set {int}` and `restore`/`dump` command strings (JFlash.py:82-116), the R0-R15 name globals and the `LoadCommand` hook. The target is the abstract `TargetAccess.Target` instead.
- Connecting to the GDB server becomes the boolean `reachable`.
- Logging (handlers, messages, `TICK`) is left out; the outcome names the error or success message that decides the run (`DumpRefused` and `Hung` stand for the exception and the endless poll, which log no such message).
- Every `sleep` and `usleep` is timing only and is left out.
- The file system is left out: `os.path.exists` and `getsize` become an `Option` holding the file's bytes. The dump file becomes the dumped bytes, and `filecmp.cmp` becomes equality of byte sequences (its stat shortcut is not modelled).
- JFlash.WaitWhile: the source polls forever. Here each wait has a `patience` bound, and running out of it ends `program` with the outcome `Hung`. Termination of the loader is not assumed.
- Loader.Serve: `main` loops forever. `Serve` models n passes with no host write in between.
- Loader.Eeprom.Erase: the controller register sequence (`KEY`, `CMD` bits, delays; LOADER.c:57-73) is left out, and the contents after an erase are unspecified. The only erase check in the system is the host's first-word read.
- Loader.Eeprom.ProgramWords: one pass of the programming loop is one `Programmed` operation. The `KEY`/`CMD` sequencing and delays (LOADER.c:98-122) are left out.
- The NVIC, clock and RTT set-up and all `SEGGER_RTT_*` output of the loader are left out.
- `LOADER/mapper.py` is a build-time script that rewrites the layout constants. It is not part of this model.
- TargetAccess.Target.HaltTarget: halting a running target leaves memory and registers unspecified. The loader's effect on target memory is not tied to `Loader.Step` inside a run of `program`. `Protocol.BlockLands` composes the two sides for one block, but the whole-image claim "every block lands, so the dump equals the file" is not proved.
- The host's liveness check against this loader (`IDLE` 0 versus `0xFFFFFFFF`, and no `ERASE` command) is not claimed either way.
- Protocol.HostRequest: stated for blocks with `EEPROM_START + start + size + 3 < 2^32`. For a block beyond about 3.9 GiB into the file the host's address itself wraps, and the loader may answer `ERR_ADDR`. `Protocol.AllAccepted`, `Protocol.FirstRefusal` and `Protocol.BlockLands` need no such premise: the blocks they look at lie in the first 144 KiB.
- Loader.Eeprom.ProgramWords: for `len` above 4096 the words read past `iface.data` are unspecified values, not the loader memory that follows the buffer. Loader.Eeprom.WriteBlock, Loader.Step and Loader.Serve inherit this.
- The script's write of 0x20000000 to 0xE000E008 (JFlash.py:173) is modelled as a plain memory write. On a Cortex-M3 that address is the auxiliary control register, and the vector table offset register is at 0xE000ED08; what the write does to the core is not modelled.
- TargetAccess.Target.Dump: requires a non-empty range, because GDB rejects `dump binary memory` with start equal to end. For an empty binary `program` then raises instead of returning; the model ends the run with the outcome `DumpRefused`.
- `uint32_t` is an integer newtype bounded by 2^32, not `bv32`. `addr & 3` is written `addr % 4`, which has the same value for unsigned words.

## Findings

| source | as written | input that shows it | evidently intended | confidence | as-written member | corrected member |
|---|---|---|---|---|---|---|
| LOADER/source/LOADER.c:93 | the end address `addr + len * 4` is computed in `uint32_t` and wraps | `addr = 0xFFFFFFFC`, `len = 1`: the sum wraps to 0, the request is accepted, and the loop programs a word far outside the EEPROM | reject every block that does not end inside the EEPROM (`ERR_ADDR_END`) | not executed | `Loader.CheckBlockWrapsAround` | `Loader.CheckRequest` |
| LOADER/source/LOADER.c:93-117 | `len` is never compared with the 4096-word data buffer | `addr = 0x08000000`, `len = 4097`: accepted, and the loop reads `data[4096]`, past the end of the buffer | reject a block longer than the buffer | not executed | `Loader.CheckBlockOverrunsBuffer` | `Loader.CheckRequest` |
