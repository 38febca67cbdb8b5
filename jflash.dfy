/** The host side: `program()` of JFlash.py (lines 123-256), which uploads
    the RAM loader, checks that it erased the EEPROM, streams the binary
    through the mailbox block by block, and reads the EEPROM back to compare
    it with the file. The debug session is the abstract `Target`; what the
    host did and saw is read off its trace. */
module JFlash {
  import opened Word32
  import opened Layout
  import opened Partition
  import opened TargetAccess

  datatype Option<T> = None | Some(value: T)

  /** How `program` ends: the error or success message that decides the run. */
  datatype Outcome =
    | NotFound                          // 'Binary file not found'
    | NotConnected                      // 'Fail to connect.'
    | NotRunning(state: u32)            // 'LOADER is not running.'
    | Hung                              // a polling loop did not end (see `patience`)
    | NotErased(word: u32)              // 'EEPROM is not empty.'
    | WriteFailed(block: nat, err: u32) // 'Fail to write data (E%d).' while writing block `block` (1-based)
    | DumpRefused                       // GDB rejects the empty dump range of an empty binary and raises
    | Mismatch                          // 'Binary file does NOT match EEPROM content.'
    | Success                           // '**** SUCCESS! ****'

  /** How one polling loop went: how many reads saw the busy state after
      the first one, and the value the last read saw. */
  datatype Wait = Wait(polls: nat, last: u32)

  /** Uploading and priming the loader (JFlash.py:164-173). */
  function BootEvents(loader: seq<byte>): seq<Event>
  {
    [Reset, Halt, Event.Restore(RAM_START, loader),
     SetReg(MSP, ToU32(LD_STACK)), SetReg(PC, ToU32(EntryPc(LD_START))),
     Poke(BOOT_POKE, ToU32(RAM_START))]
  }

  /** The value `set_mem32(LD_ADDR, EEPROM_START + start)` stores. */
  function TargetAddr(start: nat): u32
  {
    ToU32(EEPROM_START + start)
  }

  /** The value `set_mem32(LD_LEN, (sz + 3) // 4)` stores. */
  function TargetLen(size: nat): u32
  {
    ToU32(WordLen(size))
  }

  /** The bytes of block `b` of the file. */
  function Chunk(file: seq<byte>, b: Block): seq<byte>
  {
    if b.start + b.size <= |file| then file[b.start .. b.start + b.size] else []
  }

  /** The three mailbox writes that command block `b` (JFlash.py:217-219). */
  function CommandPokes(b: Block): seq<Event>
  {
    [Poke(LD_ADDR, TargetAddr(b.start)), Poke(LD_LEN, TargetLen(b.size)), Poke(LD_STATE, WRITE_BLOCK)]
  }

  /** Staging block `b` in the data buffer, commanding it and letting the
      loader run (JFlash.py:214-221). */
  function StageEvents(file: seq<byte>, b: Block): seq<Event>
  {
    [Event.Restore(LD_DATA, Chunk(file, b))] + CommandPokes(b) + [Go]
  }

  /** `n` reads of `a` that all saw `v`. */
  function Polls(a: int, v: u32, n: nat): seq<Event>
  {
    if n == 0 then [] else Polls(a, v, n - 1) + [Peek(a, v)]
  }

  /** One block whose write ended as `w` says, with `err` read back
      (JFlash.py:214-231). */
  function BlockTrace(file: seq<byte>, b: Block, w: Wait, err: u32): seq<Event>
  {
    StageEvents(file, b) + Polls(LD_STATE, WRITE_BLOCK, w.polls) + [Peek(LD_STATE, w.last), Halt, Peek(LD_ERR, err)]
  }

  /** One block whose write never left WRITE_BLOCK within `patience` polls. */
  function StallTrace(file: seq<byte>, b: Block, patience: nat): seq<Event>
  {
    StageEvents(file, b) + Polls(LD_STATE, WRITE_BLOCK, patience) + [Peek(LD_STATE, WRITE_BLOCK)]
  }

  /** The erase never ended within `patience` polls (JFlash.py:176-188). */
  function EraseStall(loader: seq<byte>, patience: nat): seq<Event>
  {
    BootEvents(loader) + [Go, Peek(LD_STATE, ERASE)] + Polls(LD_STATE, ERASE, patience) + [Peek(LD_STATE, ERASE)]
  }

  /** Everything up to and including the erase check (JFlash.py:164-195):
      the erase ran as `erase` says, then the first EEPROM word read `first`. */
  function Prelude(loader: seq<byte>, erase: Wait, first: u32): seq<Event>
  {
    BootEvents(loader) + [Go, Peek(LD_STATE, ERASE)] + Polls(LD_STATE, ERASE, erase.polls) +
    [Peek(LD_STATE, erase.last), Halt, Peek(EEPROM_START, first)]
  }

  /** Every wait of `ws` ended because the state left `busy`. */
  predicate Ended(ws: seq<Wait>, busy: u32)
  {
    forall i :: 0 <= i < |ws| ==> ws[i].last != busy
  }

  /** The first |ws| blocks of the file written one after the other,
      block i waited for as `ws[i]` says and acknowledged with ERR_NONE. */
  function CycleTrace(file: seq<byte>, ws: seq<Wait>): seq<Event>
    requires |ws| <= |Blocks(|file|)|
  {
    if ws == [] then []
    else CycleTrace(file, ws[..|ws| - 1]) + BlockTrace(file, Blocks(|file|)[|ws| - 1], ws[|ws| - 1], ERR_NONE)
  }

  /** What the writing cycle did and saw, given how it stopped (`None`
      when every block was acknowledged): the trace went from `t0` to `tr`
      and `ws` says how the wait for each written block went. */
  ghost predicate Cycle(t0: seq<Event>, tr: seq<Event>, file: seq<byte>, patience: nat, stop: Option<Outcome>, ws: seq<Wait>)
  {
    var bs := Blocks(|file|);
    |ws| <= |bs| && Ended(ws, WRITE_BLOCK) &&
    match stop
    // every block written and acknowledged
    case None => |ws| == |bs| && tr == t0 + CycleTrace(file, ws)
    // the write of block |ws| + 1 never ended within `patience` polls
    case Some(Hung) => |ws| < |bs| && tr == t0 + CycleTrace(file, ws) + StallTrace(file, bs[|ws|], patience)
    // blocks before block k were acknowledged; block k was refused with `e`, read twice
    case Some(WriteFailed(k, e)) =>
      e != ERR_NONE && k == |ws| && 0 < k &&
      tr == t0 + CycleTrace(file, ws[..k - 1]) + BlockTrace(file, bs[k - 1], ws[k - 1], e) + [Peek(LD_ERR, e)]
    case Some(_) => false
  }

  /** What a run of `program` did and saw, given how it ended: the trace
      went from `t0` to `tr`, `erase` says how the erase wait went and `ws`
      how the waits for the written blocks went. */
  ghost predicate Run(t0: seq<Event>, tr: seq<Event>, loader: seq<byte>, file: seq<byte>, patience: nat,
                      outcome: Outcome, erase: Wait, ws: seq<Wait>)
  {
    var bs := Blocks(|file|);
    var erased := t0 + Prelude(loader, erase, 0xFFFF_FFFF);
    match outcome
    case NotFound => tr == t0
    case NotConnected => tr == t0
    // the first state read after starting the loader was not ERASE
    case NotRunning(s) => s != ERASE && tr == t0 + BootEvents(loader) + [Go, Peek(LD_STATE, s)]
    // the erase ended, the target was halted and the first EEPROM word was not erased
    case NotErased(w) => w != 0xFFFF_FFFF && erase.last != ERASE && tr == t0 + Prelude(loader, erase, w)
    // the erase, or the write of block |ws| + 1, never ended within `patience` polls
    case Hung =>
      tr == t0 + EraseStall(loader, patience) ||
      (erase.last != ERASE && Cycle(erased, tr, file, patience, Some(Hung), ws))
    // blocks before block k were acknowledged; block k was refused with `e`
    case WriteFailed(k, e) => erase.last != ERASE && Cycle(erased, tr, file, patience, Some(outcome), ws)
    // the binary is empty: there was no block to write and nothing to dump
    case DumpRefused => |file| == 0 && erase.last != ERASE && ws == [] && tr == erased
    // every block acknowledged; the image read back differs from the file
    case Mismatch =>
      |file| > 0 && erase.last != ERASE && |ws| == |bs| && Ended(ws, WRITE_BLOCK) && |tr| > 0 &&
      tr[..|tr| - 1] == erased + CycleTrace(file, ws) &&
      tr[|tr| - 1].Dump? && tr[|tr| - 1].at == EEPROM_START && |tr[|tr| - 1].bytes| == |file| && tr[|tr| - 1].bytes != file
    // every block acknowledged; the image read back equals the file; the target restarted
    case Success =>
      |file| > 0 && erase.last != ERASE && |ws| == |bs| && Ended(ws, WRITE_BLOCK) &&
      tr == erased + CycleTrace(file, ws) + [Event.Dump(EEPROM_START, file)] + [Go] + [Reset]
  }

  /** Upload the loader and prepare the core to run it (JFlash.py:162-173):
      reset and halt, load the image at the start of RAM, set the stack
      pointer and the entry point (Thumb bit cleared), set the word at 0xE000E008 to RAM_START. */
  method Bootstrap(t: Target, loader: seq<byte>)
    modifies t
    ensures t.halted && t.trace == old(t.trace) + BootEvents(loader)
    ensures MSP in t.regs && PC in t.regs
    ensures t.regs[MSP] == ToU32(LD_STACK) && t.regs[PC] == ToU32(EntryPc(LD_START))
    ensures WordAt(t.mem, BOOT_POKE) == ToU32(RAM_START)
    ensures forall k :: 0 <= k < |loader| && RAM_START + k < BOOT_POKE ==> ByteAt(t.mem, RAM_START + k) == loader[k]
  {
    t.ResetTarget();
    t.HaltTarget();
    t.Restore(loader, RAM_START, 0, |loader|);
    assert loader[0..|loader|] == loader;
    t.WriteReg(MSP, ToU32(LD_STACK));
    t.WriteReg(PC, ToU32(EntryPc(LD_START)));
    ghost var loaded := t.mem;
    t.WriteWord(BOOT_POKE, ToU32(RAM_START));
    forall k | 0 <= k < |loader| && RAM_START + k < BOOT_POKE
      ensures ByteAt(t.mem, RAM_START + k) == loader[k]
    {
      assert ByteAt(t.mem, RAM_START + k) == ByteAt(loaded, RAM_START + k);
    }
  }

  /** `while mem32(a) == busy: sleep(...)`, polling at most `patience` more
      times after the first read. `s` is the last value read: unless the
      patience ran out, the first one that was not `busy`. */
  method WaitWhile(t: Target, a: int, busy: u32, patience: nat) returns (s: u32, polls: nat)
    modifies t`trace
    ensures polls <= patience && (s == busy ==> polls == patience)
    ensures t.trace == old(t.trace) + Polls(a, busy, polls) + [Peek(a, s)]
  {
    s := t.ReadWord(a);
    polls := 0;
    while s == busy && polls < patience
      invariant polls <= patience
      invariant t.trace == old(t.trace) + Polls(a, busy, polls) + [Peek(a, s)]
    {
      assert Polls(a, busy, polls + 1) == Polls(a, busy, polls) + [Peek(a, s)];
      s := t.ReadWord(a);
      polls := polls + 1;
    }
  }

  /** Stage block `b` (JFlash.py:212-219): its bytes into the data buffer,
      then the target address, the length in words and the WRITE_BLOCK
      command into the mailbox. */
  method Stage(t: Target, file: seq<byte>, b: Block)
    requires t.halted && b.start + b.size <= |file| && b.size <= MAX_BLOCK
    modifies t`mem, t`trace
    // file byte k of the block is at LD_DATA + (k - b.start)
    ensures forall k :: b.start <= k < b.start + b.size ==> ByteAt(t.mem, LD_DATA - b.start + k) == file[k]
    // the mailbox holds the target address, the length in words and the command
    ensures WordAt(t.mem, LD_ADDR) == TargetAddr(b.start) && WordAt(t.mem, LD_LEN) == TargetLen(b.size)
    ensures WordAt(t.mem, LD_STATE) == WRITE_BLOCK
    ensures t.trace == old(t.trace) + [Event.Restore(LD_DATA, Chunk(file, b))] + CommandPokes(b)
    // nothing outside the buffer and the three command words changes, nor
    // the part of the buffer past the block
    ensures SameOutside(old(t.mem), t.mem, LD_DATA, LD_ERR)
    ensures forall a :: LD_DATA + b.size <= a < LD_ADDR ==> ByteAt(t.mem, a) == ByteAt(old(t.mem), a)
  {
    var addr, len := TargetAddr(b.start), TargetLen(b.size);
    ghost var before := t.mem;
    t.Restore(file, LD_DATA - b.start, b.start, b.start + b.size);
    ghost var m0 := t.mem;
    t.WriteWord(LD_ADDR, addr);
    ghost var m1 := t.mem;
    t.WriteWord(LD_LEN, len);
    ghost var m2 := t.mem;
    t.WriteWord(LD_STATE, WRITE_BLOCK);
    MailboxWritten(m0, m1, m2, t.mem, addr, len);
    StagedBytes(before, m0, t.mem, file, b);
  }

  /** The block's bytes, uploaded below `LD_ADDR`, survive the command
      words, and the two steps together change nothing outside the buffer
      and the command words, nor the buffer past the block. */
  lemma StagedBytes(before: map<int, byte>, m0: map<int, byte>, m3: map<int, byte>, file: seq<byte>, b: Block)
    requires b.start + b.size <= |file| && b.size <= MAX_BLOCK
    requires forall k :: b.start <= k < b.start + b.size ==> ByteAt(m0, LD_DATA - b.start + k) == file[k]
    requires SameOutside(before, m0, LD_DATA, LD_DATA + b.size)
    requires forall a :: a < LD_ADDR ==> ByteAt(m3, a) == ByteAt(m0, a)
    requires SameOutside(m0, m3, LD_ADDR, LD_ERR)
    ensures forall k :: b.start <= k < b.start + b.size ==> ByteAt(m3, LD_DATA - b.start + k) == file[k]
    ensures SameOutside(before, m3, LD_DATA, LD_ERR)
    ensures forall a :: LD_DATA + b.size <= a < LD_ADDR ==> ByteAt(m3, a) == ByteAt(before, a)
  {
  }

  /** Writing the three command words leaves the data buffer alone and
      each word holds what was written to it. */
  lemma MailboxWritten(m0: map<int, byte>, m1: map<int, byte>, m2: map<int, byte>, m3: map<int, byte>, addr: u32, len: u32)
    requires WordAt(m1, LD_ADDR) == addr && SameOutside(m0, m1, LD_ADDR, LD_ADDR + 4)
    requires WordAt(m2, LD_LEN) == len && SameOutside(m1, m2, LD_LEN, LD_LEN + 4)
    requires WordAt(m3, LD_STATE) == WRITE_BLOCK && SameOutside(m2, m3, LD_STATE, LD_STATE + 4)
    ensures WordAt(m3, LD_ADDR) == addr && WordAt(m3, LD_LEN) == len && WordAt(m3, LD_STATE) == WRITE_BLOCK
    ensures forall a :: a < LD_ADDR ==> ByteAt(m3, a) == ByteAt(m0, a)
    ensures SameOutside(m0, m3, LD_ADDR, LD_ERR)
  {
    assert WordAt(m2, LD_ADDR) == addr;
  }

  /** One pass of the writing cycle (JFlash.py:212-229): stage and command
      the block, run the loader until the state leaves WRITE_BLOCK, halt
      and read the error field. `None` when the state never left
      WRITE_BLOCK within `patience` polls. */
  method WriteBlock(t: Target, file: seq<byte>, b: Block, patience: nat)
    returns (err: Option<u32>, ghost w: Wait)
    requires t.halted && b.start + b.size <= |file| && b.size <= MAX_BLOCK
    modifies t
    ensures err.Some? ==> t.halted && w.last != WRITE_BLOCK && err.value == WordAt(t.mem, LD_ERR)
    ensures err.Some? ==> t.trace == old(t.trace) + BlockTrace(file, b, w, err.value)
    ensures err.None? ==> t.trace == old(t.trace) + StallTrace(file, b, patience)
  {
    ghost var t0 := t.trace;
    Stage(t, file, b);
    t.GoTarget();
    StageAssoc(t0, file, b);
    var s, polls := WaitWhile(t, LD_STATE, WRITE_BLOCK, patience);
    w := Wait(polls, s);
    if s == WRITE_BLOCK {
      StallAssoc(t0, file, b, patience);
      return None, w;
    }
    t.HaltTarget();
    var e := t.ReadWord(LD_ERR);
    BlockAssoc(t0, file, b, w, e);
    err := Some(e);
  }

  lemma StageAssoc(t0: seq<Event>, file: seq<byte>, b: Block)
    ensures t0 + [Event.Restore(LD_DATA, Chunk(file, b))] + CommandPokes(b) + [Go] == t0 + StageEvents(file, b)
  {
  }

  lemma StallAssoc(t0: seq<Event>, file: seq<byte>, b: Block, patience: nat)
    ensures t0 + StageEvents(file, b) + Polls(LD_STATE, WRITE_BLOCK, patience) + [Peek(LD_STATE, WRITE_BLOCK)] == t0 + StallTrace(file, b, patience)
  {
  }

  lemma BlockAssoc(t0: seq<Event>, file: seq<byte>, b: Block, w: Wait, e: u32)
    ensures t0 + StageEvents(file, b) + Polls(LD_STATE, WRITE_BLOCK, w.polls) + [Peek(LD_STATE, w.last)] + [Halt] + [Peek(LD_ERR, e)] == t0 + BlockTrace(file, b, w, e)
  {
  }

  /** The first part of `program` (JFlash.py:162-195): upload and start
      the loader, wait for the erase to end, halt and check the first EEPROM
      word. `None` when the check passed and the writing cycle may start. */
  method Prepare(t: Target, loader: seq<byte>, patience: nat)
    returns (stop: Option<Outcome>, ghost erase: Wait)
    modifies t
    ensures stop.Some? ==> stop.value.NotRunning? || stop.value.Hung? || stop.value.NotErased?
    ensures stop == Some(Hung) ==> t.trace == old(t.trace) + EraseStall(loader, patience)
    ensures stop.Some? && stop.value.NotRunning? ==>
      stop.value.state != ERASE && t.trace == old(t.trace) + BootEvents(loader) + [Go, Peek(LD_STATE, stop.value.state)]
    ensures stop.Some? && stop.value.NotErased? ==>
      stop.value.word != 0xFFFF_FFFF && erase.last != ERASE && t.trace == old(t.trace) + Prelude(loader, erase, stop.value.word)
    ensures stop.None? ==> t.halted && erase.last != ERASE && t.trace == old(t.trace) + Prelude(loader, erase, 0xFFFF_FFFF)
  {
    ghost var t0 := t.trace;
    // load the RAM agent
    Bootstrap(t, loader);

    // erase the EEPROM
    t.GoTarget();
    var s := t.ReadWord(LD_STATE);
    if s != ERASE {
      return Some(NotRunning(s)), Wait(0, s);
    }
    var polls;
    s, polls := WaitWhile(t, LD_STATE, ERASE, patience);
    erase := Wait(polls, s);
    if s == ERASE {
      EraseStallAssoc(t0, loader, patience);
      return Some(Hung), erase;
    }
    t.HaltTarget();
    var first := t.ReadWord(EEPROM_START);
    PreludeAssoc(t0, loader, erase, first);
    if first != 0xFFFF_FFFF {
      return Some(NotErased(first)), erase;
    }
    stop := None;
  }

  lemma EraseStallAssoc(t0: seq<Event>, loader: seq<byte>, patience: nat)
    ensures t0 + BootEvents(loader) + [Go] + [Peek(LD_STATE, ERASE)] + Polls(LD_STATE, ERASE, patience) + [Peek(LD_STATE, ERASE)]
         == t0 + EraseStall(loader, patience)
  {
  }

  lemma PreludeAssoc(t0: seq<Event>, loader: seq<byte>, erase: Wait, first: u32)
    ensures t0 + BootEvents(loader) + [Go] + [Peek(LD_STATE, ERASE)] + Polls(LD_STATE, ERASE, erase.polls) +
            [Peek(LD_STATE, erase.last)] + [Halt] + [Peek(EEPROM_START, first)]
         == t0 + Prelude(loader, erase, first)
  {
  }

  /** The writing cycle (JFlash.py:197-233): the file in blocks of at most
      a buffer, each staged, commanded, waited for and its error checked.
      `None` when every block was written without error. */
  method WriteCycle(t: Target, file: seq<byte>, patience: nat)
    returns (stop: Option<Outcome>, ghost ws: seq<Wait>)
    requires t.halted
    modifies t
    ensures Cycle(old(t.trace), t.trace, file, patience, stop, ws)
    ensures stop.None? ==> t.halted
  {
    ws := [];
    ghost var t0 := t.trace;
    ghost var bs := Blocks(|file|);
    var rest: nat, block: nat, start: nat := |file|, 0, 0;
    while rest > 0
      invariant block <= |bs| && (rest > 0 ==> start == block * MAX_BLOCK) && start + rest == |file|
      invariant rest == 0 <==> block == |bs|
      invariant |ws| == block && Ended(ws, WRITE_BLOCK)
      invariant t.halted && t.trace == t0 + CycleTrace(file, ws)
    {
      ghost var left := rest;
      var sz: nat;
      if rest > MAX_BLOCK {
        sz := MAX_BLOCK;
        rest := rest - MAX_BLOCK;
      } else {
        sz := rest;
        rest := 0;
      }
      NextBlock(|file|, block, left, sz);
      assert bs[|ws|] == Block(start, sz);
      block := block + 1;
      ghost var before := t.trace;
      var err, w := WriteBlock(t, file, Block(start, sz), patience);
      if err.None? {
        CycleHung(t0, before, t.trace, file, patience, ws);
        return Some(Hung), ws;
      }
      if err.value != ERR_NONE {
        ghost var refused, m := t.trace, t.mem;
        var e := t.ReadWord(LD_ERR);
        assert t.mem == m;
        CycleFail(t0, before, refused, t.trace, file, patience, ws, w, e);
        return Some(WriteFailed(block, e)), ws + [w];
      }
      CycleExtend(t0, before, file, ws, w);
      ws := ws + [w];
      start := start + sz;
    }
    stop := None;
  }

  /** With `rest` > 0 bytes left, block `block` of the image is the next
      one the cycle cuts. */
  lemma NextBlock(n: nat, block: nat, rest: nat, sz: nat)
    requires block <= |Blocks(n)| && block * MAX_BLOCK + rest == n && rest > 0
    requires sz == if rest > MAX_BLOCK then MAX_BLOCK else rest
    ensures block < |Blocks(n)| && Blocks(n)[block] == Block(block * MAX_BLOCK, sz)
    ensures rest - sz == 0 <==> block + 1 == |Blocks(n)|
  {
    BlockSizes(n);
    BlockAt(n, block);
  }

  /** Appending an acknowledged block to the trace of the blocks before it
      gives the trace of one more block. */
  lemma CycleExtend(t0: seq<Event>, before: seq<Event>, file: seq<byte>, ws: seq<Wait>, w: Wait)
    requires |ws| < |Blocks(|file|)| && before == t0 + CycleTrace(file, ws)
    ensures before + BlockTrace(file, Blocks(|file|)[|ws|], w, ERR_NONE) == t0 + CycleTrace(file, ws + [w])
  {
    assert (ws + [w])[..|ws|] == ws;
    AppendAssoc(t0, CycleTrace(file, ws), BlockTrace(file, Blocks(|file|)[|ws|], w, ERR_NONE));
  }

  lemma AppendAssoc<T>(a: seq<T>, b: seq<T>, c: seq<T>)
    ensures a + b + c == a + (b + c)
  {
  }

  /** The write of the next block stalled after the blocks before it. */
  lemma CycleHung(t0: seq<Event>, before: seq<Event>, tr: seq<Event>, file: seq<byte>, patience: nat, ws: seq<Wait>)
    requires |ws| < |Blocks(|file|)| && Ended(ws, WRITE_BLOCK)
    requires before == t0 + CycleTrace(file, ws)
    requires tr == before + StallTrace(file, Blocks(|file|)[|ws|], patience)
    ensures Cycle(t0, tr, file, patience, Some(Hung), ws)
  {
  }

  /** The next block was refused with `e`, read twice, after the blocks before it. */
  lemma CycleFail(t0: seq<Event>, before: seq<Event>, refused: seq<Event>, tr: seq<Event>, file: seq<byte>,
                  patience: nat, ws: seq<Wait>, w: Wait, e: u32)
    requires |ws| < |Blocks(|file|)| && Ended(ws, WRITE_BLOCK) && w.last != WRITE_BLOCK && e != ERR_NONE
    requires before == t0 + CycleTrace(file, ws)
    requires refused == before + BlockTrace(file, Blocks(|file|)[|ws|], w, e)
    requires tr == refused + [Peek(LD_ERR, e)]
    ensures Cycle(t0, tr, file, patience, Some(WriteFailed(|ws| + 1, e)), ws + [w])
  {
    assert (ws + [w])[..|ws|] == ws;
  }

  /** `program(binary)` (JFlash.py:123-256). `binary` is the file's
      contents, `None` when it does not exist; `reachable` says whether the
      GDB server accepted the connection; `loader` is the loader image.
      `ok` is the value `program` returns and `outcome` the reason it
      stopped. The trace of the run says exactly what the host did and
      saw (`Run`), `erase` and `ws` recording how its polling loops went. */
  method Program(t: Target, binary: Option<seq<byte>>, reachable: bool, loader: seq<byte>, patience: nat)
    returns (ok: bool, outcome: Outcome, ghost erase: Wait, ghost ws: seq<Wait>)
    modifies t
    ensures ok <==> outcome == Success
    ensures outcome == NotFound <==> binary.None?
    ensures outcome == NotConnected <==> binary.Some? && !reachable
    ensures binary.None? ==> t.trace == old(t.trace)
    ensures binary.Some? ==> Run(old(t.trace), t.trace, loader, binary.value, patience, outcome, erase, ws)
  {
    erase, ws := Wait(0, 0), [];
    if binary.None? {
      return false, NotFound, erase, ws;
    }
    var file := binary.value;
    if !reachable {
      return false, NotConnected, erase, ws;
    }
    var stop;
    stop, erase := Prepare(t, loader, patience);
    if stop.Some? {
      return false, stop.value, erase, ws;
    }
    stop, ws := WriteCycle(t, file, patience);
    if stop.Some? {
      return false, stop.value, erase, ws;
    }

    // verify
    if |file| == 0 {
      return false, DumpRefused, erase, ws;
    }
    ghost var written := t.trace;
    var dump := t.Dump(EEPROM_START, |file|);
    if dump != file {
      assert t.trace[..|t.trace| - 1] == written;
      return false, Mismatch, erase, ws;
    }
    t.GoTarget();
    t.ResetTarget();
    return true, Success, erase, ws;
  }
}
