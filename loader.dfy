/** The RAM loader that runs on the MCU (LOADER/source/LOADER.c): the
    mailbox it shares with the host, the EEPROM it programs, the request
    check and the command loop. */
module Loader {
  import opened Word32

  const EEPROM_START: u32 := 0x0800_0000
  const EEPROM_SIZE: u32 := 0x2_0000
  /** One past the last EEPROM byte. */
  const EEPROM_END: int := EEPROM_START as int + EEPROM_SIZE as int

  /** Size of the mailbox data buffer in bytes, and in words. */
  const BLOCK_SIZE: u32 := 0x4000
  const DATA_WORDS: nat := 0x1000

  // Loader states (second protocol generation: IDLE is all ones).
  const IDLE: u32 := 0xFFFF_FFFF
  const ERASE: u32 := 1
  const WRITE_BLOCK: u32 := 2

  // Error codes.
  const ERR_NONE: u32 := 0
  const ERR_ADDR: u32 := 1
  const ERR_ADDR_ALIGN: u32 := 2
  const ERR_ADDR_END: u32 := 3

  /** The request check of `eeprom_write_block` exactly as written
      (LOADER.c:83-97): the end address `addr + len * 4` is computed in
      `uint32_t` and may wrap around, and `len` is not compared with the
      data buffer. */
  function CheckBlock(addr: u32, len: u32): (err: u32)
    // the address is checked first, then the alignment, then the end
    ensures err == ERR_ADDR <==> addr < EEPROM_START
    ensures err == ERR_ADDR_ALIGN <==> addr >= EEPROM_START && addr % 4 != 0
    // without wrap-around, an aligned block in range is refused exactly when it ends past the EEPROM
    ensures addr as int + 4 * len as int < WORD_MOD && addr >= EEPROM_START && addr % 4 == 0 ==>
      (err == ERR_ADDR_END <==> addr as int + 4 * len as int > EEPROM_END)
    // without wrap-around, success means the block lies inside the EEPROM
    ensures addr as int + 4 * len as int < WORD_MOD ==>
      (err == ERR_NONE <==> addr >= EEPROM_START && addr % 4 == 0 && addr as int + 4 * len as int <= EEPROM_END)
    ensures err == ERR_NONE || err == ERR_ADDR || err == ERR_ADDR_ALIGN || err == ERR_ADDR_END
  {
    if addr < EEPROM_START then ERR_ADDR
    else if addr % 4 != 0 then ERR_ADDR_ALIGN   // (addr & 3) != 0
    else if Add32(addr, Mul32(len, 4)) as int > EEPROM_END then ERR_ADDR_END
    else ERR_NONE
  }

  /** The request check as evidently intended: the same three errors in the
      same order, with the end address computed without wrap-around and a
      block longer than the data buffer rejected as running past the end. */
  function CheckRequest(addr: u32, len: u32): (err: u32)
    ensures err == ERR_ADDR <==> addr < EEPROM_START
    ensures err == ERR_ADDR_ALIGN <==> addr >= EEPROM_START && addr % 4 != 0
    ensures err == ERR_ADDR_END <==>
      addr >= EEPROM_START && addr % 4 == 0 && (len as int > DATA_WORDS || addr as int + 4 * len as int > EEPROM_END)
    ensures err == ERR_NONE <==>
      addr >= EEPROM_START && addr % 4 == 0 && len as int <= DATA_WORDS && addr as int + 4 * len as int <= EEPROM_END
    ensures err == ERR_NONE || err == ERR_ADDR || err == ERR_ADDR_ALIGN || err == ERR_ADDR_END
    // it agrees with the code as written whenever nothing wraps and the block fits the buffer
    ensures addr as int + 4 * len as int < WORD_MOD && len as int <= DATA_WORDS ==> err == CheckBlock(addr, len)
  {
    if addr < EEPROM_START then ERR_ADDR
    else if addr % 4 != 0 then ERR_ADDR_ALIGN
    else if len as int > DATA_WORDS || addr as int + 4 * len as int > EEPROM_END then ERR_ADDR_END
    else ERR_NONE
  }

  /** The as-written check accepts a one-word write at the last word of the
      address space: the end address wraps to 0. */
  lemma CheckBlockWrapsAround()
    ensures CheckBlock(0xFFFF_FFFC, 1) == ERR_NONE
    ensures 0xFFFF_FFFC as int + 4 > EEPROM_END
    ensures CheckRequest(0xFFFF_FFFC, 1) == ERR_ADDR_END
  {
  }

  /** The as-written check accepts a block one word longer than the data
      buffer, so the programming loop reads past `data`. */
  lemma CheckBlockOverrunsBuffer()
    ensures CheckBlock(EEPROM_START, DATA_WORDS as u32 + 1) == ERR_NONE
    ensures CheckRequest(EEPROM_START, DATA_WORDS as u32 + 1) == ERR_ADDR_END
  {
  }

  /** Address of word `i` of a block at `addr`: the controller's 32-bit
      `ADR` register after `i` increments by 4, wrapping at 2^32. */
  function WordAddr(addr: u32, i: nat): (a: u32)
    ensures addr as int + 4 * i < WORD_MOD ==> a as int == addr as int + 4 * i
  {
    ToU32(addr as int + 4 * i)
  }

  /** `ADR += 4` moves from word `i` to word `i + 1`, also across 2^32. */
  lemma WordAddrNext(addr: u32, i: nat)
    ensures Add32(WordAddr(addr, i), 4) == WordAddr(addr, i + 1)
  {
    var x := addr as int + 4 * i;
    var q := x / WORD_MOD;
    assert x == q * WORD_MOD + x % WORD_MOD;
    assert x + 4 == q * WORD_MOD + (x % WORD_MOD + 4);
    if x % WORD_MOD + 4 >= WORD_MOD {
      assert x + 4 == (q + 1) * WORD_MOD + (x % WORD_MOD + 4 - WORD_MOD);
    }
  }

  /** `a` is one of the `n` word addresses of a block starting at `addr`. */
  predicate InBlock(addr: u32, n: nat, a: u32)
  {
    addr <= a && a as int < addr as int + 4 * n && (a - addr) % 4 == 0
  }

  /** One EEPROM controller operation. */
  datatype Op = Erased | Programmed(addr: u32, word: u32)

  /** The operations of programming `ws` word by word from `addr` upwards. */
  function ProgramOps(addr: u32, ws: seq<u32>): (ops: seq<Op>)
    ensures |ops| == |ws|
  {
    if ws == [] then [] else ProgramOps(addr, ws[..|ws| - 1]) + [Programmed(WordAddr(addr, |ws| - 1), ws[|ws| - 1])]
  }

  /** Operation i programs word i of `ws` at its own address. */
  lemma {:induction false} ProgramOpsAt(addr: u32, ws: seq<u32>)
    ensures forall i :: 0 <= i < |ws| ==> ProgramOps(addr, ws)[i] == Programmed(WordAddr(addr, i), ws[i])
    decreases |ws|
  {
    if ws != [] {
      var ws' := ws[..|ws| - 1];
      ProgramOpsAt(addr, ws');
      forall i | 0 <= i < |ws'|
        ensures ws'[i] == ws[i]
      {
      }
    }
  }

  /** Programming one more word `w` after the words `ws` adds one
      operation, at the next address, after all earlier ones `prior`. */
  lemma ProgramOpsSnoc(prior: seq<Op>, addr: u32, ws: seq<u32>, w: u32)
    ensures prior + ProgramOps(addr, ws + [w]) == prior + ProgramOps(addr, ws) + [Programmed(WordAddr(addr, |ws|), w)]
  {
    assert (ws + [w])[..|ws|] == ws;
  }

  /** `after` is `before` with the words `ws` programmed from `addr`
      upwards, and no other word changed. */
  ghost predicate Burned(after: map<u32, u32>, before: map<u32, u32>, addr: u32, ws: seq<u32>)
    requires addr as int + 4 * |ws| <= WORD_MOD
  {
    (forall i :: 0 <= i < |ws| ==> WordAddr(addr, i) in after && after[WordAddr(addr, i)] == ws[i]) &&
    (forall a :: a in before && !InBlock(addr, |ws|, a) ==> a in after && after[a] == before[a]) &&
    (forall a :: a in after ==> a in before || InBlock(addr, |ws|, a))
  }

  /** Programming one more word extends `Burned` by that word. */
  lemma BurnedSnoc(after: map<u32, u32>, before: map<u32, u32>, addr: u32, ws: seq<u32>, w: u32)
    requires addr as int + 4 * (|ws| + 1) <= WORD_MOD
    requires Burned(after, before, addr, ws)
    ensures Burned(after[WordAddr(addr, |ws|) := w], before, addr, ws + [w])
  {
    var a' := after[WordAddr(addr, |ws|) := w];
    var ws' := ws + [w];
    forall i | 0 <= i < |ws'|
      ensures WordAddr(addr, i) in a' && a'[WordAddr(addr, i)] == ws'[i]
    {
      if i < |ws| {
        assert WordAddr(addr, i) != WordAddr(addr, |ws|);
      }
    }
    forall a | a in before && !InBlock(addr, |ws'|, a)
      ensures a in a' && a'[a] == before[a]
    {
      assert !InBlock(addr, |ws|, a);
      assert a != WordAddr(addr, |ws|);
    }
    forall a | a in a'
      ensures a in before || InBlock(addr, |ws'|, a)
    {
      if a != WordAddr(addr, |ws|) {
        assert a in after;
      }
    }
  }

  /** The EEPROM contents after programming `ws` word by word from `addr`
      upwards into `before`. */
  function Burn(before: map<u32, u32>, addr: u32, ws: seq<u32>): map<u32, u32>
  {
    if ws == [] then before
    else Burn(before, addr, ws[..|ws| - 1])[WordAddr(addr, |ws| - 1) := ws[|ws| - 1]]
  }

  /** Programming word by word leaves each word of the block holding its
      data and every word outside the block as it was. */
  lemma {:induction false} BurnBurned(before: map<u32, u32>, addr: u32, ws: seq<u32>)
    requires addr as int + 4 * |ws| <= WORD_MOD
    ensures Burned(Burn(before, addr, ws), before, addr, ws)
    decreases |ws|
  {
    if ws == [] {
      assert forall a :: !InBlock(addr, 0, a);
    } else {
      var ws' := ws[..|ws| - 1];
      BurnBurned(before, addr, ws');
      BurnedSnoc(Burn(before, addr, ws'), before, addr, ws', ws[|ws| - 1]);
      assert ws' + [ws[|ws| - 1]] == ws;
    }
  }

  /** Programming one more word `w` after the words `ws` updates the word at the next address. */
  lemma BurnSnoc(before: map<u32, u32>, addr: u32, ws: seq<u32>, w: u32)
    ensures Burn(before, addr, ws + [w]) == Burn(before, addr, ws)[WordAddr(addr, |ws|) := w]
  {
    assert (ws + [w])[..|ws|] == ws;
  }

  /** `Burned` determines the new EEPROM contents completely. */
  lemma BurnedUnique(x: map<u32, u32>, y: map<u32, u32>, before: map<u32, u32>, addr: u32, ws: seq<u32>)
    requires addr as int + 4 * |ws| <= WORD_MOD
    requires Burned(x, before, addr, ws) && Burned(y, before, addr, ws)
    ensures x == y
  {
    forall a | a in x || a in y
      ensures a in x && a in y && x[a] == y[a]
    {
      if InBlock(addr, |ws|, a) {
        var i := (a - addr) as int / 4;
        assert WordAddr(addr, i) == a;
      }
    }
  }

  /** The EEPROM: word address to contents, with a ghost record of the
      controller operations applied. */
  class Eeprom {
    var words: map<u32, u32>
    ghost var ops: seq<Op>

    constructor (contents: map<u32, u32>)
      ensures words == contents && ops == []
    {
      words := contents;
      ops := [];
    }

    /** `eeprom_erase` (LOADER.c:53-77); the controller sequencing is not
        modelled, so the resulting contents are left unspecified. */
    method Erase()
      modifies this
      ensures ops == old(ops) + [Erased]
    {
      var after: map<u32, u32> :| true;
      words := after;
      ops := ops + [Erased];
    }

    /** `eeprom_write_block` (LOADER.c:79-127): check the request as
        written, then program `len` words at `addr`, `addr + 4`, ... (the
        address wrapping at 2^32). `ws` are the words programmed: the data
        buffer for the words inside it, and whatever memory follows the
        buffer for a request longer than it. */
    method WriteBlock(addr: u32, data: array<u32>, len: u32) returns (err: u32, ghost ws: seq<u32>)
      requires data.Length == DATA_WORDS
      modifies this
      ensures err == CheckBlock(addr, len)
      // every error return comes before the EEPROM is unlocked
      ensures err != ERR_NONE ==> words == old(words) && ops == old(ops) && ws == []
      // on success exactly `len` words are programmed, each from its place in the buffer
      ensures err == ERR_NONE ==> |ws| == len as int && forall i :: 0 <= i < |ws| && i < DATA_WORDS ==> ws[i] == data[i]
      ensures err == ERR_NONE && len as int <= DATA_WORDS ==> ws == data[..len]
      ensures err == ERR_NONE ==> words == Burn(old(words), addr, ws)
      ensures err == ERR_NONE ==> ops == old(ops) + ProgramOps(addr, ws)
    {
      err := CheckBlock(addr, len);
      ws := [];
      if err == ERR_NONE {
        ws := ProgramWords(addr, data, len);
      }
    }

    /** The programming loop of `eeprom_write_block` (LOADER.c:98-122):
        `ADR` starts at `addr`, and each of `len` passes programs the next
        word of `data` at `ADR` and advances `ADR` by 4. */
    method ProgramWords(addr: u32, data: array<u32>, len: u32) returns (ghost ws: seq<u32>)
      requires data.Length == DATA_WORDS
      modifies this
      ensures |ws| == len as int && forall i :: 0 <= i < |ws| && i < DATA_WORDS ==> ws[i] == data[i]
      ensures len as int <= DATA_WORDS ==> ws == data[..len]
      ensures words == Burn(old(words), addr, ws)
      ensures ops == old(ops) + ProgramOps(addr, ws)
    {
      ws := [];
      var adr := addr;   // the controller's ADR register
      var n := len;      // words still to program
      var i: nat := 0;   // position of the data pointer
      ghost var buffer := data[..];
      while n != 0
        invariant i + n as int == len as int && |ws| == i
        invariant adr == WordAddr(addr, i)
        invariant forall j :: 0 <= j < i && j < DATA_WORDS ==> ws[j] == buffer[j]
        invariant words == Burn(old(words), addr, ws)
        invariant ops == old(ops) + ProgramOps(addr, ws)
      {
        var w: u32;
        if i < DATA_WORDS {
          w := data[i];
          assert w == buffer[i];
        } else {
          w :| true;   // read past the end of `data`
        }
        ProgramOpsSnoc(old(ops), addr, ws, w);
        BurnSnoc(old(words), addr, ws, w);
        words := words[adr := w];
        ops := ops + [Programmed(adr, w)];
        ws := ws + [w];
        WordAddrNext(addr, i);
        adr := Add32(adr, 4);
        i := i + 1;
        n := n - 1;
      }
      if len as int <= DATA_WORDS {
        assert ws == data[..len];
      }
    }
  }

  /** The mailbox the host writes commands into (LOADER.c:19-44). */
  class Iface {
    var data: array<u32>
    var addr: u32
    var len: u32
    var state: u32
    var err: u32

    /** The static initialisation `iface = { 0 }`. */
    constructor ()
      ensures fresh(data) && data.Length == DATA_WORDS
      ensures forall i :: 0 <= i < DATA_WORDS ==> data[i] == 0
      ensures addr == 0 && len == 0 && state == 0 && err == ERR_NONE
    {
      data := new u32[DATA_WORDS](_ => 0);
      addr, len, state, err := 0, 0, 0, 0;
    }

    /** Start-up of `main` before its loop (LOADER.c:143-144). */
    method Start()
      modifies this
      ensures err == ERR_NONE && state == IDLE
      ensures data == old(data) && addr == old(addr) && len == old(len)
    {
      err := ERR_NONE;
      state := IDLE;
    }
  }

  /** One pass of `main`'s command loop (LOADER.c:146-162): execute the
      command in `state`, record its result in `err` and go idle; any other
      state value, IDLE included, changes nothing. `ws` are the words a
      WRITE_BLOCK programmed. */
  method Step(iface: Iface, rom: Eeprom) returns (ghost ws: seq<u32>)
    requires iface.data.Length == DATA_WORDS
    modifies iface, rom
    ensures iface.data == old(iface.data) && iface.addr == old(iface.addr) && iface.len == old(iface.len)
    ensures old(iface.state) == ERASE ==>
      iface.err == ERR_NONE && iface.state == IDLE && rom.ops == old(rom.ops) + [Erased] && ws == []
    ensures old(iface.state) == WRITE_BLOCK ==>
      iface.state == IDLE && iface.err == CheckBlock(old(iface.addr), old(iface.len))
    ensures old(iface.state) == WRITE_BLOCK && iface.err != ERR_NONE ==>
      rom.words == old(rom.words) && rom.ops == old(rom.ops) && ws == []
    ensures old(iface.state) == WRITE_BLOCK && iface.err == ERR_NONE ==>
      |ws| == iface.len as int && (forall i :: 0 <= i < |ws| && i < DATA_WORDS ==> ws[i] == iface.data[i]) &&
      rom.words == Burn(old(rom.words), iface.addr, ws) &&
      rom.ops == old(rom.ops) + ProgramOps(iface.addr, ws)
    ensures old(iface.state) == WRITE_BLOCK && iface.err == ERR_NONE && iface.len as int <= DATA_WORDS ==>
      ws == iface.data[..iface.len]
    ensures old(iface.state) != ERASE && old(iface.state) != WRITE_BLOCK ==>
      iface.state == old(iface.state) && iface.err == old(iface.err) &&
      rom.words == old(rom.words) && rom.ops == old(rom.ops) && ws == []
  {
    ws := [];
    if iface.state == ERASE {
      rom.Erase();
      iface.err := ERR_NONE;
      iface.state := IDLE;
    } else if iface.state == WRITE_BLOCK {
      iface.err, ws := rom.WriteBlock(iface.addr, iface.data, iface.len);
      iface.state := IDLE;
    }
  }

  /** `n` passes of the command loop with no host write in between: a
      command is executed by the first pass and never repeated. */
  method Serve(iface: Iface, rom: Eeprom, n: nat) returns (ghost ws: seq<u32>)
    requires iface.data.Length == DATA_WORDS
    modifies iface, rom
    ensures iface.data == old(iface.data) && iface.addr == old(iface.addr) && iface.len == old(iface.len)
    ensures n > 0 && old(iface.state) == ERASE ==>
      iface.err == ERR_NONE && iface.state == IDLE && rom.ops == old(rom.ops) + [Erased]
    ensures n > 0 && old(iface.state) == WRITE_BLOCK && iface.err != ERR_NONE ==> ws == []
    ensures n > 0 && old(iface.state) == WRITE_BLOCK ==>
      iface.state == IDLE && iface.err == CheckBlock(old(iface.addr), old(iface.len)) &&
      (iface.err == ERR_NONE ==> |ws| == iface.len as int) &&
      (iface.err == ERR_NONE && iface.len as int <= DATA_WORDS ==> ws == iface.data[..iface.len]) &&
      rom.ops == old(rom.ops) + ProgramOps(iface.addr, ws) &&
      rom.words == Burn(old(rom.words), iface.addr, ws)
    ensures n == 0 || (old(iface.state) != ERASE && old(iface.state) != WRITE_BLOCK) ==>
      iface.state == old(iface.state) && iface.err == old(iface.err) &&
      rom.words == old(rom.words) && rom.ops == old(rom.ops)
  {
    ws := [];
    if n == 0 {
      return;
    }
    ws := Step(iface, rom);
    ghost var err1, ops1, words1 := iface.err, rom.ops, rom.words;
    var k := 1;
    while k < n
      invariant 1 <= k <= n
      invariant iface.data == old(iface.data) && iface.addr == old(iface.addr) && iface.len == old(iface.len)
      invariant iface.err == err1 && rom.ops == ops1 && rom.words == words1
      invariant old(iface.state) == ERASE || old(iface.state) == WRITE_BLOCK ==> iface.state == IDLE
      invariant old(iface.state) != ERASE && old(iface.state) != WRITE_BLOCK ==> iface.state == old(iface.state)
    {
      var _ := Step(iface, rom);
      k := k + 1;
    }
  }
}
