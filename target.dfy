/** The debug-probe session the host script drives through GDB and the
    J-Link GDB server (JFlash.py:82-116, `monitor reset 0`, `halt`, `go`):
    an abstract target with byte-addressed memory, two CPU registers and a
    halted flag. While the target runs, the loader may change any memory,
    so a read then returns whatever the probe sees and a halt leaves memory
    in an unspecified state. A ghost trace records every operation the host
    performs and every value it observes. */
module TargetAccess {
  import opened Word32

  datatype Reg = MSP | PC

  /** One operation of the debug session, as the host sees it. */
  datatype Event =
    | Reset
    | Halt
    | Go
    | SetReg(reg: Reg, val: u32)
    | Poke(addr: int, val: u32)           // 32-bit write
    | Peek(addr: int, val: u32)           // 32-bit read and the value seen
    | Restore(at: int, bytes: seq<byte>)  // bytes uploaded starting at `at`
    | Dump(at: int, bytes: seq<byte>)     // bytes read back starting at `at`

  /** The byte at `a` of memory `m` (unwritten memory reads as 0). */
  function ByteAt(m: map<int, byte>, a: int): byte
  {
    if a in m then m[a] else 0
  }

  /** The little-endian word at `a` of memory `m`. */
  function WordAt(m: map<int, byte>, a: int): u32
  {
    LeWord(ByteAt(m, a), ByteAt(m, a + 1), ByteAt(m, a + 2), ByteAt(m, a + 3))
  }

  /** `m2` holds the same bytes as `m1` outside addresses `lo .. hi - 1`. */
  ghost predicate SameOutside(m1: map<int, byte>, m2: map<int, byte>, lo: int, hi: int)
  {
    forall b :: (b < lo || hi <= b) ==> ByteAt(m2, b) == ByteAt(m1, b)
  }

  class Target {
    var mem: map<int, byte>
    var regs: map<Reg, u32>
    var halted: bool
    ghost var trace: seq<Event>

    constructor (contents: map<int, byte>)
      ensures mem == contents && !halted && trace == []
    {
      mem := contents;
      regs := map[];
      halted := false;
      trace := [];
    }

    /** `monitor reset 0`: reset the MCU and leave it halted. */
    method ResetTarget()
      modifies this
      ensures halted && trace == old(trace) + [Reset]
    {
      var m: map<int, byte> :| true;
      var r: map<Reg, u32> :| true;
      mem, regs, halted := m, r, true;
      trace := trace + [Reset];
    }

    /** `monitor halt`: stop the CPU; what the loader did meanwhile is unknown. */
    method HaltTarget()
      modifies this
      ensures halted && trace == old(trace) + [Halt]
      ensures old(halted) ==> mem == old(mem) && regs == old(regs)
    {
      if !halted {
        var m: map<int, byte> :| true;
        var r: map<Reg, u32> :| true;
        mem, regs := m, r;
      }
      halted := true;
      trace := trace + [Halt];
    }

    /** `monitor go`: resume the CPU. */
    method GoTarget()
      modifies this
      ensures !halted && mem == old(mem) && regs == old(regs) && trace == old(trace) + [Go]
    {
      halted := false;
      trace := trace + [Go];
    }

    /** `mem32`: read a word. On a halted target it is the word in memory;
        on a running one, whatever the loader has just left there. */
    method ReadWord(a: int) returns (v: u32)
      modifies this`trace
      ensures halted ==> v == WordAt(mem, a)
      ensures trace == old(trace) + [Peek(a, v)]
    {
      if halted {
        v := WordAt(mem, a);
      } else {
        v :| true;
      }
      trace := trace + [Peek(a, v)];
    }

    /** `set_mem32`: write a word into the memory of a halted target. */
    method WriteWord(a: int, v: u32)
      requires halted
      modifies this`mem, this`trace
      ensures WordAt(mem, a) == v
      ensures SameOutside(old(mem), mem, a, a + 4)
      ensures trace == old(trace) + [Poke(a, v)]
    {
      var bs := LeBytes(v);
      mem := mem[a := bs[0]][a + 1 := bs[1]][a + 2 := bs[2]][a + 3 := bs[3]];
      LeWordOfBytes(v);
      trace := trace + [Poke(a, v)];
    }

    /** `set_reg`: write a CPU register of a halted target. */
    method WriteReg(r: Reg, v: u32)
      requires halted
      modifies this`regs, this`trace
      ensures regs == old(regs)[r := v]
      ensures trace == old(trace) + [SetReg(r, v)]
    {
      regs := regs[r := v];
      trace := trace + [SetReg(r, v)];
    }

    /** `load_binary` (GDB `restore FILE binary BIAS START END`): file bytes
        `start .. end` go to target addresses `bias + start .. bias + end`. */
    method Restore(file: seq<byte>, bias: int, start: nat, end: nat)
      requires halted && start <= end <= |file|
      modifies this`mem, this`trace
      ensures forall k :: start <= k < end ==> ByteAt(mem, bias + k) == file[k]
      ensures SameOutside(old(mem), mem, bias + start, bias + end)
      ensures trace == old(trace) + [Event.Restore(bias + start, file[start..end])]
    {
      var k := start;
      while k < end
        invariant start <= k <= end && trace == old(trace)
        invariant forall j :: start <= j < k ==> ByteAt(mem, bias + j) == file[j]
        invariant forall b :: (b < bias + start || bias + k <= b) ==> ByteAt(mem, b) == ByteAt(old(mem), b)
      {
        mem := mem[bias + k := file[k]];
        k := k + 1;
      }
      trace := trace + [Event.Restore(bias + start, file[start..end])];
    }

    /** `dump_binary`: read `n` bytes from `at` on a halted target. The
        debugger refuses an empty range (the caller handles `n == 0`). */
    method Dump(at: int, n: nat) returns (bytes: seq<byte>)
      requires halted && n > 0
      modifies this`trace
      ensures |bytes| == n && forall i :: 0 <= i < n ==> bytes[i] == ByteAt(mem, at + i)
      ensures trace == old(trace) + [Event.Dump(at, bytes)]
    {
      var m := mem;
      bytes := seq(n, i => if at + i in m then m[at + i] else 0);
      trace := trace + [Event.Dump(at, bytes)];
    }
  }

  /** Kinds of event, to select one kind out of a trace. */
  datatype Kind = Pokes | Restores | Dumps | PeeksAt(addr: int)

  predicate IsKind(e: Event, k: Kind)
  {
    match k
    case Pokes => e.Poke?
    case Restores => e.Restore?
    case Dumps => e.Dump?
    case PeeksAt(a) => e.Peek? && e.addr == a
  }

  /** The events of kind `k` in `t`, in order. */
  function Select(t: seq<Event>, k: Kind): (r: seq<Event>)
    ensures |r| <= |t|
  {
    if t == [] then []
    else Select(t[..|t| - 1], k) + (if IsKind(t[|t| - 1], k) then [t[|t| - 1]] else [])
  }

  /** Selecting from a concatenation selects from each part. */
  lemma {:induction false} SelectAppend(t1: seq<Event>, t2: seq<Event>, k: Kind)
    ensures Select(t1 + t2, k) == Select(t1, k) + Select(t2, k)
    decreases |t2|
  {
    if t2 != [] {
      var t2' := t2[..|t2| - 1];
      assert (t1 + t2)[..|t1 + t2| - 1] == t1 + t2';
      SelectAppend(t1, t2', k);
    } else {
      assert t1 + t2 == t1;
    }
  }
}
