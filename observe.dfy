/** What a run of `program` shows to an observer who looks at one kind of
    operation only: which bytes were uploaded, which mailbox words were
    written, which error words and EEPROM words were read, what was dumped.
    The polls of `LD_STATE` are the one kind left out, since how often the
    host polls depends on the loader's timing. */
module Observe {
  import opened Word32
  import opened Layout
  import opened Partition
  import opened TargetAccess
  import opened JFlash

  /** Kinds of event that the polling loops do not produce. */
  predicate Observed(k: Kind)
  {
    k != PeeksAt(LD_STATE)
  }

  /** `e` if it has kind `k`, else nothing. */
  function Keep(e: Event, k: Kind): (r: seq<Event>)
    ensures r == [e] || r == []
  {
    if IsKind(e, k) then [e] else []
  }

  lemma Select1(e: Event, k: Kind)
    ensures Select([e], k) == Keep(e, k)
  {
    assert [e][..0] == [];
  }

  lemma Select2(e1: Event, e2: Event, k: Kind)
    ensures Select([e1, e2], k) == Keep(e1, k) + Keep(e2, k)
  {
    assert [e1, e2] == [e1] + [e2];
    SelectAppend([e1], [e2], k);
    Select1(e1, k);
    Select1(e2, k);
  }

  /** Resets, halts, starts and register writes are of no kind. */
  lemma Unseen(e: Event, k: Kind)
    requires e.Reset? || e.Halt? || e.Go? || e.SetReg?
    ensures Keep(e, k) == []
  {
  }

  /** Two events of no kind `k` select to nothing. */
  lemma Quiet2(e1: Event, e2: Event, k: Kind)
    requires !IsKind(e1, k) && !IsKind(e2, k)
    ensures Select([e1, e2], k) == []
  {
    Select2(e1, e2, k);
  }

  /** Polling one address shows nothing of any other kind. */
  lemma {:induction false} PollsSelect(a: int, v: u32, n: nat, k: Kind)
    requires !IsKind(Peek(a, v), k)
    ensures Select(Polls(a, v, n), k) == []
    decreases n
  {
    if n > 0 {
      PollsSelect(a, v, n - 1, k);
      SelectAppend(Polls(a, v, n - 1), [Peek(a, v)], k);
      Select1(Peek(a, v), k);
    }
  }

  /** What staging and commanding block `b` shows of kind `k`: the upload
      of its bytes into the data buffer and the three mailbox writes. */
  function StageSel(file: seq<byte>, b: Block, k: Kind): seq<Event>
  {
    Keep(Event.Restore(LD_DATA, Chunk(file, b)), k) + (if k == Pokes then CommandPokes(b) else [])
  }

  lemma StageSelect(file: seq<byte>, b: Block, k: Kind)
    ensures Select(StageEvents(file, b), k) == StageSel(file, b, k)
  {
    var r := Event.Restore(LD_DATA, Chunk(file, b));
    var c := CommandPokes(b);
    assert c == [c[0], c[1]] + [c[2]];
    SelectAppend([c[0], c[1]], [c[2]], k);
    Select2(c[0], c[1], k);
    Select1(c[2], k);
    SelectAppend([r] + c, [Go], k);
    SelectAppend([r], c, k);
    Select1(r, k);
    Select1(Go, k);
  }

  /** What block `b`, its error word read back as `err`, shows of kind `k`. */
  function BlockSel(file: seq<byte>, b: Block, err: u32, k: Kind): seq<Event>
  {
    StageSel(file, b, k) + Keep(Peek(LD_ERR, err), k)
  }

  lemma BlockSelect(file: seq<byte>, b: Block, w: Wait, err: u32, k: Kind)
    requires Observed(k)
    ensures Select(BlockTrace(file, b, w, err), k) == BlockSel(file, b, err, k)
  {
    var s := StageEvents(file, b);
    var p := Polls(LD_STATE, WRITE_BLOCK, w.polls);
    var h := [Peek(LD_STATE, w.last), Halt];
    var e := Peek(LD_ERR, err);
    calc {
      Select(BlockTrace(file, b, w, err), k);
    == { assert BlockTrace(file, b, w, err) == s + p + h + [e]; }
      Select(s + p + h + [e], k);
    == { SelectAppend(s + p + h, [e], k); SelectAppend(s + p, h, k); SelectAppend(s, p, k); }
      Select(s, k) + Select(p, k) + Select(h, k) + Select([e], k);
    == { StageSelect(file, b, k); PollsSelect(LD_STATE, WRITE_BLOCK, w.polls, k);
         Quiet2(h[0], Halt, k); Select1(e, k); }
      StageSel(file, b, k) + [] + [] + Keep(e, k);
    ==
      StageSel(file, b, k) + Keep(e, k);
    }
  }

  /** What the acknowledged blocks `bs` show of kind `k`, in order. */
  function CycleSel(file: seq<byte>, bs: seq<Block>, k: Kind): seq<Event>
  {
    if bs == [] then [] else CycleSel(file, bs[..|bs| - 1], k) + BlockSel(file, bs[|bs| - 1], ERR_NONE, k)
  }

  /** The writing cycle shows, block after block, each block's upload,
      its mailbox writes and its ERR_NONE, whatever the waits were. */
  lemma {:induction false} CycleSelect(file: seq<byte>, ws: seq<Wait>, k: Kind)
    requires |ws| <= |Blocks(|file|)| && Observed(k)
    ensures Select(CycleTrace(file, ws), k) == CycleSel(file, Blocks(|file|)[..|ws|], k)
    decreases |ws|
  {
    if ws != [] {
      var n := |ws| - 1;
      var bs := Blocks(|file|);
      CycleSelect(file, ws[..n], k);
      SelectAppend(CycleTrace(file, ws[..n]), BlockTrace(file, bs[n], ws[n], ERR_NONE), k);
      BlockSelect(file, bs[n], ws[n], ERR_NONE, k);
      assert bs[..n + 1][..n] == bs[..n];
    }
  }

  /** Uploads of the blocks `bs` into the data buffer, one per block. */
  function Uploads(file: seq<byte>, bs: seq<Block>): seq<Event>
  {
    if bs == [] then [] else Uploads(file, bs[..|bs| - 1]) + [Event.Restore(LD_DATA, Chunk(file, bs[|bs| - 1]))]
  }

  /** Mailbox writes commanding the blocks `bs`, three per block. */
  function Commands(bs: seq<Block>): seq<Event>
  {
    if bs == [] then [] else Commands(bs[..|bs| - 1]) + CommandPokes(bs[|bs| - 1])
  }

  /** `n` reads of `LD_ERR` that saw ERR_NONE. */
  function Nones(n: nat): seq<Event>
  {
    if n == 0 then [] else Nones(n - 1) + [Peek(LD_ERR, ERR_NONE)]
  }

  /** Each acknowledged block was uploaded once, commanded once and had its
      error word read once as ERR_NONE, in order; nothing else of any kind
      but the state polls. */
  lemma {:induction false} CycleSelKinds(file: seq<byte>, bs: seq<Block>, k: Kind)
    ensures k == Restores ==> CycleSel(file, bs, k) == Uploads(file, bs)
    ensures k == Pokes ==> CycleSel(file, bs, k) == Commands(bs)
    ensures k == PeeksAt(LD_ERR) ==> CycleSel(file, bs, k) == Nones(|bs|)
    ensures k == Dumps || (k.PeeksAt? && k.addr != LD_ERR) ==> CycleSel(file, bs, k) == []
    decreases |bs|
  {
    if bs != [] {
      CycleSelKinds(file, bs[..|bs| - 1], k);
    }
  }

  /** Block i is the i-th upload. */
  lemma {:induction false} UploadsAt(file: seq<byte>, bs: seq<Block>)
    ensures |Uploads(file, bs)| == |bs|
    ensures forall i :: 0 <= i < |bs| ==> Uploads(file, bs)[i] == Event.Restore(LD_DATA, Chunk(file, bs[i]))
    decreases |bs|
  {
    if bs != [] {
      UploadsAt(file, bs[..|bs| - 1]);
    }
  }

  /** What the upload of the loader, its start and the erase check show:
      the loader image into RAM, the write to 0xE000E008, the first EEPROM word read. */
  function PreludeSel(loader: seq<byte>, first: u32, k: Kind): seq<Event>
  {
    Keep(Event.Restore(RAM_START, loader), k) + Keep(Poke(BOOT_POKE, ToU32(RAM_START)), k) + Keep(Peek(EEPROM_START, first), k)
  }

  lemma BootSelect(loader: seq<byte>, k: Kind)
    ensures Select(BootEvents(loader), k) ==
      Keep(Event.Restore(RAM_START, loader), k) + Keep(Poke(BOOT_POKE, ToU32(RAM_START)), k)
  {
    var b := BootEvents(loader);
    assert b == [b[0], b[1]] + [b[2]] + [b[3], b[4]] + [b[5]];
    SelectAppend([b[0], b[1]] + [b[2]] + [b[3], b[4]], [b[5]], k);
    SelectAppend([b[0], b[1]] + [b[2]], [b[3], b[4]], k);
    SelectAppend([b[0], b[1]], [b[2]], k);
    Select2(b[0], b[1], k);
    Select1(b[2], k);
    Select2(b[3], b[4], k);
    Select1(b[5], k);
    Unseen(b[0], k);
    Unseen(b[1], k);
    Unseen(b[3], k);
    Unseen(b[4], k);
  }

  lemma PreludeSelect(loader: seq<byte>, erase: Wait, first: u32, k: Kind)
    requires Observed(k)
    ensures Select(Prelude(loader, erase, first), k) == PreludeSel(loader, first, k)
  {
    var b := BootEvents(loader);
    var g := [Go, Peek(LD_STATE, ERASE)];
    var p := Polls(LD_STATE, ERASE, erase.polls);
    var h := [Peek(LD_STATE, erase.last), Halt];
    var e := Peek(EEPROM_START, first);
    calc {
      Select(Prelude(loader, erase, first), k);
    == { assert Prelude(loader, erase, first) == b + g + p + h + [e]; }
      Select(b + g + p + h + [e], k);
    == { SelectAppend(b + g + p + h, [e], k); SelectAppend(b + g + p, h, k);
         SelectAppend(b + g, p, k); SelectAppend(b, g, k); }
      Select(b, k) + Select(g, k) + Select(p, k) + Select(h, k) + Select([e], k);
    == { BootSelect(loader, k); Quiet2(Go, g[1], k); PollsSelect(LD_STATE, ERASE, erase.polls, k);
         Quiet2(h[0], Halt, k); Select1(e, k); }
      Keep(b[2], k) + Keep(b[5], k) + [] + [] + [] + Keep(e, k);
    ==
      PreludeSel(loader, first, k);
    }
  }

  /** A run that wrote every block and dumped the EEPROM shows, of every
      kind but the state polls: the loader upload, the write to 0xE000E008, the
      first EEPROM word read as erased, every block uploaded, commanded and
      acknowledged in order, then the dump. */
  lemma WrittenShows(t0: seq<Event>, tr: seq<Event>, loader: seq<byte>, file: seq<byte>,
                     erase: Wait, ws: seq<Wait>, d: Event, k: Kind)
    requires |ws| == |Blocks(|file|)| && Observed(k)
    requires tr == t0 + Prelude(loader, erase, 0xFFFF_FFFF) + CycleTrace(file, ws) + [d]
    ensures Select(tr, k) == Select(t0, k) + PreludeSel(loader, 0xFFFF_FFFF, k) +
      CycleSel(file, Blocks(|file|), k) + Keep(d, k)
  {
    var p := Prelude(loader, erase, 0xFFFF_FFFF);
    var c := CycleTrace(file, ws);
    calc {
      Select(tr, k);
    == { SelectAppend(t0 + p + c, [d], k); SelectAppend(t0 + p, c, k); SelectAppend(t0, p, k); }
      Select(t0, k) + Select(p, k) + Select(c, k) + Select([d], k);
    == { PreludeSelect(loader, erase, 0xFFFF_FFFF, k); CycleSelect(file, ws, k); Select1(d, k);
         assert Blocks(|file|)[..|ws|] == Blocks(|file|); }
      Select(t0, k) + PreludeSel(loader, 0xFFFF_FFFF, k) + CycleSel(file, Blocks(|file|), k) + Keep(d, k);
    }
  }

  /** The same when the target was then restarted. */
  lemma RestartedShows(t0: seq<Event>, tr: seq<Event>, loader: seq<byte>, file: seq<byte>,
                       erase: Wait, ws: seq<Wait>, k: Kind)
    requires |ws| == |Blocks(|file|)| && Observed(k)
    requires tr == t0 + Prelude(loader, erase, 0xFFFF_FFFF) + CycleTrace(file, ws) +
      [Event.Dump(EEPROM_START, file)] + [Go] + [Reset]
    ensures Select(tr, k) == Select(t0, k) + PreludeSel(loader, 0xFFFF_FFFF, k) +
      CycleSel(file, Blocks(|file|), k) + Keep(Event.Dump(EEPROM_START, file), k)
  {
    var w := t0 + Prelude(loader, erase, 0xFFFF_FFFF) + CycleTrace(file, ws) + [Event.Dump(EEPROM_START, file)];
    calc {
      Select(tr, k);
    == { SelectAppend(w + [Go], [Reset], k); SelectAppend(w, [Go], k); }
      Select(w, k) + Select([Go], k) + Select([Reset], k);
    == { Select1(Go, k); Select1(Reset, k); Unseen(Go, k); Unseen(Reset, k); }
      Select(w, k) + [] + [];
    == { WrittenShows(t0, w, loader, file, erase, ws, Event.Dump(EEPROM_START, file), k); }
      Select(t0, k) + PreludeSel(loader, 0xFFFF_FFFF, k) +
        CycleSel(file, Blocks(|file|), k) + Keep(Event.Dump(EEPROM_START, file), k);
    }
  }

  /** A successful run shows, of every kind but the state polls: the loader
      upload, the write to 0xE000E008, the first EEPROM word read as erased, then
      every block of the file uploaded, commanded and acknowledged in
      order, then the dump of the whole file. */
  lemma SuccessShows(t0: seq<Event>, tr: seq<Event>, loader: seq<byte>, file: seq<byte>, patience: nat,
                     erase: Wait, ws: seq<Wait>, k: Kind)
    requires Run(t0, tr, loader, file, patience, Success, erase, ws) && Observed(k)
    ensures Select(tr, k) == Select(t0, k) + PreludeSel(loader, 0xFFFF_FFFF, k) +
      CycleSel(file, Blocks(|file|), k) + Keep(Event.Dump(EEPROM_START, file), k)
  {
    RestartedShows(t0, tr, loader, file, erase, ws, k);
  }

  /** A run that ended in a mismatch shows the same as a successful one up
      to the dump, which read back something other than the file. */
  lemma MismatchShows(t0: seq<Event>, tr: seq<Event>, loader: seq<byte>, file: seq<byte>, patience: nat,
                      erase: Wait, ws: seq<Wait>, k: Kind)
    requires Run(t0, tr, loader, file, patience, Mismatch, erase, ws) && Observed(k)
    ensures Select(tr, k) == Select(t0, k) + PreludeSel(loader, 0xFFFF_FFFF, k) +
      CycleSel(file, Blocks(|file|), k) + Keep(tr[|tr| - 1], k)
    ensures tr[|tr| - 1].Dump? && tr[|tr| - 1].bytes != file
  {
    assert tr == tr[..|tr| - 1] + [tr[|tr| - 1]];
    WrittenShows(t0, tr, loader, file, erase, ws, tr[|tr| - 1], k);
  }

  /** A run that stopped because block `n` was refused with `e` shows
      blocks 1 to `n` uploaded and commanded and nothing of any later block:
      blocks before `n` acknowledged, then the refusal read twice, and no
      dump. */
  lemma RefusedShows(t0: seq<Event>, tr: seq<Event>, loader: seq<byte>, file: seq<byte>,
                     n: nat, e: u32, erase: Wait, ws: seq<Wait>, k: Kind)
    requires 0 < n == |ws| <= |Blocks(|file|)| && Observed(k)
    requires tr == t0 + Prelude(loader, erase, 0xFFFF_FFFF) + CycleTrace(file, ws[..n - 1]) +
      BlockTrace(file, Blocks(|file|)[n - 1], ws[n - 1], e) + [Peek(LD_ERR, e)]
    ensures Select(tr, k) == Select(t0, k) + PreludeSel(loader, 0xFFFF_FFFF, k) +
      CycleSel(file, Blocks(|file|)[..n - 1], k) + BlockSel(file, Blocks(|file|)[n - 1], e, k) + Keep(Peek(LD_ERR, e), k)
  {
    var bs := Blocks(|file|);
    var p := Prelude(loader, erase, 0xFFFF_FFFF);
    var c := CycleTrace(file, ws[..n - 1]);
    var b := BlockTrace(file, bs[n - 1], ws[n - 1], e);
    var r := Peek(LD_ERR, e);
    calc {
      Select(tr, k);
    == { SelectAppend(t0 + p + c + b, [r], k); SelectAppend(t0 + p + c, b, k);
         SelectAppend(t0 + p, c, k); SelectAppend(t0, p, k); }
      Select(t0, k) + Select(p, k) + Select(c, k) + Select(b, k) + Select([r], k);
    == { PreludeSelect(loader, erase, 0xFFFF_FFFF, k); CycleSelect(file, ws[..n - 1], k);
         BlockSelect(file, bs[n - 1], ws[n - 1], e, k); Select1(r, k); }
      Select(t0, k) + PreludeSel(loader, 0xFFFF_FFFF, k) +
        CycleSel(file, bs[..n - 1], k) + BlockSel(file, bs[n - 1], e, k) + Keep(r, k);
    }
  }

  /** The same for a run of `program`. */
  lemma FailureShows(t0: seq<Event>, tr: seq<Event>, loader: seq<byte>, file: seq<byte>, patience: nat,
                     n: nat, e: u32, erase: Wait, ws: seq<Wait>, k: Kind)
    requires Run(t0, tr, loader, file, patience, WriteFailed(n, e), erase, ws) && Observed(k)
    ensures 0 < n <= |Blocks(|file|)| && e != ERR_NONE
    ensures Select(tr, k) == Select(t0, k) + PreludeSel(loader, 0xFFFF_FFFF, k) +
      CycleSel(file, Blocks(|file|)[..n - 1], k) + BlockSel(file, Blocks(|file|)[n - 1], e, k) + Keep(Peek(LD_ERR, e), k)
  {
    RefusedShows(t0, tr, loader, file, n, e, erase, ws, k);
  }
}
