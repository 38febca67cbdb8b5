/** The host script and the RAM loader together: the mailbox layout both
    sides assume, what the loader's request check answers to the requests
    the host's writing cycle sends (JFlash.py:217-218 against
    LOADER.c:83-97), and where the bytes of one staged block end up once
    the loader has programmed them. */
module Protocol {
  import opened Word32
  import opened Layout
  import opened Partition
  import opened TargetAccess
  import JFlash
  import L = Loader

  /** Both sides agree on the data buffer size, the EEPROM base, the
      command values and the error codes; they disagree on the idle value
      (0 on the host, all ones in the loader). */
  lemma SharedConstants()
    ensures LD_DATA_SZ == L.BLOCK_SIZE as int == 4 * L.DATA_WORDS == MAX_BLOCK
    ensures EEPROM_START == L.EEPROM_START as int
    ensures ERASE == L.ERASE && WRITE_BLOCK == L.WRITE_BLOCK
    ensures ERR_NONE == L.ERR_NONE && ERR_ADDR == L.ERR_ADDR
    ensures ERR_ADDR_ALIGN == L.ERR_ADDR_ALIGN && ERR_ADDR_END == L.ERR_ADDR_END
    ensures IDLE != L.IDLE
  {
    ConfiguredMailbox();
  }

  /** What the loader, running its check as written, answers to the
      request the host sends for block `b`. */
  function Answer(b: Block): u32
  {
    L.CheckBlock(JFlash.TargetAddr(b.start), JFlash.TargetLen(b.size))
  }

  /** A block that ends below the top of the 32-bit address space: its
      EEPROM address does not wrap, and neither does the end of its request. */
  predicate Addressable(b: Block)
  {
    EEPROM_START + b.start + b.size + 3 < WORD_MOD
  }

  /** The host commands exactly the block's EEPROM address and its length
      in words; the loader never answers ERR_ADDR or ERR_ADDR_ALIGN to it,
      the check as written gives the same answer as the corrected one, and
      the block is accepted exactly when it ends inside the EEPROM. */
  lemma HostRequest(n: nat, k: nat)
    requires k < |Blocks(n)| && Addressable(Blocks(n)[k])
    ensures var b := Blocks(n)[k];
      JFlash.TargetAddr(b.start) as int == EEPROM_START + b.start && JFlash.TargetLen(b.size) as int == WordLen(b.size) &&
      Answer(b) != L.ERR_ADDR && Answer(b) != L.ERR_ADDR_ALIGN &&
      L.CheckRequest(JFlash.TargetAddr(b.start), JFlash.TargetLen(b.size)) == Answer(b) &&
      (Answer(b) == L.ERR_NONE <==> b.start + b.size <= L.EEPROM_SIZE as int)
  {
    BlockAt(n, k);
    var b := Blocks(n)[k];
    var w := WordLen(b.size);
    WordLenOfFullBlock(b.size);
    assert b.start == 4 * (k * 4096);
    assert JFlash.TargetAddr(b.start) as int + 4 * w == 4 * (k * 4096 + w) + EEPROM_START;
  }

  /** Every block of an n-byte image is accepted exactly when the image
      fits the 128 KiB EEPROM. */
  lemma AllAccepted(n: nat)
    ensures (forall k :: 0 <= k < |Blocks(n)| ==> Answer(Blocks(n)[k]) == L.ERR_NONE) <==> n <= L.EEPROM_SIZE as int
  {
    if n <= L.EEPROM_SIZE as int {
      forall k | 0 <= k < |Blocks(n)|
        ensures Answer(Blocks(n)[k]) == L.ERR_NONE
      {
        BlockAt(n, k);
        HostRequest(n, k);
      }
    } else {
      FirstRefusal(n);
    }
  }

  /** An image larger than the EEPROM has its first eight blocks accepted
      and its ninth refused with ERR_ADDR_END, so `program` stops at
      block 9. */
  lemma FirstRefusal(n: nat)
    requires n > L.EEPROM_SIZE as int
    ensures |Blocks(n)| > 8
    ensures forall k :: 0 <= k < 8 ==> Answer(Blocks(n)[k]) == L.ERR_NONE
    ensures Answer(Blocks(n)[8]) == L.ERR_ADDR_END
  {
    BlockSizes(n);
    assert |Blocks(n)| > 8;
    forall k | 0 <= k < 8
      ensures Answer(Blocks(n)[k]) == L.ERR_NONE
    {
      BlockAt(n, k);
      HostRequest(n, k);
    }
    BlockAt(n, 8);
    HostRequest(n, 8);
  }

  /** The loader reads the data buffer as words: word j is the
      little-endian word at `LD_DATA + 4 * j` of target memory. */
  ghost predicate Buffer(mem: map<int, byte>, data: seq<u32>)
  {
    |data| == L.DATA_WORDS && forall j :: 0 <= j < |data| ==> data[j] == WordAt(mem, LD_DATA + 4 * j)
  }

  /** Byte `i` of the buffer is byte `i % 4` of word `i / 4`. */
  lemma BufferByte(mem: map<int, byte>, data: seq<u32>, i: nat)
    requires Buffer(mem, data) && i < 4 * L.DATA_WORDS
    ensures LeBytes(data[i / 4])[i % 4] == ByteAt(mem, LD_DATA + i)
  {
    var a := LD_DATA + 4 * (i / 4);
    LeBytesOfWord(ByteAt(mem, a), ByteAt(mem, a + 1), ByteAt(mem, a + 2), ByteAt(mem, a + 3));
  }

  /** Block `k` of the file, staged in the buffer as `JFlash.Stage`
      leaves it and programmed by the loader from its request, lands in the
      EEPROM byte for byte: file byte `b.start + i` is byte `i % 4` of the
      word at `EEPROM_START + b.start + i - i % 4`. */
  lemma BlockLands(file: seq<byte>, k: nat, mem: map<int, byte>, data: seq<u32>,
                   before: map<u32, u32>, i: nat)
    requires k < |Blocks(|file|)|
    requires Blocks(|file|)[k].start + Blocks(|file|)[k].size <= L.EEPROM_SIZE as int
    requires var b := Blocks(|file|)[k];
      forall x :: b.start <= x < b.start + b.size && x < |file| ==> ByteAt(mem, LD_DATA - b.start + x) == file[x]
    requires Buffer(mem, data)
    requires i < Blocks(|file|)[k].size
    ensures var b := Blocks(|file|)[k];
      Answer(b) == L.ERR_NONE && JFlash.TargetLen(b.size) as int <= L.DATA_WORDS &&
      var after := L.Burn(before, JFlash.TargetAddr(b.start), data[..JFlash.TargetLen(b.size)]);
      var a := L.WordAddr(JFlash.TargetAddr(b.start), i / 4);
      a as int == EEPROM_START + b.start + i - i % 4 && a in after &&
      b.start + i < |file| && LeBytes(after[a])[i % 4] == file[b.start + i]
  {
    var b := Blocks(|file|)[k];
    HostRequest(|file|, k);
    BlockAt(|file|, k);
    var len := JFlash.TargetLen(b.size) as int;
    var ws := data[..len];
    L.BurnBurned(before, JFlash.TargetAddr(b.start), ws);
    assert i / 4 < len;
    assert ws[i / 4] == data[i / 4];
    BufferByte(mem, data, i);
    assert ByteAt(mem, LD_DATA + i) == ByteAt(mem, LD_DATA - b.start + (b.start + i));
  }
}
