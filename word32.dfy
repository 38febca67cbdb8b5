/** Machine words shared by the host script and the RAM loader.
    `uint32_t` values are unbounded integers restricted to 32 bits; every
    place where the C code or GDB truncates is written out with `ToU32`. */
module Word32 {

  const WORD_MOD: int := 0x1_0000_0000

  newtype u32 = x: int | 0 <= x < 0x1_0000_0000
  newtype byte = x: int | 0 <= x < 0x100

  /** Truncation of an integer to an unsigned 32-bit word (C conversion to
      `uint32_t`, or GDB storing a Python integer into a 32-bit cell). */
  function ToU32(x: int): (r: u32)
    ensures r as int % WORD_MOD == x % WORD_MOD
    ensures 0 <= x < WORD_MOD ==> r as int == x
  {
    (x % WORD_MOD) as u32
  }

  /** `a + b` in `uint32_t` arithmetic. */
  function Add32(a: u32, b: u32): (r: u32)
    ensures a as int + b as int < WORD_MOD ==> r as int == a as int + b as int
    ensures a as int + b as int >= WORD_MOD ==> r as int == a as int + b as int - WORD_MOD
  {
    ToU32(a as int + b as int)
  }

  /** `a * b` in `uint32_t` arithmetic. */
  function Mul32(a: u32, b: u32): (r: u32)
    ensures r as int == (a as int * b as int) % WORD_MOD
    ensures a as int * b as int < WORD_MOD ==> r as int == a as int * b as int
  {
    ToU32(a as int * b as int)
  }

  /** The four bytes of a word in little-endian order (the target is a
      little-endian Cortex-M3). */
  function LeBytes(v: u32): (r: seq<byte>)
    ensures |r| == 4
  {
    [(v % 0x100) as byte,
     (v / 0x100 % 0x100) as byte,
     (v / 0x1_0000 % 0x100) as byte,
     (v / 0x100_0000) as byte]
  }

  /** The word whose little-endian bytes are `b0 .. b3`. */
  function LeWord(b0: byte, b1: byte, b2: byte, b3: byte): u32
  {
    assert Pow256(4) == WORD_MOD;
    LeNumber([b0, b1, b2, b3]) as u32
  }

  /** 256 to the power `n`. */
  function Pow256(n: nat): nat
  {
    if n == 0 then 1 else 0x100 * Pow256(n - 1)
  }

  /** The number whose base-256 digits, least significant first, are `bs`. */
  function LeNumber(bs: seq<byte>): (v: nat)
    ensures v < Pow256(|bs|)
  {
    if bs == [] then 0 else bs[0] as nat + 0x100 * LeNumber(bs[1..])
  }

  /** Four digits in closed form. */
  lemma LeNumber4(b0: byte, b1: byte, b2: byte, b3: byte)
    ensures LeWord(b0, b1, b2, b3) as int == b0 as int + 0x100 * b1 as int + 0x1_0000 * b2 as int + 0x100_0000 * b3 as int
  {
    var bs := [b0, b1, b2, b3];
    assert bs[1..][1..][1..][1..] == [];
    assert LeNumber(bs[1..][1..][1..]) == b3 as int;
    assert LeNumber(bs[1..][1..]) == b2 as int + 0x100 * b3 as int;
    assert LeNumber(bs[1..]) == b1 as int + 0x100 * b2 as int + 0x1_0000 * b3 as int;
  }

  /** Splitting a word into bytes and joining them back gives the word. */
  lemma LeWordOfBytes(v: u32)
    ensures var b := LeBytes(v); LeWord(b[0], b[1], b[2], b[3]) == v
  {
    var b := LeBytes(v);
    LeNumber4(b[0], b[1], b[2], b[3]);
    var x := v as int;
    var q1 := x / 0x100;
    var q2 := q1 / 0x100;
    assert x == x % 0x100 + 0x100 * q1;
    assert q1 == q1 % 0x100 + 0x100 * q2;
    assert x / 0x1_0000 == q2;
    assert q2 == q2 % 0x100 + 0x100 * (x / 0x100_0000);
  }

  /** Joining four bytes into a word and splitting it gives the bytes back. */
  lemma LeBytesOfWord(b0: byte, b1: byte, b2: byte, b3: byte)
    ensures LeBytes(LeWord(b0, b1, b2, b3)) == [b0, b1, b2, b3]
  {
    LeNumber4(b0, b1, b2, b3);
    var x := b0 as int + 0x100 * b1 as int + 0x1_0000 * b2 as int + 0x100_0000 * b3 as int;
    assert x / 0x100 == b1 as int + 0x100 * b2 as int + 0x1_0000 * b3 as int;
    assert x / 0x1_0000 == b2 as int + 0x100 * b3 as int;
    assert x / 0x100_0000 == b3 as int;
  }
}
