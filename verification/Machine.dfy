/**
 Machine-level vocabulary shared by every module: bytes, the unsigned widths the
 kernel computes in, page rounding, and little-endian integers in byte sequences.

 The integers are Dafny's unbounded ones; wherever the kernel's arithmetic can wrap,
 the model writes the `% U32` or `% U64` out.
 */
module Machine {
  datatype Option<+T> = None | Some(value: T)

  const U16 := 0x1_0000
  const U32 := 0x1_0000_0000
  const U64 := 0x1_0000_0000_0000_0000

  type byte = x: int | 0 <= x < 0x100
  type u16 = x: int | 0 <= x < 0x1_0000
  type u32 = x: int | 0 <= x < 0x1_0000_0000
  type u64 = x: int | 0 <= x < 0x1_0000_0000_0000_0000

  const PAGE_SIZE := 4096

  /** 64-bit addition. */
  function Add64(a: u64, b: u64): (r: u64)
    ensures r == (a + b) % U64
  {
    if a + b < U64 then a + b else a + b - U64
  }

  /** 32-bit addition. */
  function Add32(a: u32, b: u32): (r: u32)
    ensures r == (a + b) % U32
  {
    if a + b < U32 then a + b else a + b - U32
  }

  /** The cast to a 32-bit integer. */
  function Trunc32(a: nat): (r: u32)
    ensures a < U32 ==> r == a
    ensures r <= a
  {
    a % U32
  }

  /** `a & ~(PAGE_SIZE - 1)` */
  function PageDown(a: u64): (r: u64)
    ensures r % PAGE_SIZE == 0 && r <= a < r + PAGE_SIZE
  {
    a / PAGE_SIZE * PAGE_SIZE
  }

  /** `(a + PAGE_SIZE - 1) & ~(PAGE_SIZE - 1)` in 64-bit arithmetic: it wraps to 0 in the last page. */
  function PageUp(a: u64): (r: u64)
    ensures r % PAGE_SIZE == 0
    ensures a + PAGE_SIZE - 1 < U64 ==> a <= r < a + PAGE_SIZE
    ensures a + PAGE_SIZE - 1 >= U64 ==> r == 0
  {
    PageDown(Add64(a, PAGE_SIZE - 1))
  }

  /** The character codes of a text. */
  function Ascii(text: string): (codes: seq<byte>)
    requires forall i :: 0 <= i < |text| ==> text[i] < 128 as char
    ensures |codes| == |text| && forall i :: 0 <= i < |text| ==> codes[i] == text[i] as int
  {
    seq(|text|, i requires 0 <= i < |text| => text[i] as int)
  }

  function Min(a: int, b: int): int {
    if a < b then a else b
  }

  lemma {:induction false} MulLe(a: nat, b: nat, c: nat)
    requires a <= b
    ensures a * c <= b * c
    decreases b
  {
  }

  /* Little-endian integers. */

  /** The number a packed little-endian field denotes. */
  function Le(b: seq<byte>): (v: nat)
  {
    if b == [] then 0 else b[0] + 0x100 * Le(b[1..])
  }

  /** The field of `k` bytes at offset `at`. */
  function Field(b: seq<byte>, at: nat, k: nat): nat
    requires at + k <= |b|
  {
    Le(b[at..at + k])
  }

  function Pow256(k: nat): (p: nat)
    ensures p > 0
  {
    if k == 0 then 1 else 0x100 * Pow256(k - 1)
  }

  /** `v` written as `k` little-endian bytes. */
  function LeBytes(v: nat, k: nat): (b: seq<byte>)
    ensures |b| == k
    decreases k
  {
    if k == 0 then [] else [v % 0x100] + LeBytes(v / 0x100, k - 1)
  }

  lemma {:induction false} LeBound(b: seq<byte>)
    ensures Le(b) < Pow256(|b|)
  {
    if b == [] {
    } else {
      LeBound(b[1..]);
    }
  }

  lemma {:induction false} LeRoundTrip(v: nat, k: nat)
    requires v < Pow256(k)
    ensures Le(LeBytes(v, k)) == v
    decreases k
  {
    if k == 0 {
    } else {
      assert v / 0x100 < Pow256(k - 1);
      LeRoundTrip(v / 0x100, k - 1);
      assert LeBytes(v, k)[1..] == LeBytes(v / 0x100, k - 1);
    }
  }

  lemma Pow256Values()
    ensures Pow256(2) == U16 && Pow256(4) == U32 && Pow256(8) == U64
  {
  }
}
