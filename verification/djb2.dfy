/** The djb2 string hash shared by both hash tables
    (full_hashtable/hashtables.c and basic_hashtable/b_hashtables.c
    carry identical copies of it). */
module Djb2 {
  import opened Arith

  /** C's `unsigned long` is taken to be 64 bits wide; its arithmetic wraps
      modulo this value. */
  const ULongModulus: int := 0x1_0000_0000_0000_0000

  /** The initial accumulator of djb2. */
  const Seed: int := 5381

  /** A byte of memory, read through an `unsigned char *`. */
  type Byte = b: int | 0 <= b < 256

  /** A byte of a C string before its terminator: never NUL. */
  type KeyByte = c: int | 1 <= c < 256 witness 1

  /** A key is the content of a NUL-terminated C string, terminator excluded. */
  type Key = seq<KeyByte>

  /** The djb2 accumulator after consuming every byte of `s`, in 64-bit
      unsigned arithmetic. */
  function Djb2(s: Key): (h: nat)
    ensures h < ULongModulus
  {
    if |s| == 0 then Seed
    else (Djb2(s[..|s| - 1]) * 33 + s[|s| - 1]) % ULongModulus
  }

  /** One step of the C loop, `((hash << 5) + hash) + c`, with each operator
      wrapping as `unsigned long` does; it multiplies by 33 and adds `c`. */
  function ShiftAdd(h: nat, c: Byte): (r: nat)
    requires h < ULongModulus
    ensures r == (h * 33 + c) % ULongModulus
  {
    ModAddLeft(h * 32, h, ULongModulus);
    ModAddLeft(h * 32 + h, c, ULongModulus);
    (((h * 32) % ULongModulus + h) % ULongModulus + c) % ULongModulus
  }

  /** The bucket index of `key` in a table of `max` buckets. */
  function Hash(key: Key, max: int): (index: nat)
    requires max >= 1
    ensures index < max
  {
    Djb2(key) % max
  }

  /** The bytes of a buffer before its first NUL: what C sees as the string. */
  function CString(buf: seq<Byte>): (s: Key)
    requires 0 in buf
    ensures |s| < |buf| && buf[|s|] == 0
    ensures forall i :: 0 <= i < |s| ==> buf[i] == s[i]
  {
    if buf[0] == 0 then [] else [buf[0] as KeyByte] + CString(buf[1..])
  }

  /** The `hash` function as the C code runs it: walk the buffer until the
      NUL terminator, then reduce modulo `max`. */
  method HashCString(str: seq<Byte>, max: int) returns (index: nat)
    requires 0 in str && max >= 1
    ensures index == Hash(CString(str), max)
  {
    ghost var key := CString(str);
    var h: nat := Seed;
    var i := 0;
    while str[i] != 0
      invariant 0 <= i <= |key|
      invariant h == Djb2(key[..i])
      decreases |key| - i
    {
      assert str[i] == key[i];
      assert key[..i + 1][..i] == key[..i];
      assert Djb2(key[..i + 1]) == (Djb2(key[..i]) * 33 + key[i]) % ULongModulus;
      h := ShiftAdd(h, str[i]);
      i := i + 1;
    }
    assert key[..i] == key;
    index := h % max;
  }

  /** The sum of the bytes of `s`. */
  function ByteSum(s: Key): nat
  {
    if |s| == 0 then 0 else ByteSum(s[..|s| - 1]) + s[|s| - 1]
  }

  /** Since 33 = 1 (mod 32) and 32 divides 2^64, the low five bits of djb2
      only depend on the sum of the bytes. */
  lemma {:induction false} Djb2Mod32(s: Key)
    ensures Djb2(s) % 32 == (Seed + ByteSum(s)) % 32
  {
    if |s| > 0 {
      var p := s[..|s| - 1];
      var c := s[|s| - 1];
      var d := Djb2(p);
      Djb2Mod32(p);
      ModMod(d * 33 + c, 32, ULongModulus / 32);
      assert Djb2(s) % 32 == (d * 33 + c) % 32;
      ModMultiple(d, d + c, 32);
      assert (d * 33 + c) % 32 == (d + c) % 32;
      ModAddLeft(d, c, 32);
      ModAddLeft(Seed + ByteSum(p), c, 32);
    }
  }

  /** For a capacity that divides 32 the bucket index is the byte sum plus
      the seed, reduced modulo the capacity. */
  lemma HashSmallModulus(s: Key, max: int)
    requires max >= 1 && 32 % max == 0
    ensures Hash(s, max) == (Seed + ByteSum(s)) % max
  {
    var b := 32 / max;
    assert max * b == 32;
    Djb2Mod32(s);
    ModMod(Djb2(s), max, b);
    ModMod(Seed + ByteSum(s), max, b);
  }
}
