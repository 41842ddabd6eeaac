/**
  The two executable routines of the parcel-index project: the djb2 string
  hash that chooses a bucket of the 127-slot hash table, and the integer
  maximum.

  Target: an MSVC/Windows build, so `unsigned long` is 32 bits wide and a
  plain `char` is signed.  Memory holding a C string is a sequence of raw
  bytes; the routine reads it up to the first NUL byte.
 */
module Project {

  /** A raw byte of memory. */
  type Byte = b: int | 0 <= b < 256

  /** Number of distinct values of a 32-bit `unsigned long`. */
  const Modulus: int := 0x1_0000_0000

  /** A value of a 32-bit `unsigned long`. */
  type Word = w: int | 0 <= w < Modulus

  /** Initial value of the djb2 accumulator. */
  const Seed: Word := 5381

  /** Number of slots of `HashTable::table`. */
  const TableSize: nat := 127

  /** A 32-bit C `int`, the parameter and result type of `max`. */
  type Int32 = x: int | -0x8000_0000 <= x < 0x8000_0000

  // ---------------------------------------------------------------------
  // C strings
  // ---------------------------------------------------------------------

  /** The value a byte takes once it is read as a (signed) `char` and
      promoted to `int`: bytes 0x80..0xFF become negative. */
  function CharValue(b: Byte): (c: int)
    ensures -128 <= c < 128
    ensures (c - b) % 256 == 0
    ensures c == 0 <==> b == 0
  {
    if b < 128 then b else b - 256
  }

  /** The C string stored at the start of `mem`: the bytes before the first
      NUL (all of `mem` when it holds no NUL). */
  function CString(mem: seq<Byte>): (s: seq<Byte>)
    ensures 0 !in s
    ensures s <= mem
    ensures |s| < |mem| ==> mem[|s|] == 0
  {
    if mem == [] || mem[0] == 0 then [] else [mem[0]] + CString(mem[1..])
  }

  /** The C string is the prefix that stops at the first NUL byte. */
  lemma CStringAt(mem: seq<Byte>, i: nat)
    requires i < |mem| && mem[i] == 0 && 0 !in mem[..i]
    ensures CString(mem) == mem[..i]
  {
  }

  /** Nothing stored after the terminating NUL belongs to the string, so
      (by the contract of `Djb2Accumulate`) none of it reaches the hash. */
  lemma TerminatorCutsOff(s: seq<Byte>, rest: seq<Byte>)
    requires 0 !in s
    ensures CString(s + [0] + rest) == s
  {
    var mem := s + [0] + rest;
    assert mem[..|s|] == s;
    CStringAt(mem, |s|);
  }

  // ---------------------------------------------------------------------
  // djb2
  // ---------------------------------------------------------------------

  /** The djb2 value of a string: start at 5381 and, for each character c
      from left to right, replace the accumulator h by h*33 + c, all modulo
      2^32. */
  function Hash(s: seq<Byte>): (h: Word)
  {
    if s == [] then Seed
    else (Hash(s[..|s| - 1]) * 33 + CharValue(s[|s| - 1])) % Modulus
  }

  /** The hash is a left fold: appending a character performs one step. */
  lemma HashAppend(s: seq<Byte>, b: Byte)
    ensures Hash(s + [b]) == (Hash(s) * 33 + CharValue(b)) % Modulus
  {
    assert (s + [b])[..|s|] == s;
  }

  /** The bucket the comment of the loop body asks for: the hash modulo the
      table size. */
  function Bucket(s: seq<Byte>): (r: nat)
    ensures r < TableSize
  {
    Hash(s) % TableSize
  }

  /** One pass of the loop body, written as the 32-bit machine evaluates
      it: the shift drops the bits above bit 31, each `+` wraps, and the
      `int` operand c is converted to `unsigned long` (c modulo 2^32)
      before the last addition. */
  function ShiftAddStep(h: Word, c: int): (r: Word)
    requires -128 <= c < 128
    ensures r == (h * 33 + c) % Modulus
  {
    var shifted := (h * 32) % Modulus;
    var sum := (shifted + h) % Modulus;
    StepIsTimes33(h, c);
    (sum + c % Modulus) % Modulus
  }

  /** The arithmetic fact behind the contract of `ShiftAddStep`, stated for
      every integer c rather than only for `char` values. */
  lemma StepIsTimes33(h: Word, c: int)
    ensures (((h * 32) % Modulus + h) % Modulus + c % Modulus) % Modulus
            == (h * 33 + c) % Modulus
  {
  }

  /** Adding a multiple of 2^32 leaves the residue unchanged. */
  lemma ModShift(a: int, q: int)
    ensures (a + q * Modulus) % Modulus == a % Modulus
  {
  }

  /** The hash loop over the C string stored at `str`.  It returns the
      accumulator the loop leaves behind; the function itself falls off its
      end without a `return`, so the value it hands back is undefined (see
      `Djb2`). */
  method Djb2Accumulate(str: seq<Byte>) returns (hash: Word)
    requires 0 in str
    ensures hash == Hash(CString(str))
  {
    hash := Seed;
    var i := 0;
    while str[i] != 0
      invariant i < |str|
      invariant 0 !in str[..i]
      invariant hash == Hash(str[..i])
      decreases |str| - i
    {
      var c := CharValue(str[i]);
      hash := ShiftAddStep(hash, c);
      HashAppend(str[..i], str[i]);
      assert str[..i + 1] == str[..i] + [str[i]];
      i := i + 1;
    }
    CStringAt(str, i);
  }

  /** djb2 with the return that the comment of its loop body asks for:
      the accumulator reduced to a bucket index of the 127-slot table. */
  method Djb2(str: seq<Byte>) returns (bucket: nat)
    requires 0 in str
    ensures bucket == Bucket(CString(str))
    ensures bucket < TableSize
  {
    var hash := Djb2Accumulate(str);
    bucket := hash % TableSize;
  }

  // ---------------------------------------------------------------------
  // Closed form of djb2
  // ---------------------------------------------------------------------

  function Pow33(n: nat): (p: nat)
    ensures p >= 1
  {
    if n == 0 then 1 else 33 * Pow33(n - 1)
  }

  /** The character part of the djb2 polynomial:
      the sum over i of c_i * 33^(n-1-i) for a string of length n. */
  function Weighted(s: seq<Byte>): (w: int)
  {
    if s == [] then 0 else CharValue(s[0]) * Pow33(|s| - 1) + Weighted(s[1..])
  }

  lemma {:induction false} WeightedAppend(s: seq<Byte>, b: Byte)
    ensures Weighted(s + [b]) == Weighted(s) * 33 + CharValue(b)
  {
    if s == [] {
      assert Weighted([b]) == CharValue(b) * Pow33(0) + Weighted([]);
    } else {
      var t := s[1..];
      assert (s + [b])[1..] == t + [b];
      WeightedAppend(t, b);
      var x := CharValue(s[0]);
      calc {
        Weighted(s + [b]);
        x * Pow33(|s|) + Weighted(t + [b]);
        x * (33 * Pow33(|t|)) + Weighted(t) * 33 + CharValue(b);
        { assert x * (33 * Pow33(|t|)) == (x * Pow33(|t|)) * 33; }
        (x * Pow33(|t|) + Weighted(t)) * 33 + CharValue(b);
        Weighted(s) * 33 + CharValue(b);
      }
    }
  }

  /** djb2 is the polynomial 5381*33^n + sum of c_i*33^(n-1-i), reduced
      modulo 2^32. */
  lemma {:induction false} HashClosedForm(s: seq<Byte>)
    ensures Hash(s) == (Seed * Pow33(|s|) + Weighted(s)) % Modulus
  {
    if s != [] {
      var p, b := s[..|s| - 1], s[|s| - 1];
      assert s == p + [b];
      HashClosedForm(p);
      var x := Seed * Pow33(|p|) + Weighted(p);
      HashAppend(p, b);
      WeightedAppend(p, b);
      calc {
        Hash(s);
        (Hash(p) * 33 + CharValue(b)) % Modulus;
        ((x % Modulus) * 33 + CharValue(b)) % Modulus;
        { ModTimes33(x, CharValue(b)); }
        (x * 33 + CharValue(b)) % Modulus;
        (Seed * Pow33(|s|) + Weighted(s)) % Modulus;
      }
    }
  }

  lemma ModTimes33(x: int, c: int)
    ensures ((x % Modulus) * 33 + c) % Modulus == (x * 33 + c) % Modulus
  {
    var q := x / Modulus;
    assert x * 33 + c == (x % Modulus) * 33 + c + (q * 33) * Modulus;
    ModShift((x % Modulus) * 33 + c, q * 33);
  }

  // ---------------------------------------------------------------------
  // Worked values
  // ---------------------------------------------------------------------

  /** The empty string (first byte NUL) leaves the seed untouched; its
      bucket is 5381 mod 127 = 47. */
  lemma EmptyString(mem: seq<Byte>)
    requires |mem| > 0 && mem[0] == 0
    ensures CString(mem) == []
    ensures Hash(CString(mem)) == Seed
    ensures Bucket(CString(mem)) == 47
  {
  }

  /** A byte above 0x7F is read as a negative `char`: the Latin-1 byte 0xE9
      contributes -23, not 233. */
  lemma HighByteIsSigned()
    ensures Hash([0xE9]) == 177550
    ensures Hash([0xE9]) != (Seed * 33 + 0xE9) % Modulus
  {
    assert [0xE9][..0] == [];
  }

  /** "Italy" lands in bucket 1. */
  lemma ItalyBucket()
    ensures Hash([73, 116, 97, 108, 121]) == 225002472
    ensures Bucket([73, 116, 97, 108, 121]) == 1
  {
    var s: seq<Byte> := [73, 116, 97, 108, 121];
    assert s[..1] == [] + [73] && s[..2] == s[..1] + [116];
    assert s[..3] == s[..2] + [97] && s[..4] == s[..3] + [108];
    assert s == s[..4] + [121];
    HashAppend([], 73);
    HashAppend(s[..1], 116);
    HashAppend(s[..2], 97);
    HashAppend(s[..3], 108);
    HashAppend(s[..4], 121);
    assert Hash(s[..3]) == 193460419;
    ModShift(2089226639, 1);
    assert Hash(s[..4]) == 2089226639;
    ModShift(225002472, 16);
  }

  // ---------------------------------------------------------------------
  // max
  // ---------------------------------------------------------------------

  /** The larger of two integers. */
  function Max(a: Int32, b: Int32): (r: Int32)
    ensures r >= a && r >= b
    ensures r == a || r == b
  {
    if a > b then a else b
  }

  /** Max is the least upper bound of its arguments. */
  lemma MaxIsLeastUpperBound(a: Int32, b: Int32, m: int)
    requires m >= a && m >= b
    ensures Max(a, b) <= m
  {
  }

  /** The argument order does not change the value of Max. */
  lemma MaxCommutes(a: Int32, b: Int32)
    ensures Max(a, b) == Max(b, a)
  {
  }
}
