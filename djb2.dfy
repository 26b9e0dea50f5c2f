/**
 * The DJB2 string hash that places a key in one bucket of the table.
 *
 * Keys are C strings: sequences of bytes with no NUL byte (the terminator is
 * the end of the sequence). The accumulator is a 64-bit `unsigned long` whose
 * arithmetic wraps modulo 2^64; each byte is read through a plain `char`,
 * taken here as signed (as on x86-64 Linux), so a byte b >= 128 contributes
 * b - 256 before the usual conversion to `unsigned long`.
 */
module Djb2 {

  newtype byte = b: int | 0 <= b < 256

  /** A C string holds no NUL byte before its terminator. */
  predicate IsCString(s: seq<byte>)
  {
    forall i | 0 <= i < |s| :: s[i] != 0
  }

  /** The text of a C string, without its terminating NUL. */
  type Text = s: seq<byte> | IsCString(s)

  /** 2^64: the number of values of a 64-bit `unsigned long`. */
  const ULongRange: int := 0x1_0000_0000_0000_0000

  /** The initial value of the accumulator. */
  const Seed: nat := 5381

  /** The value of byte `b` read through a signed `char` into an `int`. */
  function CharValue(b: byte): (c: int)
    ensures -128 <= c < 128
    ensures c % 256 == b as int
  {
    if b < 128 then b as int else b as int - 256
  }

  /** Conversion of an `int` to `unsigned long`: reduction modulo 2^64. */
  function ToULong(x: int): (u: nat)
    ensures u < ULongRange
    ensures (x - u) % ULongRange == 0
  {
    x % ULongRange
  }

  /**
   * One step of the loop as the C expression `((hash << 5) + hash) + c`
   * evaluates it: the shift, and each of the two additions, wrap modulo 2^64.
   */
  function ShiftAddStep(acc: nat, c: int): (r: nat)
  {
    ((acc * 32 % ULongRange + acc) % ULongRange + ToULong(c)) % ULongRange
  }

  /** One step of DJB2 as an arithmetic definition: acc * 33 + c, modulo 2^64. */
  function Step(acc: nat, b: byte): (r: nat)
    ensures r < ULongRange
  {
    (acc * 33 + CharValue(b)) % ULongRange
  }

  /** The accumulator after folding `Step` over `s` from left to right, starting at `acc`. */
  function Djb2From(acc: nat, s: seq<byte>): (r: nat)
    ensures acc < ULongRange ==> r < ULongRange
    ensures s != [] ==> r < ULongRange
    decreases |s|
  {
    if s == [] then acc else Djb2From(Step(acc, s[0]), s[1..])
  }

  /** The full 64-bit DJB2 value of a key. */
  function Djb2Value(s: seq<byte>): (r: nat)
    ensures r < ULongRange
  {
    Djb2From(Seed, s)
  }

  /** The bucket index of key `s` in a table of `n` buckets. */
  function Hash(s: seq<byte>, n: int): (r: nat)
    requires n > 0
    ensures r < n
  {
    Djb2Value(s) % n
  }

  /** Reducing a summand modulo 2^64 first does not change a sum taken modulo 2^64. */
  lemma ModAddLeft(a: int, b: int)
    ensures (a % ULongRange + b) % ULongRange == (a + b) % ULongRange
  {
    var q := a / ULongRange;
    assert a == q * ULongRange + a % ULongRange;
  }

  /** The shift-and-add of the C code computes acc * 33 + c modulo 2^64. */
  lemma {:induction false} ShiftAddIsStep(acc: nat, b: byte)
    ensures ShiftAddStep(acc, CharValue(b)) == Step(acc, b)
  {
    var c := CharValue(b);
    var m := ULongRange;
    calc {
      ShiftAddStep(acc, c);
      ((acc * 32 % m + acc) % m + ToULong(c)) % m;
      { ModAddLeft(acc * 32 % m + acc, ToULong(c)); }
      (acc * 32 % m + acc + ToULong(c)) % m;
      { ModAddLeft(acc * 32, acc + ToULong(c)); }
      (acc * 32 + acc + ToULong(c)) % m;
      { ModAddLeft(c, acc * 32 + acc); }
      (acc * 33 + c) % m;
    }
  }

  /** Hashing a concatenation continues from the accumulator reached after the prefix. */
  lemma {:induction false} Djb2FromAppend(acc: nat, s: seq<byte>, t: seq<byte>)
    ensures Djb2From(acc, s + t) == Djb2From(Djb2From(acc, s), t)
    decreases |s|
  {
    if s == [] {
      assert s + t == t;
    } else {
      assert (s + t)[1..] == s[1..] + t;
      Djb2FromAppend(Step(acc, s[0]), s[1..], t);
    }
  }

  /** DJB2 is a left fold: appending a byte applies one more step to the previous value. */
  lemma Djb2Snoc(s: seq<byte>, b: byte)
    ensures Djb2Value(s + [b]) == Step(Djb2Value(s), b)
  {
    Djb2FromAppend(Seed, s, [b]);
  }

  /**
   * Reading the hash off a trace: if `accs` lists the accumulator before each
   * byte of `s` and after the last one, the fold ends at the trace's last entry.
   */
  lemma {:induction false} Djb2FromTrace(acc: nat, s: seq<byte>, accs: seq<nat>)
    requires |accs| == |s| + 1 && accs[0] == acc
    requires forall i | 0 <= i < |s| :: Step(accs[i], s[i]) == accs[i + 1]
    ensures Djb2From(acc, s) == accs[|s|]
    decreases |s|
  {
    if s != [] {
      Djb2FromTrace(accs[1], s[1..], accs[1..]);
    }
  }

  /** The empty key lands in bucket 5381 mod n. */
  lemma HashOfEmpty(n: int)
    requires n > 0
    ensures Hash([], n) == 5381 % n
  {
  }

  /**
   * `hash` (the C function): walks the key byte by byte, updating the
   * accumulator with the shift-and-add expression, and reduces it modulo
   * the table size.
   */
  method HashIndex(word: Text, tableSize: int) returns (index: nat)
    requires tableSize > 0
    ensures index < tableSize
    ensures index == Hash(word, tableSize)
  {
    var acc: nat := Seed;
    var i := 0;
    assert word[i..] == word;
    while i < |word|
      invariant 0 <= i <= |word|
      invariant acc < ULongRange
      invariant Djb2From(acc, word[i..]) == Djb2Value(word)
    {
      var c := CharValue(word[i]);
      ShiftAddIsStep(acc, word[i]);
      assert word[i..][1..] == word[i + 1..];
      acc := ShiftAddStep(acc, c);
      i := i + 1;
    }
    index := acc % tableSize;
  }
}
