/**
 * The key hash of the dictionary: Daniel J. Bernstein's multiplicative hash
 * (dict.c `djb_hash`). The accumulator is an `unsigned long`, taken to be 64 bits
 * wide, so every step wraps modulo 2^64.
 */
module Djb {

  /** A key byte, read as `unsigned char`. */
  newtype Byte = b: int | 0 <= b < 256

  /** Keys are compared by length and content only, so a key is its byte sequence. */
  type Key = seq<Byte>

  /** 2^64: `unsigned long` arithmetic is taken modulo this. */
  const WORD: nat := 0x1_0000_0000_0000_0000

  /** Initial value of the accumulator. */
  const SEED: nat := 5381

  /** One step of the hash as its comment states it: `hash * 33 + c`, wrapped. */
  function Step(h: nat, c: Byte): nat
  {
    (h * 33 + c as nat) % WORD
  }

  /** Runs `Step` over `key` from accumulator `h`, first byte first. */
  function HashFrom(h: nat, key: Key): (r: nat)
    requires h < WORD
    ensures r < WORD
    decreases |key|
  {
    if |key| == 0 then h else HashFrom(Step(h, key[0]), key[1..])
  }

  /** The hash of a key. */
  function DjbHash(key: Key): (h: nat)
    ensures h < WORD
    ensures |key| == 0 ==> h == SEED
  {
    HashFrom(SEED, key)
  }

  /** The hash without wrap-around: 5381 * 33^n + sum of key[i] * 33^(n-1-i). */
  function Polynomial(key: Key): nat
    decreases |key|
  {
    if |key| == 0 then SEED else Polynomial(key[..|key| - 1]) * 33 + key[|key| - 1] as nat
  }

  /** Appending a byte to a key applies one more step to its hash. */
  lemma {:induction false} HashFromAppend(h: nat, key: Key, c: Byte)
    requires h < WORD
    ensures HashFrom(h, key + [c]) == Step(HashFrom(h, key), c)
    decreases |key|
  {
    if |key| == 0 {
      assert key + [c] == [c];
      assert [c][1..] == [];
    } else {
      assert (key + [c])[1..] == key[1..] + [c];
      HashFromAppend(Step(h, key[0]), key[1..], c);
    }
  }

  /** Wrapping before or after the multiply-add gives the same residue. */
  lemma WrapThenStep(a: nat, c: Byte)
    ensures Step(a % WORD, c) == (a * 33 + c as nat) % WORD
  {
    var q := a / WORD;
    var r := a % WORD;
    assert a == q * WORD + r;
    assert a * 33 + c as nat == (r * 33 + c as nat) + (33 * q) * WORD;
    AddMultiple(r * 33 + c as nat, 33 * q);
  }

  lemma AddMultiple(x: nat, m: nat)
    ensures (x + m * WORD) % WORD == x % WORD
  {
  }

  /**
   * The wrapping fold computes the exact polynomial reduced once modulo 2^64:
   * wrapping at every step loses nothing.
   */
  lemma {:induction false} HashIsPolynomial(key: Key)
    ensures DjbHash(key) == Polynomial(key) % WORD
    decreases |key|
  {
    if |key| == 0 {
    } else {
      var init := key[..|key| - 1];
      var c := key[|key| - 1];
      assert key == init + [c];
      HashFromAppend(SEED, init, c);
      HashIsPolynomial(init);
      WrapThenStep(Polynomial(init), c);
    }
  }

  /** `hash << 5` on a 64-bit word. */
  function Shl5(h: nat): nat
  {
    (h * 32) % WORD
  }

  /** `a + b` on 64-bit words. */
  function AddWord(a: nat, b: nat): nat
  {
    (a + b) % WORD
  }

  /** The shift-and-add form written in the loop equals the multiply-add step. */
  lemma ShiftAddIsStep(h: nat, c: Byte)
    requires h < WORD
    ensures AddWord(AddWord(Shl5(h), h), c as nat) == Step(h, c)
  {
    var s := h * 32;
    assert s == (s / WORD) * WORD + Shl5(h);
    var x := Shl5(h) + h;
    assert x == (x / WORD) * WORD + AddWord(Shl5(h), h);
    assert h * 33 + c as nat == (AddWord(Shl5(h), h) + c as nat) + (s / WORD + x / WORD) * WORD;
    AddMultiple(AddWord(Shl5(h), h) + c as nat, s / WORD + x / WORD);
  }

  /**
   * The loop of `djb_hash` as written: start from 5381 and, for each byte,
   * `hash = ((hash << 5) + hash) + c` with 64-bit wrap-around.
   */
  method HashLoop(key: Key) returns (h: nat)
    ensures h == DjbHash(key)
    ensures h == Polynomial(key) % WORD
  {
    h := SEED;
    var i := 0;
    while i < |key|
      invariant 0 <= i <= |key|
      invariant h == DjbHash(key[..i])
    {
      ShiftAddIsStep(h, key[i]);
      HashFromAppend(SEED, key[..i], key[i]);
      assert key[..i + 1] == key[..i] + [key[i]];
      h := AddWord(AddWord(Shl5(h), h), key[i] as nat);
      i := i + 1;
    }
    assert key[..i] == key;
    HashIsPolynomial(key);
  }
}
