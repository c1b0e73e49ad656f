/** Machine words, the results of bounded parsing, and the bit operations the sources apply to words. */
module Words {

  /** One more than the greatest u64; usize has the same width on x86_64. */
  const WORD: int := 0x1_0000_0000_0000_0000
  const HALF: int := 0x8000_0000_0000_0000

  type Byte = x: int | 0 <= x < 256
  type Word = x: int | 0 <= x < 0x1_0000_0000_0000_0000
  type SWord = x: int | -0x8000_0000_0000_0000 <= x < 0x8000_0000_0000_0000

  datatype Option<+T> = None | Some(value: T)

  /** A value, or the reason why there is none. */
  datatype Result<+T, +E> = Ok(value: T) | Err(error: E) {
    predicate IsFailure() { Err? }
    function PropagateFailure<U>(): Result<U, E>
      requires Err?
    {
      Err(error)
    }
    function Extract(): T
      requires Ok?
    {
      value
    }
  }

  /** The signed word with the same 64 bits as `x`. */
  function ToSigned(x: int): (r: SWord)
    ensures (r - x) % WORD == 0
  {
    var u := x % WORD;
    if u < HALF then u else u - WORD
  }

  lemma ModIs(x: int, q: int, r: int)
    requires x == q * WORD + r && 0 <= r < WORD
    ensures x % WORD == r
  {
  }

  lemma SameSigned(x: int, y: int, q: int)
    requires x == y + q * WORD
    ensures ToSigned(x) == ToSigned(y)
  {
    ModIs(x, y / WORD + q, y % WORD);
  }

  lemma SignedUnchanged(x: SWord)
    ensures ToSigned(x) == x
  {
    if x < 0 { ModIs(x, -1, x + WORD); } else { ModIs(x, 0, x); }
  }

  /** `wrapping_add` and `wrapping_add_signed`. */
  function WrapAdd(x: Word, y: int): (r: Word) {
    (x + y) % WORD
  }

  function Pow2(n: nat): (p: nat)
    ensures p > 0
  {
    if n == 0 then 1 else 2 * Pow2(n - 1)
  }

  /** Bitwise or of two naturals, bit by bit. */
  function BitOr(a: nat, b: nat): nat
    decreases a + b
  {
    if a == 0 && b == 0 then 0
    else 2 * BitOr(a / 2, b / 2) + (if a % 2 == 1 || b % 2 == 1 then 1 else 0)
  }

  /** `value << shift` on a u64: bits that leave the word are lost. */
  function ShiftLeft(value: Word, shift: nat): (r: Word) {
    value * Pow2(shift) % WORD
  }

  lemma {:induction false} OrZero(b: nat)
    ensures BitOr(0, b) == b
    decreases b
  {
    if b != 0 { OrZero(b / 2); }
  }

  /** The or of two numbers without common bits, the second a multiple of a power of two, is their sum. */
  lemma {:induction false} OrDisjoint(a: nat, b: nat, k: nat)
    requires a < Pow2(k)
    ensures BitOr(a, b * Pow2(k)) == a + b * Pow2(k)
    decreases k
  {
    if k == 0 {
      OrZero(b);
    } else {
      var half := b * Pow2(k - 1);
      assert b * Pow2(k) == 2 * half by { assert Pow2(k) == 2 * Pow2(k - 1); }
      OrDisjoint(a / 2, b, k - 1);
      if a == 0 && half == 0 {
      } else {
        assert (2 * half) / 2 == half && (2 * half) % 2 == 0;
        assert BitOr(a, 2 * half) == 2 * BitOr(a / 2, half) + a % 2;
      }
    }
  }

  /** Bit `k` of a number. */
  predicate BitAt(a: nat, k: nat) {
    if k == 0 then a % 2 == 1 else BitAt(a / 2, k - 1)
  }

  /** Bit `k` of the or is set exactly where it is set in either number. */
  lemma {:induction false} OrBits(a: nat, b: nat, k: nat)
    ensures BitAt(BitOr(a, b), k) <==> BitAt(a, k) || BitAt(b, k)
    decreases k
  {
    OrHalves(a, b);
    hide BitOr;
    if k > 0 { OrBits(a / 2, b / 2, k - 1); }
  }

  lemma OrHalves(a: nat, b: nat)
    ensures BitOr(a, b) / 2 == BitOr(a / 2, b / 2)
    ensures BitOr(a, b) % 2 == 1 <==> a % 2 == 1 || b % 2 == 1
  {
  }

  lemma {:induction false} Pow2Add(m: nat, n: nat)
    ensures Pow2(m + n) == Pow2(m) * Pow2(n)
    decreases m
  {
    if m != 0 {
      Pow2Add(m - 1, n);
      assert Pow2(m + n) == 2 * Pow2(m - 1 + n);
    }
  }

  /** The powers of two at which the LEB128 and fixed-width readers stop. */
  lemma Powers()
    ensures Pow2(7) == 128 && Pow2(63) == HALF && Pow2(64) == WORD
  {
    assert Pow2(7) == 128;
    Pow2Add(7, 7);
    assert Pow2(14) == 0x4000;
    Pow2Add(14, 14);
    assert Pow2(28) == 0x1000_0000;
    Pow2Add(28, 28);
    assert Pow2(56) == 0x100_0000_0000_0000;
    Pow2Add(56, 7);
    Pow2Add(63, 1);
    assert Pow2(1) == 2;
  }
}
