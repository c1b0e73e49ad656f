/**
 * Bounded LEB128 readers (section 7.6 of DWARF Version 5), their closed-form meaning and their encoders.
 *
 * A reader takes the remaining bytes and returns the bytes it leaves unread together with the value.
 */
module Leb128 {
  import opened Words

  datatype LsdaError = Eof | Encoding | Base | Overflow | Table | Loop

  type Bytes = seq<Byte>
  type Parse<+T> = Result<(Bytes, T), LsdaError>

  // ---- What a field of 7-bit groups means ----

  /** The number of leading bytes whose continuation bit is set. */
  function Continued(input: Bytes): (n: nat)
    ensures n <= |input|
    ensures forall i | 0 <= i < n :: input[i] >= 128
    ensures n < |input| ==> input[n] < 128
  {
    if input == [] || input[0] < 128 then 0 else 1 + Continued(input[1..])
  }

  /** The unbounded number spelled by the 7-bit groups, least significant first. */
  function GroupSum(groups: Bytes): nat {
    if groups == [] then 0 else groups[0] % 128 + 128 * GroupSum(groups[1..])
  }

  /** The same groups read as two's complement: bit 6 of the last group is the sign. */
  function SignedSum(groups: Bytes): int {
    if groups != [] && groups[|groups| - 1] % 128 >= 64
    then GroupSum(groups) - Pow2(7 * |groups|)
    else GroupSum(groups)
  }

  /** What reading an unsigned field means: at most ten groups whose sum is below 2^64. */
  function Uleb(input: Bytes): (r: Parse<Word>)
    ensures r.Ok? ==> |r.value.0| < |input|
  {
    var n := Continued(input);
    if n >= 9 && |input| > 9 && input[9] % 128 > 1 then Err(Overflow)
    else if n >= 10 && |input| > 10 then Err(Overflow)
    else if n == |input| then Err(Eof)
    else
      GroupSumFits(input, n);
      Ok((input[n + 1..], GroupSum(input[..n + 1])))
  }

  /** What reading a signed field means: at most ten groups, wrapped to 64 bits. */
  function Sleb(input: Bytes): (r: Parse<SWord>)
    ensures r.Ok? ==> |r.value.0| < |input|
  {
    var n := Continued(input);
    if n >= 10 && |input| > 10 then Err(Overflow)
    else if n == |input| then Err(Eof)
    else Ok((input[n + 1..], ToSigned(SignedSum(input[..n + 1]))))
  }

  // ---- Sums of groups ----

  lemma {:induction false} GroupSumBound(groups: Bytes)
    ensures GroupSum(groups) < Pow2(7 * |groups|)
    decreases |groups|
  {
    if groups != [] {
      GroupSumBound(groups[1..]);
      Powers();
      Pow2Add(7, 7 * (|groups| - 1));
    }
  }

  lemma {:induction false} GroupSumSnoc(groups: Bytes, octet: Byte)
    ensures GroupSum(groups + [octet]) == GroupSum(groups) + octet % 128 * Pow2(7 * |groups|)
    decreases |groups|
  {
    if groups == [] {
      assert (groups + [octet])[1..] == [];
      assert Pow2(0) == 1;
    } else {
      GroupSumSnoc(groups[1..], octet);
      assert (groups + [octet])[1..] == groups[1..] + [octet];
      Powers();
      Pow2Add(7, 7 * (|groups| - 1));
      assert 128 * (octet % 128 * Pow2(7 * (|groups| - 1))) == octet % 128 * Pow2(7 * |groups|);
    }
  }

  lemma PowMonotone(m: nat, n: nat)
    requires m <= n
    ensures Pow2(m) <= Pow2(n)
  {
    if m < n { PowMonotone(m, n - 1); }
  }

  /** Nine groups are below 2^63, and a tenth group of at most one keeps the sum below 2^64. */
  lemma GroupSumFits(input: Bytes, n: nat)
    requires n < |input|
    requires n < 9 || (n == 9 && input[9] % 128 <= 1)
    ensures GroupSum(input[..n + 1]) < WORD
  {
    Powers();
    if n < 9 {
      GroupSumBound(input[..n + 1]);
      PowMonotone(7 * (n + 1), 63);
    } else {
      GroupSumBound(input[..9]);
      assert input[..10] == input[..9] + [input[9]];
      GroupSumSnoc(input[..9], input[9]);
    }
  }

  /** The continuation count is the index of the first byte that ends the field. */
  lemma {:induction false} ContinuedIs(input: Bytes, n: nat)
    requires n <= |input|
    requires forall i | 0 <= i < n :: input[i] >= 128
    ensures Continued(input) >= n
    ensures n < |input| && input[n] < 128 ==> Continued(input) == n
  {
    if n > 0 { ContinuedIs(input[1..], n - 1); }
  }

  // ---- The loops of the source ----

  /** Reads an unsigned field octet by octet. */
  method ReadUleb(bytes: Bytes) returns (r: Parse<Word>)
    ensures r == Uleb(bytes)
  {
    assert bytes[..0] == [] && GroupSum([]) == 0;
    hide GroupSum, BitOr, ShiftLeft, Uleb, Continued;
    var input := bytes;
    var value: Word := 0;
    var shift: nat := 0;
    ghost var k: nat := 0;
    while true
      invariant k <= Continued(bytes) && k <= 10 && input == bytes[k..] && shift == 7 * k
      invariant value == GroupSum(bytes[..k])
      invariant k == 10 ==> bytes[9] % 128 <= 1
      decreases |input|
    {
      UlebExits(bytes, k);
      if input == [] {
        return Err(Eof);
      }
      var octet, rest := input[0], input[1..];
      assert octet == bytes[k] && rest == bytes[k + 1..];
      var payload := octet % 128;
      var fits := if shift == 63 then payload <= 1 else shift <= 62;
      if !fits {
        return Err(Overflow);
      }
      UlebStep(bytes, k);
      value := BitOr(value, ShiftLeft(payload, shift));
      input := rest;
      if octet < 128 {
        return Ok((input, value));
      }
      shift := shift + 7;
      k := k + 1;
    }
  }

  /** What the reader gives at byte `k`, when every byte in front of it is continued. */
  lemma UlebExits(bytes: Bytes, k: nat)
    requires k <= Continued(bytes) && k <= 10 && (k == 10 ==> bytes[9] % 128 <= 1)
    ensures k == |bytes| ==> Uleb(bytes) == Err(Eof)
    ensures k < |bytes| && (k == 10 || (k == 9 && bytes[9] % 128 > 1)) ==> Uleb(bytes) == Err(Overflow)
    ensures k < |bytes| && bytes[k] >= 128 ==> k + 1 <= Continued(bytes)
    ensures k < |bytes| && bytes[k] < 128 && k < 10 && (k == 9 ==> bytes[9] % 128 <= 1) ==>
              Uleb(bytes) == Ok((bytes[k + 1..], GroupSum(bytes[..k + 1])))
  {
    hide GroupSum;
    if k < |bytes| && bytes[k] < 128 { assert Continued(bytes) == k; }
  }

  /** One octet that fits adds exactly its own group to the sum. */
  lemma UlebStep(bytes: Bytes, k: nat)
    requires k < |bytes|
    requires k < 9 || (k == 9 && bytes[9] % 128 <= 1)
    ensures var shifted := ShiftLeft(bytes[k] % 128, 7 * k);
            && BitOr(GroupSum(bytes[..k]), shifted) == GroupSum(bytes[..k + 1]) < WORD
  {
    var low := GroupSum(bytes[..k]);
    var added := bytes[k] % 128 * Pow2(7 * k);
    assert low + added == GroupSum(bytes[..k + 1]) < WORD by {
      assert bytes[..k + 1] == bytes[..k] + [bytes[k]];
      GroupSumSnoc(bytes[..k], bytes[k]);
      GroupSumFits(bytes, k);
    }
    ModIs(added, 0, added);
    assert BitOr(low, added) == low + added by {
      GroupSumBound(bytes[..k]);
      OrDisjoint(low, bytes[k] % 128, 7 * k);
    }
  }

  /** Reads a signed field octet by octet, then extends the sign of the last group. */
  method ReadSleb(bytes: Bytes) returns (r: Parse<SWord>)
    ensures r == Sleb(bytes)
  {
    var input := bytes;
    var value: Word := 0;
    var shift: nat := 0;
    var terminal: Byte := 0;
    ghost var k: nat := 0;
    while true
      invariant k <= Continued(bytes) && k <= 10 && input == bytes[k..] && shift == 7 * k
      invariant value == GroupSum(bytes[..k]) % WORD
      decreases |input|
    {
      if input == [] {
        return Err(Eof);
      }
      var octet, rest := input[0], input[1..];
      assert octet == bytes[k];
      var payload := octet % 128;
      if shift >= 64 {
        return Err(Overflow);
      }
      SlebStep(bytes, k);
      value := BitOr(value, ShiftLeft(payload, shift));
      shift := shift + 7;
      input := rest;
      if octet < 128 {
        terminal := octet;
        break;
      }
      k := k + 1;
    }
    assert Sleb(bytes) == Ok((input, ToSigned(SignedSum(bytes[..k + 1]))));
    SignExtension(bytes[..k + 1], value);
    return Ok((input, ToSigned(Extend(value, shift, terminal))));
  }

  /** The tenth group keeps only its lowest bit. */
  lemma TopGroup(low: nat, payload: nat)
    requires low < HALF && payload < 128
    ensures BitOr(low, payload * HALF % WORD) == (low + payload * HALF) % WORD
  {
    var half, bit := payload / 2, payload % 2;
    var top := bit * HALF;
    assert top == (if bit == 0 then 0 else HALF);
    assert payload * HALF == half * WORD + top;
    ModIs(payload * HALF, half, top);
    ModIs(low + payload * HALF, half, low + top);
    assert BitOr(low, top) == low + top by {
      Powers();
      OrDisjoint(low, bit, 63);
    }
  }

  /** One octet adds its own group to the sum, keeping the low 64 bits. */
  lemma SlebStep(bytes: Bytes, k: nat)
    requires k < |bytes| && k < 10
    ensures var shifted := ShiftLeft(bytes[k] % 128, 7 * k);
            && BitOr(GroupSum(bytes[..k]) % WORD, shifted) == GroupSum(bytes[..k + 1]) % WORD
  {
    var low := GroupSum(bytes[..k]);
    assert low < HALF by {
      GroupSumBound(bytes[..k]);
      Powers();
      PowMonotone(7 * k, 63);
    }
    ModIs(low, 0, low);
    if k < 9 {
      UlebStep(bytes, k);
      ModIs(GroupSum(bytes[..k + 1]), 0, GroupSum(bytes[..k + 1]));
    } else {
      assert bytes[..k + 1] == bytes[..k] + [bytes[k]];
      GroupSumSnoc(bytes[..k], bytes[k]);
      Powers();
      TopGroup(low, bytes[k] % 128);
    }
  }

  lemma Distribute(w: int, p: int)
    ensures (w - 1) * p == w * p - p == (p - 1) * w + (w - p)
  {
  }

  /** Setting every bit from `shift` upward subtracts 2^shift, up to multiples of 2^64. */
  lemma FillAbove(value: nat, shift: nat)
    requires shift < 64 && value < Pow2(shift)
    ensures BitOr(value, ShiftLeft(WORD - 1, shift)) == value + WORD - Pow2(shift) < WORD
  {
    var p := Pow2(shift);
    var ones := Pow2(64 - shift) - 1;
    assert Pow2(64 - shift) * p == WORD by {
      Powers();
      Pow2Add(64 - shift, shift);
    }
    assert p <= HALF by {
      Powers();
      PowMonotone(shift, 63);
    }
    Distribute(WORD, p);
    Distribute(ones + 1, p);
    ModIs((WORD - 1) * p, p - 1, WORD - p);
    OrDisjoint(value, ones, shift);
  }

  /** Copies the sign bit of the last group into the bits above it. */
  function Extend(value: Word, shift: nat, terminal: Byte): nat {
    if shift < 64 && terminal % 128 >= 64 then BitOr(value, ShiftLeft(WORD - 1, shift)) else value
  }

  /** Filling the bits above the last group spells the two's complement sum, up to multiples of 2^64. */
  lemma SignExtension(groups: Bytes, value: Word)
    requires 0 < |groups| <= 10
    requires value == GroupSum(groups) % WORD
    ensures var extended := Extend(value, 7 * |groups|, groups[|groups| - 1]);
            extended < WORD && ToSigned(extended) == ToSigned(SignedSum(groups))
  {
    var shift := 7 * |groups|;
    var sum := GroupSum(groups);
    SameSigned(value, sum, -(sum / WORD));
    if groups[|groups| - 1] % 128 >= 64 {
      if shift < 64 {
        assert sum < Pow2(shift) <= HALF by {
          GroupSumBound(groups);
          Powers();
          PowMonotone(shift, 63);
        }
        assert value == sum by { ModIs(sum, 0, sum); }
        FillAbove(sum, shift);
        SameSigned(sum + WORD - Pow2(shift), sum - Pow2(shift), 1);
      } else {
        assert Pow2(70) == 64 * WORD by {
          Powers();
          Pow2Add(64, 6);
          assert Pow2(6) == 64;
        }
        SameSigned(sum - 64 * WORD, sum, -64);
      }
    }
  }

  // ---- Encoders, and that reading inverts them ----

  /** The shortest unsigned encoding. */
  function EncodeUleb(value: nat): (r: Bytes)
    ensures r != []
  {
    if value < 128 then [value] else [value % 128 + 128] + EncodeUleb(value / 128)
  }

  /** The shortest signed encoding: groups until the rest is the sign of the last group. */
  function EncodeSleb(value: int): (r: Bytes)
    ensures r != []
    decreases if value < 0 then -value else value
  {
    if -64 <= value < 64 then [value % 128] else [value % 128 + 128] + EncodeSleb(value / 128)
  }

  lemma {:induction false} EncodeUlebContinued(value: nat, tail: Bytes)
    ensures Continued(EncodeUleb(value) + tail) == |EncodeUleb(value)| - 1
    decreases value
  {
    var e := EncodeUleb(value);
    if value >= 128 {
      EncodeUlebContinued(value / 128, tail);
      assert (e + tail)[1..] == EncodeUleb(value / 128) + tail;
    }
  }

  lemma {:induction false} EncodeUlebSum(value: nat)
    ensures GroupSum(EncodeUleb(value)) == value
    decreases value
  {
    if value >= 128 {
      EncodeUlebSum(value / 128);
      assert EncodeUleb(value)[1..] == EncodeUleb(value / 128);
    }
  }

  lemma {:induction false} EncodeUlebLength(value: nat, k: nat)
    requires k > 0 && value < Pow2(7 * k)
    ensures |EncodeUleb(value)| <= k
    decreases k
  {
    if value >= 128 {
      Powers();
      Pow2Add(7, 7 * (k - 1));
      EncodeUlebLength(value / 128, k - 1);
    }
  }

  /** Reading an encoded u64 gives it back and leaves exactly what follows it. */
  lemma UlebInverts(value: Word, tail: Bytes)
    ensures Uleb(EncodeUleb(value) + tail) == Ok((tail, value))
  {
    var e := EncodeUleb(value);
    EncodeUlebContinued(value, tail);
    EncodeUlebSum(value);
    assert |e| <= 10 by {
      Powers();
      PowMonotone(64, 70);
      EncodeUlebLength(value, 10);
    }
    assert (e + tail)[..|e|] == e && (e + tail)[|e|..] == tail;
    if |e| == 10 {
      assert value >= e[9] % 128 * Pow2(63) by {
        assert e == e[..9] + [e[9]];
        GroupSumSnoc(e[..9], e[9]);
      }
      Powers();
    }
  }

  /** One complete field: every byte but the last has its continuation bit set. */
  predicate IsField(groups: Bytes) {
    && groups != [] && groups[|groups| - 1] < 128
    && forall i | 0 <= i < |groups| - 1 :: groups[i] >= 128
  }

  /** The tenth group of a sum that fits 64 bits is zero or one. */
  lemma TenthGroupFits(groups: Bytes)
    requires |groups| == 10
    ensures GroupSum(groups) < WORD <==> groups[9] % 128 <= 1
  {
    hide GroupSum, Pow2;
    var low, top := GroupSum(groups[..9]), groups[9] % 128;
    assert low < HALF && GroupSum(groups) == low + top * HALF by {
      Powers();
      GroupSumBound(groups[..9]);
      GroupSumSnoc(groups[..9], groups[9]);
      assert groups == groups[..9] + [groups[9]];
    }
  }

  /**
   * The unsigned reader accepts exactly the fields of at most ten groups whose sum fits 64 bits. It returns the
   * exact sum and the exact unread suffix, and every other complete field is an overflow.
   */
  lemma UlebIff(groups: Bytes, rest: Bytes)
    requires IsField(groups)
    ensures Uleb(groups + rest)
            == if |groups| <= 10 && GroupSum(groups) < WORD then Ok((rest, GroupSum(groups))) else Err(Overflow)
  {
    hide GroupSum, Continued;
    var input, n := groups + rest, |groups| - 1;
    assert forall i | 0 <= i <= n :: input[i] == groups[i];
    ContinuedIs(input, n);
    assert input[..n + 1] == groups && input[n + 1..] == rest;
    if n == 9 {
      TenthGroupFits(groups);
    } else if n < 9 {
      GroupSumFits(input, n);
    }
  }

  /** An unsigned field that never ends is not read: the input is too short, or ten bytes have gone by. */
  lemma UlebUnfinished(input: Bytes)
    requires forall i | 0 <= i < |input| :: input[i] >= 128
    ensures Uleb(input) == if |input| > 10 || (|input| == 10 && input[9] % 128 > 1) then Err(Overflow) else Err(Eof)
  {
    ContinuedIs(input, |input|);
  }

  /** A further group in front scales the two's complement sum of the rest. */
  lemma SignedSumCons(octet: Byte, groups: Bytes)
    requires groups != []
    ensures SignedSum([octet] + groups) == octet % 128 + 128 * SignedSum(groups)
  {
    var all := [octet] + groups;
    assert all[1..] == groups;
    assert Pow2(7 * |all|) == 128 * Pow2(7 * |groups|) by {
      Powers();
      Pow2Add(7, 7 * |groups|);
    }
  }

  lemma SignedSumSingle(value: int)
    requires -64 <= value < 64
    ensures SignedSum([value % 128]) == value
  {
    var octet := value % 128;
    assert octet == if value < 0 then value + 128 else value;
    var groups := [octet];
    assert groups[1..] == [] && GroupSum(groups) == octet;
    Powers();
    assert SignedSum(groups) == if octet >= 64 then octet - Pow2(7) else octet;
  }

  /** The signed field of exactly `width` groups. */
  function SpellSleb(value: int, width: nat): (r: Bytes)
    requires width > 0
    ensures |r| == width
    decreases width
  {
    if width == 1 then [value % 128] else [value % 128 + 128] + SpellSleb(value / 128, width - 1)
  }

  /** Whether that many groups can hold the value. */
  predicate Spellable(value: int, width: nat) {
    0 < width <= 10 && -(Pow2(7 * width - 1) as int) <= value < Pow2(7 * width - 1)
  }

  lemma {:induction false} SpelledContinued(value: int, width: nat, tail: Bytes)
    requires width > 0
    ensures Continued(SpellSleb(value, width) + tail) == width - 1
    decreases width
  {
    if width > 1 {
      SpelledContinued(value / 128, width - 1, tail);
      assert (SpellSleb(value, width) + tail)[1..] == SpellSleb(value / 128, width - 1) + tail;
    }
  }

  /** The value without its lowest group needs one group less. */
  lemma SpellableRest(value: int, width: nat)
    requires Spellable(value, width)
    ensures width == 1 ==> -64 <= value < 64
    ensures width > 1 ==> Spellable(value / 128, width - 1)
  {
    assert Pow2(6) == 64;
    if width > 1 {
      Powers();
      Pow2Add(7, 7 * (width - 1) - 1);
      hide Pow2;
    }
  }

  lemma {:induction false} SpelledSum(value: int, width: nat)
    requires Spellable(value, width)
    ensures SignedSum(SpellSleb(value, width)) == value
    decreases width
  {
    hide Spellable, SignedSum, Pow2;
    SpellableRest(value, width);
    SpellableWidth(value, width);
    if width == 1 {
      SignedSumSingle(value);
    } else {
      SpelledSum(value / 128, width - 1);
      SignedSumCons(value % 128 + 128, SpellSleb(value / 128, width - 1));
    }
  }

  lemma SpellableWidth(value: int, width: nat)
    requires Spellable(value, width)
    ensures 0 < width <= 10
  {
  }

  /** Reading a field of any width that holds the value gives it back and leaves exactly what follows it. */
  lemma SpelledInverts(value: SWord, width: nat, tail: Bytes)
    requires Spellable(value, width)
    ensures Sleb(SpellSleb(value, width) + tail) == Ok((tail, value))
  {
    hide SignedSum, Continued, Pow2;
    var e := SpellSleb(value, width);
    SpelledContinued(value, width, tail);
    SpelledSum(value, width);
    assert (e + tail)[..|e|] == e && (e + tail)[|e|..] == tail;
    SignedUnchanged(value);
  }

  /** The shortest encoding is the spelling with the fewest groups that hold the value. */
  lemma {:induction false} ShortestSpelling(value: int, k: nat)
    requires Spellable(value, k)
    ensures var n := |EncodeSleb(value)|;
            n <= k && Spellable(value, n) && EncodeSleb(value) == SpellSleb(value, n)
    decreases k
  {
    hide Pow2;
    if -64 <= value < 64 {
      assert Pow2(6) == 64 by { SixBits(); }
    } else {
      SpellableRest(value, k);
      SpellableWidth(value, k);
      ShortestSpelling(value / 128, k - 1);
      SpellableMore(value, |EncodeSleb(value / 128)|);
    }
  }

  lemma SixBits()
    ensures Pow2(6) == 64
  {
  }

  lemma SpellableMore(value: int, width: nat)
    requires Spellable(value / 128, width) && width < 10
    ensures Spellable(value, width + 1)
  {
    Powers();
    Pow2Add(7, 7 * width - 1);
    hide Pow2;
  }

  /** Reading an encoded i64 gives it back and leaves exactly what follows it. */
  lemma SlebInverts(value: SWord, tail: Bytes)
    ensures Sleb(EncodeSleb(value) + tail) == Ok((tail, value))
  {
    hide Sleb, EncodeSleb, SpellSleb;
    Powers();
    PowMonotone(63, 69);
    hide Pow2;
    ShortestSpelling(value, 10);
    SpelledInverts(value, |EncodeSleb(value)|, tail);
  }

  /**
   * The sum of the groups decides the value up to multiples of 2^64, and it is the value exactly when it
   * fits an i64: a tenth group may carry bits that the reader drops without an error.
   */
  lemma SlebExactIff(input: Bytes)
    requires Sleb(input).Ok?
    ensures var (rest, value) := Sleb(input).value;
            var groups := input[..|input| - |rest|];
            && 0 < |groups| <= 10 && input == groups + rest
            && (value - SignedSum(groups)) % WORD == 0
            && (value == SignedSum(groups) <==> -HALF <= SignedSum(groups) < HALF)
  {
    var (rest, value) := Sleb(input).value;
    var groups := input[..|input| - |rest|];
    assert groups == input[..Continued(input) + 1];
    var sum := SignedSum(groups);
    if -HALF <= sum < HALF { SignedUnchanged(sum); }
  }

  /** The signed reader accepts exactly the complete fields of at most ten groups, with their sum wrapped to 64 bits. */
  lemma SlebIff(groups: Bytes, rest: Bytes)
    requires IsField(groups)
    ensures Sleb(groups + rest)
            == if |groups| <= 10 then Ok((rest, ToSigned(SignedSum(groups)))) else Err(Overflow)
  {
    hide SignedSum, Continued;
    var input, n := groups + rest, |groups| - 1;
    assert forall i | 0 <= i <= n :: input[i] == groups[i];
    ContinuedIs(input, n);
    assert input[..n + 1] == groups && input[n + 1..] == rest;
  }

  /** A signed field that never ends is not read: the input is too short, or ten bytes have gone by. */
  lemma SlebUnfinished(input: Bytes)
    requires forall i | 0 <= i < |input| :: input[i] >= 128
    ensures Sleb(input) == if |input| > 10 then Err(Overflow) else Err(Eof)
  {
    ContinuedIs(input, |input|);
  }

  /** Ten groups that spell 2^64 are read as zero. */
  lemma SlebDropsHighBits()
    ensures exists input: Bytes :: Sleb(input) == Ok(([], 0)) && SignedSum(input) == WORD
  {
    var nine: Bytes := seq(9, _ => 128);
    var input := nine + [2];
    ContinuedIs(input, 9);
    assert input[..10] == input;
    assert GroupSum(nine) == 0 by { ZeroGroups(nine); }
    assert GroupSum(input) == WORD by {
      GroupSumSnoc(nine, 2);
      Powers();
    }
    assert SignedSum(input) == WORD && Continued(input) == 9 && input[10..] == [];
    SameSigned(WORD, 0, 1);
    SignedUnchanged(0);
    assert Sleb(input) == Ok(([], 0)) && SignedSum(input) == WORD;
  }

  lemma {:induction false} ZeroGroups(groups: Bytes)
    requires forall i | 0 <= i < |groups| :: groups[i] == 128
    ensures GroupSum(groups) == 0
  {
    if groups != [] { ZeroGroups(groups[1..]); }
  }
}
