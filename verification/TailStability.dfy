/**
 * Bytes after a table change no success.
 *
 * Callers bound a table by the end of its section, so the readers see the table and whatever follows it.
 * Everything that succeeds on a byte range succeeds with the same result on that range plus any tail.
 */
module TailStability {
  import opened Words
  import opened Leb128
  import opened Encoding
  import opened Table

  /** What a success on `input` becomes on `input + tail`. */
  function Append<T>(r: Parse<T>, tail: Bytes): Parse<T> {
    match r case Ok((rest, value)) => Ok((rest + tail, value)) case Err(e) => Err(e)
  }

  function Extend(lsda: Lsda, tail: Bytes): Lsda {
    lsda.(bytes := lsda.bytes + tail)
  }

  lemma {:induction false} ContinuedTail(input: Bytes, tail: Bytes)
    requires Continued(input) < |input|
    ensures Continued(input + tail) == Continued(input)
  {
    if input[0] >= 128 {
      ContinuedTail(input[1..], tail);
      assert (input + tail)[1..] == input[1..] + tail;
    }
  }

  lemma UlebTail(input: Bytes, tail: Bytes)
    requires Uleb(input).Ok?
    ensures Uleb(input + tail) == Append(Uleb(input), tail)
  {
    hide Continued, GroupSum;
    ContinuedTail(input, tail);
    var n := Continued(input);
    assert (input + tail)[..n + 1] == input[..n + 1];
    assert (input + tail)[n + 1..] == input[n + 1..] + tail;
  }

  lemma SlebTail(input: Bytes, tail: Bytes)
    requires Sleb(input).Ok?
    ensures Sleb(input + tail) == Append(Sleb(input), tail)
  {
    hide Continued, GroupSum, SignedSum;
    ContinuedTail(input, tail);
    var n := Continued(input);
    assert (input + tail)[..n + 1] == input[..n + 1];
    assert (input + tail)[n + 1..] == input[n + 1..] + tail;
  }

  lemma FixedTail(input: Bytes, tail: Bytes, width: nat, endian: Endian)
    ensures ReadUnsigned(input, width, endian).Ok? ==>
              ReadUnsigned(input + tail, width, endian) == Append(ReadUnsigned(input, width, endian), tail)
    ensures ReadSigned(input, width, endian).Ok? ==>
              ReadSigned(input + tail, width, endian) == Append(ReadSigned(input, width, endian), tail)
  {
    hide FixedValue;
    if width <= |input| {
      assert (input + tail)[..width] == input[..width];
      assert (input + tail)[width..] == input[width..] + tail;
    }
  }

  lemma ScalarTail(input: Bytes, tail: Bytes, format: DwEhPe, endian: Endian)
    requires ReadScalar(input, format, endian).Ok?
    ensures ReadScalar(input + tail, format, endian) == Append(ReadScalar(input, format, endian), tail)
  {
    hide Uleb, Sleb, ReadUnsigned, ReadSigned;
    FixedTail(input, tail, 2, endian);
    FixedTail(input, tail, 4, endian);
    FixedTail(input, tail, 8, endian);
    if format == ULEB { UlebTail(input, tail); }
    if format == SLEB { SlebTail(input, tail); }
  }

  lemma AlignedTail(whole: Bytes, input: Bytes, tail: Bytes, bases: Bases)
    requires Aligned(whole, input, bases).Ok?
    ensures Aligned(whole + tail, input + tail, bases) == Ok(Aligned(whole, input, bases).value + tail)
  {
    var rest := Aligned(whole, input, bases).value;
    var padding := |input| - |rest|;
    assert (input + tail)[padding..] == input[padding..] + tail;
  }

  lemma TargetTail(whole: Bytes, input: Bytes, tail: Bytes, encoding: DwEhPe, bases: Bases, endian: Endian)
    requires ReadTarget(whole, input, encoding, bases, endian).Ok?
    ensures ReadTarget(whole + tail, input + tail, encoding, bases, endian)
            == Append(ReadTarget(whole, input, encoding, bases, endian), tail)
  {
    hide ReadScalar, Aligned, ValidEncoding, BaseOf;
    var field := if Application(encoding) == ALIGN then Aligned(whole, input, bases).value else input;
    if Application(encoding) == ALIGN { AlignedTail(whole, input, tail, bases); }
    ScalarTail(field, tail, Format(encoding), endian);
  }

  lemma LandingBaseTail(bytes: Bytes, tail: Bytes, bases: Bases, endian: Endian)
    requires ReadLandingBase(bytes, bases, endian).Ok?
    ensures ReadLandingBase(bytes + tail, bases, endian) == Append(ReadLandingBase(bytes, bases, endian), tail)
  {
    hide ReadTarget;
    assert (bytes + tail)[1..] == bytes[1..] + tail;
    if !Absent(bytes[0]) { TargetTail(bytes, bytes[1..], tail, bytes[0], bases, endian); }
  }

  lemma TypesTail(bytes: Bytes, input: Bytes, tail: Bytes)
    requires ReadTypes(bytes, input).Ok?
    ensures ReadTypes(bytes + tail, input + tail) == Append(ReadTypes(bytes, input), tail)
  {
    hide Uleb, ValidEncoding;
    assert (input + tail)[1..] == input[1..] + tail;
    if !Absent(input[0]) { UlebTail(input[1..], tail); }
  }

  lemma CallTableTail(input: Bytes, tail: Bytes)
    requires ReadCallTable(input).Ok?
    ensures ReadCallTable(input + tail) == Append(ReadCallTable(input), tail)
  {
    hide Uleb;
    assert (input + tail)[1..] == input[1..] + tail;
    UlebTail(input[1..], tail);
    var (rest, length) := Uleb(input[1..]).value;
    assert (rest + tail)[length..] == rest[length..] + tail;
    assert (rest + tail)[..length] == rest[..length];
  }

  /** A header that parses keeps parsing to the same tables. */
  lemma NewTail(bytes: Bytes, tail: Bytes, bases: Bases, endian: Endian)
    requires NewLsda(bytes, bases, endian).Ok?
    ensures NewLsda(bytes + tail, bases, endian) == Ok(Extend(NewLsda(bytes, bases, endian).value, tail))
  {
    hide ReadLandingBase, ReadTypes, ReadCallTable, ValidEncoding;
    LandingBaseTail(bytes, tail, bases, endian);
    var input := ReadLandingBase(bytes, bases, endian).value.0;
    TypesTail(bytes, input, tail);
    CallTableTail(ReadTypes(bytes, input).value.0, tail);
  }

  /** The call-site iterator reads nothing but its own bytes. */
  lemma {:induction false} SitesTail(lsda: Lsda, tail: Bytes, input: Bytes)
    ensures SiteItems(Extend(lsda, tail), input) == SiteItems(lsda, input)
    decreases |input|
  {
    hide ReadOffset, Uleb;
    if input != [] && CallSite(input, lsda).Ok? {
      SitesTail(lsda, tail, CallSite(input, lsda).value.0);
    }
  }

  lemma RecordTail(whole: Bytes, floor: Word, input: Bytes, tail: Bytes)
    requires Record(whole, floor, input).Ok?
    ensures var (kind, next) := Record(whole, floor, input).value;
            Record(whole + tail, floor, input + tail)
            == Ok((kind, match next case None => None case Some(n) => Some(n + tail)))
  {
    hide Sleb, NewKind;
    SlebTail(input, tail);
    var (link, index) := Sleb(input).value;
    SlebTail(link, tail);
    var delta := Sleb(link).value.1;
    if delta != 0 {
      var target := |whole| - |link| + delta;
      assert (whole + tail)[target..] == whole[target..] + tail;
    }
  }

  predicate NoError<T>(items: seq<Result<T, LsdaError>>) {
    forall i | 0 <= i < |items| :: items[i].Ok?
  }

  /** A chain that reads to its end without error reads the same with more bytes and more fuel. */
  lemma {:induction false} ChainItemsTail(
    whole: Bytes, floor: Word, next: Option<Bytes>, tail: Bytes, fuel: nat, more: nat)
    requires NoError(ChainItems(whole, floor, next, fuel)) && fuel <= more
    ensures var next' := match next case None => None case Some(n) => Some(n + tail);
            ChainItems(whole + tail, floor, next', more) == ChainItems(whole, floor, next, fuel)
    decreases fuel
  {
    hide Record;
    if next.Some? {
      var items := ChainItems(whole, floor, next, fuel);
      assert items != [] && items[0].Ok?;
      RecordTail(whole, floor, next.value, tail);
      var (kind, next2) := Record(whole, floor, next.value).value;
      var rest := ChainItems(whole, floor, next2, fuel - 1);
      assert items == [Ok(kind)] + rest;
      assert forall i | 0 <= i < |rest| :: rest[i] == items[i + 1];
      ChainItemsTail(whole, floor, next2, tail, fuel - 1, more - 1);
    }
  }

  /** What a chain yields before its first error stays in front when bytes are appended. */
  lemma {:induction false} ItemsPrefixTail(
    whole: Bytes, floor: Word, next: Option<Bytes>, tail: Bytes, fuel: nat, more: nat, n: nat)
    requires fuel <= more
    requires var items := ChainItems(whole, floor, next, fuel); n <= |items| && forall i | 0 <= i < n :: items[i].Ok?
    ensures var next' := match next case None => None case Some(n) => Some(n + tail);
            var items := ChainItems(whole, floor, next, fuel);
            var longer := ChainItems(whole + tail, floor, next', more);
            n <= |longer| && longer[..n] == items[..n]
    decreases fuel
  {
    hide Record;
    if next.Some? && n > 0 {
      var items := ChainItems(whole, floor, next, fuel);
      assert items[0].Ok?;
      RecordTail(whole, floor, next.value, tail);
      var (kind, next2) := Record(whole, floor, next.value).value;
      var rest := ChainItems(whole, floor, next2, fuel - 1);
      assert items == [Ok(kind)] + rest;
      assert forall i | 0 <= i < |rest| :: rest[i] == items[i + 1];
      ItemsPrefixTail(whole, floor, next2, tail, fuel - 1, more - 1, n - 1);
      assert items[..n] == [Ok(kind)] + rest[..n - 1];
    }
  }

  lemma ChainPrefixTail(lsda: Lsda, action: NonZero, tail: Bytes, n: nat)
    requires Chain(lsda, action).Ok? && n <= |Chain(lsda, action).value|
    requires forall i | 0 <= i < n :: Chain(lsda, action).value[i].Ok?
    ensures var longer := Chain(Extend(lsda, tail), action);
            && longer.Ok? && n <= |longer.value| && longer.value[..n] == Chain(lsda, action).value[..n]
            && (n == |Chain(lsda, action).value| ==> longer == Chain(lsda, action))
  {
    hide ChainItems;
    var start := ChainStart(lsda, action).value;
    assert (lsda.bytes + tail)[start..] == lsda.bytes[start..] + tail;
    ItemsPrefixTail(lsda.bytes, lsda.actionOffset, Some(lsda.bytes[start..]), tail,
                    |lsda.bytes| + 1, |lsda.bytes + tail| + 1, n);
    if n == |Chain(lsda, action).value| { ChainTail(lsda, action, tail); }
  }

  lemma ChainTail(lsda: Lsda, action: NonZero, tail: Bytes)
    requires Chain(lsda, action).Ok? && NoError(Chain(lsda, action).value)
    ensures Chain(Extend(lsda, tail), action) == Chain(lsda, action)
  {
    hide ChainItems, NoError;
    var start := ChainStart(lsda, action).value;
    assert (lsda.bytes + tail)[start..] == lsda.bytes[start..] + tail;
    ChainItemsTail(lsda.bytes, lsda.actionOffset, Some(lsda.bytes[start..]), tail, |lsda.bytes| + 1,
        |lsda.bytes + tail| + 1);
  }

  lemma TypeTail(types: Types, lsda: Lsda, index: NonZero, tail: Bytes)
    requires GetType(types, lsda, index).Ok?
    ensures GetType(types, Extend(lsda, tail), index) == GetType(types, lsda, index)
  {
    hide ReadTarget, Width;
    var start := types.end - index * Width(types.encoding).value;
    assert (lsda.bytes + tail)[start..] == lsda.bytes[start..] + tail;
    TargetTail(lsda.bytes, lsda.bytes[start..], tail, types.encoding, lsda.bases, lsda.endian);
  }

  lemma {:induction false} FilterItemsTail(input: Bytes, tail: Bytes)
    requires NoError(FilterItems(input))
    ensures FilterItems(input + tail) == FilterItems(input)
    decreases |input|
  {
    hide Uleb;
    var items := FilterItems(input);
    assert items == [] || items[0].Ok?;
    UlebTail(input, tail);
    var (rest, index) := Uleb(input).value;
    if index != 0 {
      assert items == [Ok(index)] + FilterItems(rest);
      assert forall i | 0 <= i < |items| - 1 :: FilterItems(rest)[i] == items[i + 1];
      FilterItemsTail(rest, tail);
    }
  }

  lemma FilterTail(lsda: Lsda, index: NonZero, tail: Bytes)
    requires FilterTypes(lsda, index).Ok? && NoError(FilterTypes(lsda, index).value)
    ensures FilterTypes(Extend(lsda, tail), index) == FilterTypes(lsda, index)
  {
    var start := FilterStart(lsda, index).value;
    assert (lsda.bytes + tail)[start..] == lsda.bytes[start..] + tail;
    FilterItemsTail(lsda.bytes[start..], tail);
  }
}
