/** Which bytes the reverse type table reads for an index, and what it makes of them. */
module TypeTable {
  import opened Words
  import opened Leb128
  import opened Encoding
  import opened Table

  /** The integer that a fixed-width entry stores. */
  function EntryValue(entry: Bytes, format: DwEhPe, endian: Endian): int {
    var value := FixedValue(entry, endian);
    if format in {S2, S4, S8} && |entry| > 0 && value >= Pow2(8 * |entry| - 1) then value - Pow2(8 * |entry|) else value
  }

  predicate FixedWidth(encoding: DwEhPe) {
    ValidEncoding(encoding) && !Absent(encoding) && Width(encoding).Ok?
  }

  lemma FixedIsEntry(input: Bytes, w: nat, endian: Endian)
    requires w in {2, 4, 8}
    ensures |input| < w ==> ReadUnsigned(input, w, endian) == ReadSigned(input, w, endian) == Err(Eof)
    ensures |input| >= w ==>
              && ReadUnsigned(input, w, endian) == Ok((input[w..], EntryValue(input[..w], ABS, endian)))
              && ReadSigned(input, w, endian) == Ok((input[w..], EntryValue(input[..w], S8, endian)))
  {
    hide FixedValue;
  }

  lemma ScalarIsEntry(input: Bytes, encoding: DwEhPe, endian: Endian)
    requires FixedWidth(encoding)
    ensures var w := Width(encoding).value;
            var r := ReadScalar(input, Format(encoding), endian);
            && w in {2, 4, 8}
            && (|input| < w ==> r == Err(Eof))
            && (|input| >= w ==> r.Ok? && r.value.0 == input[w..]
                                 && r.value.1.Value() == EntryValue(input[..w], Format(encoding), endian))
  {
    hide FixedValue, Uleb, Sleb, ReadUnsigned, ReadSigned, ValidEncoding, Application, EntryValue;
    var w := Width(encoding).value;
    var format := Format(encoding);
    FixedIsEntry(input, w, endian);
    if |input| >= w { SameEntry(input[..w], format, endian); }
  }

  /** Whether a format is signed is all that matters for the value of an entry. */
  lemma SameEntry(entry: Bytes, format: DwEhPe, endian: Endian)
    ensures EntryValue(entry, format, endian)
            == if format in {S2, S4, S8} then EntryValue(entry, S8, endian) else EntryValue(entry, ABS, endian)
  {
    hide FixedValue, Pow2;
  }

  /** The exact sum of a base and a stored value, when it is an address; the top bit of the encoding means indirect. */
  predicate Sums(r: Result<Target, LsdaError>, base: int, value: int, encoding: DwEhPe) {
    if 0 <= base + value < WORD then r == Ok(Target(base + value, encoding / 128 == 1)) else r == Err(Overflow)
  }

  /**
   * What a stored value stands for by bits 4 to 6 of its encoding: an absolute address, or one relative to the field
   * itself, to the text or data base if there is one, or to the function.
   */
  predicate StandsFor(r: Result<Target, LsdaError>, encoding: DwEhPe, value: int, field: int, bases: Bases) {
    var relative := encoding / 16 % 8;
    if relative == 0 then Sums(r, 0, value, encoding)
    else if relative == 1 then Sums(r, field, value, encoding)
    else if relative == 2 then (if bases.text.Some? then Sums(r, bases.text.value, value, encoding) else r == Err(Base))
    else if relative == 3 then (if bases.data.Some? then Sums(r, bases.data.value, value, encoding) else r == Err(Base))
    else relative == 4 && Sums(r, bases.function_, value, encoding)
  }

  lemma OneAddress(
    r: Result<Target, LsdaError>, other: Result<Target, LsdaError>, encoding: DwEhPe, value: int, field: int,
    bases: Bases)
    requires StandsFor(r, encoding, value, field, bases) && StandsFor(other, encoding, value, field, bases)
    ensures r == other
  {
  }

  /** Without alignment an encoded pointer is the scalar in its field, standing for what its encoding says. */
  lemma TargetMeans(whole: Bytes, input: Bytes, encoding: DwEhPe, bases: Bases, endian: Endian)
    requires ValidEncoding(encoding) && !Absent(encoding) && encoding / 16 % 8 != 5
    requires |input| <= |whole| < WORD && bases.origin + (|whole| - |input|) < WORD
    ensures var r := ReadTarget(whole, input, encoding, bases, endian);
            match ReadScalar(input, encoding % 16, endian)
            case Err(e) => r == Err(e)
            case Ok((rest, scalar)) =>
              && (r.Ok? ==> r.value.0 == rest)
              && StandsFor(if r.Ok? then Ok(r.value.1) else Err(r.error), encoding, scalar.Value(),
                           bases.origin + (|whole| - |input|), bases)
  {
    hide ReadScalar;
  }

  /** The landing base of a header: the function, or an explicit direct address in any encoding. */
  lemma LandingMeans(bytes: Bytes, bases: Bases, endian: Endian)
    requires 0 < |bytes| < WORD && bases.origin + 1 < WORD && bytes[0] / 16 % 8 != 5
    ensures var r := ReadLandingBase(bytes, bases, endian);
            if bytes[0] == 255 then r == Ok((bytes[1..], bases.function_))
            else if !ValidEncoding(bytes[0]) then r == Err(Encoding)
            else
              match ReadScalar(bytes[1..], bytes[0] % 16, endian)
              case Err(e) => r == Err(e)
              case Ok((rest, scalar)) =>
                if bytes[0] < 128 then
                  && (r.Ok? ==> r.value.0 == rest)
                  && StandsFor(if r.Ok? then Ok(Target(r.value.1, false)) else Err(r.error), bytes[0], scalar.Value(),
                               bases.origin + 1, bases)
                else
                  exists target ::
                    && StandsFor(target, bytes[0], scalar.Value(), bases.origin + 1, bases)
                    && r == Err(if target.Ok? then Encoding else target.error)
  {
    hide ReadScalar, ReadTarget, ValidEncoding;
    if bytes[0] != 255 && ValidEncoding(bytes[0]) {
      TargetMeans(bytes, bytes[1..], bytes[0], bases, endian);
      var r := ReadTarget(bytes, bytes[1..], bytes[0], bases, endian);
      var scalar := ReadScalar(bytes[1..], bytes[0] % 16, endian);
      if scalar.Ok? {
        var target := if r.Ok? then Ok(r.value.1) else Err(r.error);
        assert StandsFor(target, bytes[0], scalar.value.1.Value(), bases.origin + 1, bases);
      }
    }
    if bytes[0] != 255 && !ValidEncoding(bytes[0]) { InvalidTarget(bytes, bytes[1..], bytes[0], bases, endian); }
  }

  lemma InvalidTarget(whole: Bytes, input: Bytes, encoding: DwEhPe, bases: Bases, endian: Endian)
    requires !ValidEncoding(encoding)
    ensures ReadTarget(whole, input, encoding, bases, endian) == Err(Encoding)
  {
  }

  /**
   * Entry `index` is read from exactly the `index`-th group of `width` bytes before the end of the table.
   * Its address is the exact sum of the stored value and what its encoding counts from, the address of those very
   * bytes for a pc-relative one, and the bound on consumed bytes never rejects it.
   */
  lemma EntryIs(types: Types, lsda: Lsda, index: NonZero)
    requires |lsda.bytes| < WORD && types.end <= |lsda.bytes|
    requires FixedWidth(types.encoding) && Application(types.encoding) != ALIGN
    ensures var w := Width(types.encoding).value;
            var r := GetType(types, lsda, index);
            if index * w >= WORD then r == Err(Overflow)
            else if index * w > types.end then r == Err(Table)
            else
              var start, stop := types.end - index * w, types.end - (index - 1) * w;
              && start + w == stop <= types.end
              && if lsda.bases.origin + start >= WORD then r == Err(Overflow)
                 else
                   var value := EntryValue(lsda.bytes[start..stop], Format(types.encoding), lsda.endian);
                   StandsFor(r, types.encoding, value, lsda.bases.origin + start, lsda.bases)
  {
    hide Width, ReadScalar, EntryValue, ValidEncoding, StandsFor;
    var w := Width(types.encoding).value;
    var start := types.end - index * w;
    if start >= 0 {
      EndOfEntry(types.end, index, w);
      var input := lsda.bytes[start..];
      ScalarIsEntry(input, types.encoding, lsda.endian);
      assert input[..w] == lsda.bytes[start..start + w];
      assert input[w..] == lsda.bytes[start + w..];
      if lsda.bases.origin + start < WORD {
        TargetMeans(lsda.bytes, input, types.encoding, lsda.bases, lsda.endian);
        hide ReadTarget;
      } else {
        FarTarget(lsda.bytes, input, types.encoding, lsda.bases, lsda.endian);
      }
    }
  }

  lemma FarTarget(whole: Bytes, input: Bytes, encoding: DwEhPe, bases: Bases, endian: Endian)
    requires ValidEncoding(encoding) && !Absent(encoding) && Application(encoding) != ALIGN
    requires |input| <= |whole| < WORD && bases.origin + (|whole| - |input|) >= WORD
    ensures ReadTarget(whole, input, encoding, bases, endian) == Err(Overflow)
  {
  }

  lemma EndOfEntry(end: nat, index: NonZero, w: nat)
    requires index * w <= end
    ensures end - index * w + w == end - (index - 1) * w <= end
  {
    assert (index - 1) * w == index * w - w;
  }

  /** Overwriting the bytes of one entry leaves every other entry as it was. */
  lemma EntriesKeepApart(types: Types, lsda: Lsda, index: NonZero, other: NonZero, entry: Bytes)
    requires |lsda.bytes| < WORD && types.end <= |lsda.bytes|
    requires FixedWidth(types.encoding) && Application(types.encoding) != ALIGN
    requires index != other && |entry| == Width(types.encoding).value
    requires other * |entry| <= types.end
    ensures var at := types.end - other * |entry|;
            var changed := lsda.bytes[..at] + entry + lsda.bytes[at + |entry|..];
            GetType(types, lsda.(bytes := changed), index) == GetType(types, lsda, index)
  {
    hide Width, GetType, EntryValue, ValidEncoding, StandsFor, FixedWidth, Application;
    var w := |entry|;
    var at := types.end - other * w;
    EndOfEntry(types.end, other, w);
    var changed := lsda.bytes[..at] + entry + lsda.bytes[at + w..];
    var start := types.end - index * w;
    if start >= 0 {
      EndOfEntry(types.end, index, w);
      Apart(index, other, w);
      KeptApart(lsda.bytes, at, entry, start);
    }
    EntryDecides(types, lsda, changed, index);
  }

  lemma KeptApart(bytes: Bytes, at: nat, entry: Bytes, start: nat)
    requires at + |entry| <= |bytes| && start + |entry| <= |bytes|
    requires start + |entry| <= at || at + |entry| <= start
    ensures (bytes[..at] + entry + bytes[at + |entry|..])[start..start + |entry|] == bytes[start..start + |entry|]
  {
    var changed := bytes[..at] + entry + bytes[at + |entry|..];
    forall k | start <= k < start + |entry| ensures changed[k] == bytes[k] {
      Unchanged(bytes, at, entry, k);
    }
    SameSlice(changed, bytes, start, start + |entry|);
  }

  lemma Unchanged(bytes: Bytes, at: nat, entry: Bytes, k: nat)
    requires at + |entry| <= |bytes| && k < |bytes| && (k < at || at + |entry| <= k)
    ensures |bytes[..at] + entry + bytes[at + |entry|..]| == |bytes|
    ensures (bytes[..at] + entry + bytes[at + |entry|..])[k] == bytes[k]
  {
  }

  lemma SameSlice(a: Bytes, b: Bytes, i: nat, j: nat)
    requires i <= j <= |a| == |b| && forall k | i <= k < j :: a[k] == b[k]
    ensures a[i..j] == b[i..j]
  {
  }

  /** Nothing but the bytes of an entry decides what it is read as. */
  lemma EntryDecides(types: Types, lsda: Lsda, changed: Bytes, index: NonZero)
    requires |lsda.bytes| == |changed| < WORD && types.end <= |lsda.bytes|
    requires FixedWidth(types.encoding) && Application(types.encoding) != ALIGN
    requires var w := Width(types.encoding).value;
             var start := types.end - index * w;
             0 <= start && start + w <= |changed| ==> changed[start..start + w] == lsda.bytes[start..start + w]
    ensures GetType(types, lsda.(bytes := changed), index) == GetType(types, lsda, index)
  {
    hide GetType, EntryValue, ValidEncoding, StandsFor;
    var w := Width(types.encoding).value;
    hide Width;
    EntryIs(types, lsda, index);
    EntryIs(types, lsda.(bytes := changed), index);
    var start := types.end - index * w;
    if start >= 0 {
      EndOfEntry(types.end, index, w);
      if lsda.bases.origin + start < WORD {
        OneAddress(GetType(types, lsda, index), GetType(types, lsda.(bytes := changed), index), types.encoding,
                   EntryValue(lsda.bytes[start..start + w], Format(types.encoding), lsda.endian),
                   lsda.bases.origin + start, lsda.bases);
      }
    }
  }

  lemma Apart(i: int, j: int, w: nat)
    requires i != j
    ensures i * w + w <= j * w || j * w + w <= i * w
  {
    var gap := if i < j then j - i else i - j;
    assert gap * w == if i < j then j * w - i * w else i * w - j * w;
    assert gap * w == (gap - 1) * w + w && (gap - 1) * w >= 0;
  }

  /** Skipping for alignment ends at the first multiple of eight. */
  lemma AlignedSkips(whole: Bytes, input: Bytes, bases: Bases)
    requires Aligned(whole, input, bases).Ok?
    ensures var rest := Aligned(whole, input, bases).value;
            && |input| - 8 < |rest| <= |input| && rest == input[|input| - |rest|..]
            && (bases.origin + (|whole| - |rest|)) % 8 == 0
  {
  }

  /** How many bytes alignment skips in front of the byte at `start`. */
  function Skip(bases: Bases, start: nat): (r: nat)
    ensures r < 8 && (bases.origin + start + r) % 8 == 0
  {
    (8 - (bases.origin + start) % 8) % 8
  }

  lemma AlignedIs(whole: Bytes, start: nat, bases: Bases)
    requires |whole| < WORD && start <= |whole|
    ensures Aligned(whole, whole[start..], bases)
            == if bases.origin + start >= WORD then Err(Overflow)
               else if start + Skip(bases, start) <= |whole| then Ok(whole[start + Skip(bases, start)..]) else Err(Eof)
  {
    SkipIsPadding(bases, start);
    hide Skip;
    var skip := Skip(bases, start);
    if start + skip <= |whole| { TailTwice(whole, start, skip); }
  }

  lemma SkipIsPadding(bases: Bases, start: nat)
    ensures var remainder := (bases.origin + start) % 8;
            Skip(bases, start) == if remainder == 0 then 0 else 8 - remainder
  {
  }

  lemma TailTwice(s: Bytes, i: nat, j: nat)
    requires i + j <= |s|
    ensures s[i..][j..] == s[i + j..]
  {
  }

  /**
   * With the aligned application the skip can run past the entry, and then the bound on consumed bytes
   * rejects: an entry inside the table is read if and only if the skip is no longer than the entries after it.
   */
  lemma AlignedEntryIff(types: Types, lsda: Lsda, index: NonZero)
    requires |lsda.bytes| < WORD && types.end <= |lsda.bytes|
    requires FixedWidth(types.encoding) && Application(types.encoding) == ALIGN
    requires index * Width(types.encoding).value <= types.end
    requires lsda.bases.origin + |lsda.bytes| < WORD
    ensures var w := Width(types.encoding).value;
            var start := types.end - index * w;
            var from := start + Skip(lsda.bases, start);
            var r := GetType(types, lsda, index);
            if from - start > (index - 1) * w then r.Err?
            else
              && from + w <= types.end
              && Sums(r, 0, EntryValue(lsda.bytes[from..from + w], Format(types.encoding), lsda.endian), types.encoding)
  {
    hide Width, ReadScalar, EntryValue, ValidEncoding, Skip, Aligned;
    var w := Width(types.encoding).value;
    var start := types.end - index * w;
    EndOfEntry(types.end, index, w);
    AlignedIs(lsda.bytes, start, lsda.bases);
    var from := start + Skip(lsda.bases, start);
    if from <= |lsda.bytes| {
      var input := lsda.bytes[from..];
      ScalarIsEntry(input, types.encoding, lsda.endian);
      if from + w <= |lsda.bytes| {
        assert input[..w] == lsda.bytes[from..from + w];
        assert input[w..] == lsda.bytes[from + w..];
      }
    }
  }
}
