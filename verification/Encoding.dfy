/** The pointer encodings `DW_EH_PE_*` (LSB 5.0 Core, DWARF Extensions), fixed-width integers and encoded pointers. */
module Encoding {
  import opened Words
  import opened Leb128

  datatype Endian = Little | Big

  /** One pointer encoding byte: bits 0-3 select a format, bits 4-6 an application, bit 7 indirection. */
  type DwEhPe = Byte

  const ABS: DwEhPe := 0x00
  const ULEB: DwEhPe := 0x01
  const U2: DwEhPe := 0x02
  const U4: DwEhPe := 0x03
  const U8: DwEhPe := 0x04
  const SLEB: DwEhPe := 0x09
  const S2: DwEhPe := 0x0a
  const S4: DwEhPe := 0x0b
  const S8: DwEhPe := 0x0c
  const PC: DwEhPe := 0x10
  const TEXT: DwEhPe := 0x20
  const DATA: DwEhPe := 0x30
  const FUNC: DwEhPe := 0x40
  const ALIGN: DwEhPe := 0x50
  const OMIT: DwEhPe := 0xff

  function Format(e: DwEhPe): DwEhPe { e % 16 }
  function Application(e: DwEhPe): DwEhPe { e / 16 % 8 * 16 }
  predicate Indirect(e: DwEhPe) { e >= 128 }
  predicate Absent(e: DwEhPe) { e == OMIT }

  predicate ValidEncoding(e: DwEhPe) {
    Absent(e) ||
    (Format(e) in {ABS, ULEB, U2, U4, U8, SLEB, S2, S4, S8} && Application(e) in {ABS, PC, TEXT, DATA, FUNC, ALIGN})
  }

  /** Logical addresses that relative encodings add. */
  datatype Bases = Bases(origin: Word, function_: Word, text: Option<Word>, data: Option<Word>)

  datatype Target = Target(address: Word, indirect: bool)

  datatype Scalar = Unsigned(u: Word) | Signed(s: SWord) {
    function Value(): int {
      match this case Unsigned(u) => u case Signed(s) => s
    }

    /** Adds a base in the integers and fails when the sum is no address. */
    function Add(base: Word): (r: Result<Word, LsdaError>) {
      var sum := base + Value();
      if 0 <= sum < WORD then Ok(sum) else Err(Overflow)
    }
  }

  // ---- Fixed-width integers ----

  function LeValue(s: Bytes): (r: nat)
    ensures r < Pow2(8 * |s|)
  {
    if s == [] then 0
    else
      assert Pow2(8 * |s|) == 256 * Pow2(8 * |s[1..]|) by {
        Powers();
        Pow2Add(8, 8 * |s[1..]|);
      }
      s[0] + 256 * LeValue(s[1..])
  }

  function Reverse(s: Bytes): (r: Bytes)
    ensures |r| == |s| && forall i | 0 <= i < |s| :: r[i] == s[|s| - 1 - i]
  {
    seq(|s|, i requires 0 <= i < |s| => s[|s| - 1 - i])
  }

  /** The unsigned number that `s` stores in the given byte order. */
  function FixedValue(s: Bytes, endian: Endian): (r: nat)
    ensures r < Pow2(8 * |s|)
  {
    match endian case Little => LeValue(s) case Big => LeValue(Reverse(s))
  }

  function ReadUnsigned(input: Bytes, width: nat, endian: Endian): Parse<Word> {
    if width !in {2, 4, 8} then Err(Encoding)
    else if |input| < width then Err(Eof)
    else
      WidthFits(width);
      Ok((input[width..], FixedValue(input[..width], endian)))
  }

  function ReadSigned(input: Bytes, width: nat, endian: Endian): Parse<SWord> {
    if width !in {2, 4, 8} then Err(Encoding)
    else if |input| < width then Err(Eof)
    else
      WidthFits(width);
      var value := FixedValue(input[..width], endian);
      Ok((input[width..], if value < Pow2(8 * width - 1) then value else value - Pow2(8 * width)))
  }

  lemma WidthFits(width: nat)
    requires width in {2, 4, 8}
    ensures Pow2(8 * width) == 2 * Pow2(8 * width - 1) <= WORD
  {
    Powers();
    PowMonotone(8 * width, 64);
  }

  // ---- Encoded pointers ----

  /** The encodings by number: 255 is absent, and the others combine a format and an application that exist. */
  lemma EncodingsMean(e: DwEhPe)
    ensures Absent(e) <==> e == 255
    ensures ValidEncoding(e) <==> e == 255 || (e % 16 in {0, 1, 2, 3, 4, 9, 10, 11, 12} && e / 16 % 8 <= 5)
    ensures Indirect(e) <==> e >= 128
  {
  }

  function Position(whole: Bytes, rest: Bytes): Result<Word, LsdaError> {
    var consumed := |whole| - |rest|;
    if 0 <= consumed < WORD then Ok(consumed) else Err(Table)
  }

  function ReadByte(input: Bytes): Parse<Byte> {
    if input == [] then Err(Eof) else Ok((input[1..], input[0]))
  }

  /** Splits off exactly `count` bytes: what remains, and what was taken. */
  function TakeBytes(input: Bytes, count: nat): Parse<Bytes> {
    if count <= |input| then Ok((input[count..], input[..count])) else Err(Eof)
  }

  function ReadScalar(input: Bytes, format: DwEhPe, endian: Endian): (r: Parse<Scalar>)
    ensures r.Ok? ==> |r.value.0| < |input|
  {
    if format in {ABS, U8} then var (rest, v) :- ReadUnsigned(input, 8, endian); Ok((rest, Unsigned(v)))
    else if format == ULEB then var (rest, v) :- Uleb(input); Ok((rest, Unsigned(v)))
    else if format == SLEB then var (rest, v) :- Sleb(input); Ok((rest, Signed(v)))
    else if format == U2 then var (rest, v) :- ReadUnsigned(input, 2, endian); Ok((rest, Unsigned(v)))
    else if format == U4 then var (rest, v) :- ReadUnsigned(input, 4, endian); Ok((rest, Unsigned(v)))
    else if format == S2 then var (rest, v) :- ReadSigned(input, 2, endian); Ok((rest, Signed(v)))
    else if format == S4 then var (rest, v) :- ReadSigned(input, 4, endian); Ok((rest, Signed(v)))
    else if format == S8 then var (rest, v) :- ReadSigned(input, 8, endian); Ok((rest, Signed(v)))
    else Err(Encoding)
  }

  /** The scalar formats by number: fixed widths in the byte order of the table, the signed ones in two's complement. */
  lemma FormatsMean(input: Bytes, endian: Endian)
    ensures forall f | f in {0, 4} :: ReadScalar(input, f, endian) == FixedScalar(input, 8, false, endian)
    ensures ReadScalar(input, 2, endian) == FixedScalar(input, 2, false, endian)
    ensures ReadScalar(input, 3, endian) == FixedScalar(input, 4, false, endian)
    ensures ReadScalar(input, 10, endian) == FixedScalar(input, 2, true, endian)
    ensures ReadScalar(input, 11, endian) == FixedScalar(input, 4, true, endian)
    ensures ReadScalar(input, 12, endian) == FixedScalar(input, 8, true, endian)
    ensures forall f: DwEhPe | f !in {0, 1, 2, 3, 4, 9, 10, 11, 12} :: ReadScalar(input, f, endian) == Err(Encoding)
  {
    hide FixedValue, Uleb, Sleb, Pow2;
    WidthFits(2);
    WidthFits(4);
    WidthFits(8);
  }

  function FixedScalar(input: Bytes, width: nat, signed: bool, endian: Endian): Parse<Scalar>
    requires width in {2, 4, 8}
  {
    if |input| < width then Err(Eof)
    else
      WidthFits(width);
      var value := FixedValue(input[..width], endian);
      Ok((input[width..],
          if !signed then Unsigned(value)
          else Signed(if value >= Pow2(8 * width - 1) then value - Pow2(8 * width) else value)))
  }

  /** Skips to the next multiple of eight, counted from the address of the first byte. */
  function Aligned(whole: Bytes, input: Bytes, bases: Bases): Result<Bytes, LsdaError> {
    var offset :- Position(whole, input);
    var address := bases.origin + offset;
    if address >= WORD then Err(Overflow)
    else
      var remainder := address % 8;
      var padding := if remainder == 0 then 0 else 8 - remainder;
      var (rest, _) :- TakeBytes(input, padding);
      Ok(rest)
  }

  /** The base that an application adds to the stored value. */
  function BaseOf(application: DwEhPe, field: Word, bases: Bases): Result<Word, LsdaError> {
    if application in {ABS, ALIGN} then Ok(0)
    else if application == PC then Ok(field)
    else if application == TEXT then (match bases.text case Some(b) => Ok(b) case None => Err(Base))
    else if application == DATA then (match bases.data case Some(b) => Ok(b) case None => Err(Base))
    else if application == FUNC then Ok(bases.function_)
    else Err(Encoding)
  }

  function ReadTarget(whole: Bytes, input: Bytes, encoding: DwEhPe, bases: Bases, endian: Endian): Parse<Target> {
    if !ValidEncoding(encoding) || Absent(encoding) then Err(Encoding)
    else
      var input :- if Application(encoding) == ALIGN then Aligned(whole, input, bases) else Ok(input);
      var offset :- Position(whole, input);
      if bases.origin + offset >= WORD then Err(Overflow)
      else
        var (rest, scalar) :- ReadScalar(input, Format(encoding), endian);
        var base :- BaseOf(Application(encoding), bases.origin + offset, bases);
        var address :- scalar.Add(base);
        Ok((rest, Target(address, Indirect(encoding))))
  }

  /** Reads one plain call-site offset: absolute application, no indirection. */
  function ReadOffset(input: Bytes, encoding: DwEhPe, endian: Endian): (r: Parse<Word>)
    ensures r.Ok? ==> |r.value.0| < |input|
  {
    if ValidEncoding(encoding) && !Absent(encoding) && Application(encoding) == ABS && !Indirect(encoding) then
      var (rest, scalar) :- ReadScalar(input, Format(encoding), endian);
      var value :- scalar.Add(0);
      Ok((rest, value))
    else Err(Encoding)
  }
}
