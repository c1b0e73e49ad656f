/** The physical stack as the cursor sees it: one activation after the other, rebuilt from unwind rows. */
module Stack {
  import opened Words
  import opened Registers
  import opened CallFrame

  /** One frame: the registers and instruction relation the cursor carries there, and the metadata they select. */
  datatype Activation = Activation(image: Image, relation: Relation, info: Info)

  /** What lies beyond the oldest frame: nothing, missing metadata, or a frame whose caller cannot be rebuilt. */
  datatype Bottom = EndOfStack(image: Image, relation: Relation) | Lost | Broken

  function NextRelation(info: Info): Relation {
    if info.fde.signal then Instruction else Return
  }

  /** The frames that stepping from one register image runs through, youngest first. */
  ghost predicate Unrolls(m: Machine, image: Image, relation: Relation, frames: seq<Activation>, bottom: Bottom)
    decreases |frames|
  {
    if frames == [] then
      match InfoOf(m, image, relation)
      case Ok(None) => bottom == EndOfStack(image, relation)
      case Ok(Some(_)) => false
      case Err(_) => bottom == Lost
    else
      && frames[0].image == image && frames[0].relation == relation
      && InfoOf(m, image, relation) == Ok(Some(frames[0].info))
      && match CallerOf(m, frames[0].info.fde.row, image)
         case Err(_) => |frames| == 1 && bottom == Broken
         case Ok(next) => Unrolls(m, next, NextRelation(frames[0].info), frames[1..], bottom)
  }

  /** The identity that matches a frame across phases: its stack pointer, one less for an interrupted frame. */
  function KeyOf(image: Image, relation: Relation): Option<Word> {
    if RSP in image then Some(WrapAdd(image[RSP], if relation.Before() then -1 else 0)) else None
  }

  function Key(a: Activation): Option<Word> {
    KeyOf(a.image, a.relation)
  }

  /** No two frames share a key. */
  predicate DistinctKeys(frames: seq<Activation>) {
    forall i, j | 0 <= i < j < |frames| :: Key(frames[i]) != Key(frames[j])
  }

  /** No frame in front of frame `h` has the key. */
  predicate Foremost(frames: seq<Activation>, h: nat, key: Word) {
    forall i | 0 <= i < h && i < |frames| :: Key(frames[i]) != Some(key)
  }

  lemma DistinctIsForemost(frames: seq<Activation>, h: nat)
    requires DistinctKeys(frames) && h < |frames| && Key(frames[h]).Some?
    ensures Foremost(frames, h, Key(frames[h]).value)
  {
    hide KeyOf;
  }

  /** Stack pointers grow by at least two bytes from each frame to its caller. */
  predicate Growing(frames: seq<Activation>) {
    && (forall i | 0 <= i < |frames| :: RSP in frames[i].image && frames[i].image[RSP] > 0)
    && forall i | 0 < i < |frames| :: Grows(frames, i)
  }

  predicate Grows(frames: seq<Activation>, i: nat)
    requires 0 < i < |frames| && RSP in frames[i - 1].image && RSP in frames[i].image
  {
    frames[i - 1].image[RSP] as int + 2 <= frames[i].image[RSP]
  }

  lemma {:induction false} GrowsBy(frames: seq<Activation>, i: nat, j: nat)
    requires Growing(frames) && i < j < |frames|
    ensures frames[i].image[RSP] as int + 2 <= frames[j].image[RSP]
    decreases j
  {
    assert Grows(frames, j);
    if i < j - 1 { GrowsBy(frames, i, j - 1); }
  }

  lemma KeyIs(a: Activation)
    requires RSP in a.image && a.image[RSP] > 0
    ensures Key(a) == Some(if a.relation.Before() then a.image[RSP] - 1 else a.image[RSP])
  {
    var sp := a.image[RSP];
    ModIs(sp, 0, sp);
    ModIs(sp - 1, 0, sp - 1);
  }

  /** Then no two frames share a key, whatever their relations. */
  lemma GrowingIsDistinct(frames: seq<Activation>)
    requires Growing(frames)
    ensures DistinctKeys(frames)
  {
    hide KeyOf;
    forall i, j | 0 <= i < j < |frames| ensures Key(frames[i]) != Key(frames[j]) {
      GrowsBy(frames, i, j);
      KeyIs(frames[i]);
      KeyIs(frames[j]);
    }
  }

  /** With even stack pointers the key tells stack pointer and relation apart. */
  lemma KeyIdentifies(a: Activation, b: Activation)
    requires RSP in a.image && RSP in b.image && a.image[RSP] % 2 == 0 && b.image[RSP] % 2 == 0
    ensures Key(a) == Key(b) <==> a.image[RSP] == b.image[RSP] && a.relation == b.relation
  {
    KeyParity(a.image[RSP]);
    KeyParity(b.image[RSP]);
  }

  lemma KeyParity(sp: Word)
    requires sp % 2 == 0
    ensures WrapAdd(sp, 0) == sp
    ensures WrapAdd(sp, -1) == if sp == 0 then WORD - 1 else sp - 1
  {
    ModIs(sp, 0, sp);
    if sp == 0 { ModIs(-1, -1, WORD - 1); } else { ModIs(sp - 1, 0, sp - 1); }
  }

  /** Without that, a returning frame shares its key with an interrupted frame one byte above it. */
  lemma NeighboursAlias(image: Image, sp: Word)
    requires sp + 1 < WORD
    ensures KeyOf(image[RSP := sp], Return) == KeyOf(image[RSP := sp + 1], Instruction) == Some(sp)
  {
    ModIs(sp, 0, sp);
  }

  lemma {:induction false} FramesHaveInfo(
    m: Machine, image: Image, relation: Relation, frames: seq<Activation>, bottom: Bottom)
    requires Unrolls(m, image, relation, frames, bottom)
    ensures forall i | 0 <= i < |frames| :: InfoOf(m, frames[i].image, frames[i].relation) == Ok(Some(frames[i].info))
    decreases |frames|
  {
    hide InfoOf, CallerOf;
    if |frames| > 1 {
      var next := CallerOf(m, frames[0].info.fde.row, image).value;
      FramesHaveInfo(m, next, NextRelation(frames[0].info), frames[1..], bottom);
      assert forall i | 1 <= i < |frames| :: frames[i] == frames[1..][i - 1];
    }
  }

  /** Every row keeps the preserved registers. */
  predicate GentleStack(frames: seq<Activation>) {
    forall i | 0 <= i < |frames| :: Gentle(frames[i].info.fde.row)
  }

  /** From a capture, every frame of the stack still knows all preserved registers. */
  lemma {:induction false} PreservedThroughout(
    m: Machine, image: Image, relation: Relation, frames: seq<Activation>, bottom: Bottom)
    requires Unrolls(m, image, relation, frames, bottom) && GentleStack(frames) && PRESERVED <= image.Keys
    ensures forall i | 0 <= i < |frames| :: PRESERVED <= frames[i].image.Keys
    decreases |frames|
  {
    hide InfoOf, CallerOf, Gentle;
    if |frames| > 1 {
      CallerKeepsPreserved(m, frames[0].info.fde.row, image);
      var next := CallerOf(m, frames[0].info.fde.row, image).value;
      assert forall i | 1 <= i < |frames| :: frames[i] == frames[1..][i - 1];
      PreservedThroughout(m, next, NextRelation(frames[0].info), frames[1..], bottom);
    }
  }

  /** The row of a frame younger than frame `k` has a rule that gives the register a value. */
  predicate SetByRow(frames: seq<Activation>, k: nat, register: int)
    requires k <= |frames|
  {
    exists j, i | 0 <= j < k && 0 <= i < |frames[j].info.fde.row.rules| ::
      frames[j].info.fde.row.rules[i].0 == register && !frames[j].info.fde.row.rules[i].1.Undefined?
  }

  /** A volatile register known in some frame was set by the row of a younger frame. */
  lemma {:induction false} VolatileSetByRow(
    m: Machine, image: Image, relation: Relation, frames: seq<Activation>, bottom: Bottom, k: nat, register: int)
    requires Unrolls(m, image, relation, frames, bottom) && k < |frames|
    requires register in frames[k].image && register !in image && register != RSP
    ensures SetByRow(frames, k, register)
    decreases |frames|
  {
    hide InfoOf, CallerOf;
    if k > 0 {
      var next := CallerOf(m, frames[0].info.fde.row, image).value;
      if register in next {
        CallerAddsByRule(m, frames[0].info.fde.row, image, register);
      } else {
        VolatileSetByRow(m, next, NextRelation(frames[0].info), frames[1..], bottom, k - 1, register);
        var j, i :| 0 <= j < k - 1 && 0 <= i < |frames[1..][j].info.fde.row.rules|
                    && frames[1..][j].info.fde.row.rules[i].0 == register
                    && !frames[1..][j].info.fde.row.rules[i].1.Undefined?;
        assert frames[j + 1] == frames[1..][j];
      }
    }
  }

  // ---- Landing pads ----

  /** Register writes through an open context; writes to registers that are not modeled are ignored. */
  function ApplyWrites(image: Image, writes: seq<(int, Word)>): Image
    decreases |writes|
  {
    if writes == [] then image else ApplyWrites(Written(image, writes[0].0, writes[0].1), writes[1..])
  }

  /** The registers loaded when a frame is left for its landing pad. */
  function InstallAt(a: Activation, writes: seq<(int, Word)>): Result<Image, UnwindError> {
    var image := ApplyWrites(a.image, writes);
    if RSP !in image then Err(Unavailable(RSP))
    else InstallOf(image[RSP := WrapAdd(image[RSP], a.info.fde.row.args)])
  }

  /**
   * A personality that writes the exception, the selector and the landing pad into a frame of a gentle stack
   * makes it installable. The stack pointer moves by exactly the pushed arguments, the data registers and the
   * address arrive as written, and every other preserved register as the frame has it.
   */
  lemma InstallSucceeds(a: Activation, exception: Word, selector: Word, pad: Word)
    requires PRESERVED <= a.image.Keys
    ensures var r := InstallAt(a, [(RAX, exception), (RDX, selector), (RA, pad)]);
            && r.Ok?
            && r.value[RSP] == WrapAdd(a.image[RSP], a.info.fde.row.args)
            && r.value[RAX] == exception && r.value[RDX] == selector && r.value[RA] == pad
            && (forall x | x in PRESERVED - {RSP} :: r.value[x] == a.image[x])
            && (forall x | x in MODELED - PRESERVED - {RAX, RDX, RA} && x !in a.image :: r.value[x] == 0)
  {
    ApplyThree(a.image, (RAX, exception), (RDX, selector), (RA, pad));
  }

  /**
   * From a capture, however many callers were rebuilt by gentle rows: a personality's install makes the frame
   * installable, and a volatile register reaches the landing pad with a value only if some row set it.
   */
  lemma CapturedInstalls(
    m: Machine, registers: Image, frames: seq<Activation>, bottom: Bottom, k: nat, exception: Word, selector: Word,
    pad: Word)
    requires registers.Keys == MODELED && Unrolls(m, Captured(registers), Return, frames, bottom)
    requires GentleStack(frames) && k < |frames|
    ensures var r := InstallAt(frames[k], [(RAX, exception), (RDX, selector), (RA, pad)]);
            && r.Ok? && r.value.Keys == MODELED && PRESERVED <= frames[k].image.Keys
            && r.value[RSP] == WrapAdd(frames[k].image[RSP], frames[k].info.fde.row.args)
            && r.value[RAX] == exception && r.value[RDX] == selector && r.value[RA] == pad
            && (forall x | x in PRESERVED - {RSP} :: r.value[x] == frames[k].image[x])
            && (forall x | x in MODELED - PRESERVED - {RAX, RDX, RA} && !SetByRow(frames, k, x) :: r.value[x] == 0)
  {
    hide Unrolls, Gentle, InstallAt, SetByRow;
    PreservedThroughout(m, Captured(registers), Return, frames, bottom);
    InstallSucceeds(frames[k], exception, selector, pad);
    forall x | x in MODELED - PRESERVED - {RAX, RDX, RA} && !SetByRow(frames, k, x) ensures x !in frames[k].image {
      if x in frames[k].image { VolatileSetByRow(m, Captured(registers), Return, frames, bottom, k, x); }
    }
    InstallKeys(frames[k], [(RAX, exception), (RDX, selector), (RA, pad)]);
  }

  lemma InstallKeys(a: Activation, writes: seq<(int, Word)>)
    ensures InstallAt(a, writes).Ok? ==> InstallAt(a, writes).value.Keys == MODELED
    ensures InstallAt(a, writes).Err? ==>
              InstallAt(a, writes).error
              == if 7 in ApplyWrites(a.image, writes) then NotInstallable else Unavailable(7)
  {
    hide ApplyWrites;
  }

  lemma ApplyThree(image: Image, x: (int, Word), y: (int, Word), z: (int, Word))
    ensures ApplyWrites(image, [x, y, z]) == Written(Written(Written(image, x.0, x.1), y.0, y.1), z.0, z.1)
  {
    hide Written;
    var one := Written(image, x.0, x.1);
    var two := Written(one, y.0, y.1);
    var three := Written(two, z.0, z.1);
    assert [z][1..] == [] && ApplyWrites(three, []) == three;
    assert [y, z][1..] == [z] && ApplyWrites(two, [z]) == three;
    assert [x, y, z][1..] == [y, z] && ApplyWrites(one, [y, z]) == three;
  }
}
