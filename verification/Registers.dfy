/** The x86_64 register image of one activation: a value for every register that is known, nothing for the others. */
module Registers {
  import opened Words

  /** DWARF numbers of the registers that the unwinder models. */
  const RAX: int := 0
  const RDX: int := 1
  const RBX: int := 3
  const RBP: int := 6
  const RSP: int := 7
  const RA: int := 16
  const MXCSR: int := 64
  const FCW: int := 65

  /** RAX to R15 are 0 to 15; 16 is the return address column. */
  const MODELED: set<int> := {0, 1, 2, 3, 4, 5, 6, 7, 8, 9, 10, 11, 12, 13, 14, 15, 16, 64, 65}

  /** What a call preserves: RBX, RBP, RSP, R12 to R15 and the two control words. */
  const PRESERVED: set<int> := {3, 6, 7, 12, 13, 14, 15, 64, 65}

  /** What a landing pad needs: everything preserved, its two data registers and its address. */
  const REQUIRED: set<int> := {0, 1, 3, 6, 7, 12, 13, 14, 15, 16, 64, 65}

  type Image = map<int, Word>

  datatype UnwindError =
    | NoImage
    | Memory
    | BadRegister(register: int)
    | Unavailable(register: int)
    | NotInstallable
    | Expression
    | Address
    | Metadata

  function WidthOf(register: int): Result<nat, UnwindError> {
    if 0 <= register <= 16 then Ok(8)
    else if register == MXCSR then Ok(4)
    else if register == FCW then Ok(2)
    else Err(BadRegister(register))
  }

  function ReadOf(image: Image, register: int): Result<Word, UnwindError> {
    if register !in MODELED then Err(BadRegister(register))
    else if register !in image then Err(Unavailable(register))
    else Ok(image[register])
  }

  /** A capture keeps what the call boundary preserves; volatile registers stay unavailable. */
  function Captured(registers: Image): Image
    requires registers.Keys == MODELED
  {
    map r | r in PRESERVED + {RA} :: registers[r]
  }

  /** The registers loaded for a landing pad: unavailable volatile ones become zero. */
  function Loaded(image: Image): (r: Image)
    ensures r.Keys == MODELED
  {
    map r | r in MODELED :: if r in image then image[r] else 0
  }

  function InstallOf(image: Image): Result<Image, UnwindError> {
    if REQUIRED <= image.Keys then Ok(Loaded(image)) else Err(NotInstallable)
  }

  /** By DWARF number: what a capture keeps, and what an install demands and loads. */
  lemma RegistersMean(registers: Image, image: Image)
    requires registers.Keys == MODELED
    ensures forall r :: r in registers <==> 0 <= r <= 16 || r in {64, 65}
    ensures forall r :: r in Captured(registers) <==> r in {3, 6, 7, 12, 13, 14, 15, 16, 64, 65}
    ensures forall r | r in Captured(registers) :: Captured(registers)[r] == registers[r]
    ensures InstallOf(image).Ok? <==> forall r | r in {0, 1, 3, 6, 7, 12, 13, 14, 15, 16, 64, 65} :: r in image
    ensures forall r | InstallOf(image).Ok? && (0 <= r <= 16 || r in {64, 65}) ::
              r in InstallOf(image).value && InstallOf(image).value[r] == if r in image then image[r] else 0
  {
  }

  /** Where a failing write leaves the image as it was. */
  function Written(image: Image, register: int, value: Word): Image {
    if register in MODELED then image[register := value] else image
  }

  /** The mutable register state that frame reconstruction and personalities work on. */
  class State {
    var slots: Image

    constructor (registers: Image)
      requires registers.Keys == MODELED
      ensures slots == Captured(registers)
    {
      slots := Captured(registers);
    }

    constructor Clone(other: State)
      ensures slots == other.slots
    {
      slots := other.slots;
    }

    method Read(register: int) returns (r: Result<Word, UnwindError>)
      ensures r == ReadOf(slots, register)
    {
      if register !in MODELED {
        r := Err(BadRegister(register));
      } else if register in slots {
        r := Ok(slots[register]);
      } else {
        r := Err(Unavailable(register));
      }
    }

    method Write(register: int, value: Word) returns (r: Result<(), UnwindError>)
      modifies this
      ensures r == if register in MODELED then Ok(()) else Err(BadRegister(register))
      ensures slots == Written(old(slots), register, value)
    {
      if register in MODELED {
        slots := slots[register := value];
        r := Ok(());
      } else {
        r := Err(BadRegister(register));
      }
    }

    method Clear(register: int) returns (r: Result<(), UnwindError>)
      modifies this
      ensures r == if register in MODELED then Ok(()) else Err(BadRegister(register))
      ensures slots == if register in MODELED then old(slots) - {register} else old(slots)
    {
      if register in MODELED {
        slots := slots - {register};
        r := Ok(());
      } else {
        r := Err(BadRegister(register));
      }
    }

    /** Moves the stack pointer past pushed arguments. */
    method Adjust(size: Word) returns (r: Result<(), UnwindError>)
      modifies this
      ensures RSP in old(slots) ==> r == Ok(()) && slots == old(slots)[RSP := WrapAdd(old(slots)[RSP], size)]
      ensures RSP !in old(slots) ==> r == Err(Unavailable(RSP)) && slots == old(slots)
    {
      var rsp := Read(RSP);
      match rsp
      case Ok(value) => r := Write(RSP, WrapAdd(value, size));
      case Err(error) => r := Err(error);
    }

    /** Succeeds iff everything required is known; a register that is not known then arrives as zero. */
    method Install() returns (r: Result<Image, UnwindError>)
      ensures r.Ok? <==> REQUIRED <= slots.Keys
      ensures r.Ok? ==> r.value.Keys == MODELED
      ensures r.Ok? ==> forall x | x in MODELED :: r.value[x] == if x in slots then slots[x] else 0
      ensures r == InstallOf(slots)
    {
      if REQUIRED <= slots.Keys {
        r := Ok(Loaded(slots));
      } else {
        r := Err(NotInstallable);
      }
    }
  }
}
