/** Types every component uses. */
module Common {

  type Byte = bv8
  type Bytes = seq<Byte>

  datatype Option<+T> = None | Some(value: T)

  // The error numbers that are passed around, the system's and the program's own.
  datatype Err =
    | Ok
    | Eexist
    | Eio
    | Einval
    | TableNotExist
    | TableExist
    | KeyNotExist
    | KeyExist
    | CrcCheckFailed
    | Base64DecodeFailed
    | AssertionFailed // the program ends here
    | BodyOutOfRange  // a string length in a body reaches past its end

  // Unsigned 32-bit integers are naturals below this.
  const UINT32: nat := 0x1_0000_0000

  function Idx(b: Byte): (i: nat)
    ensures i < 256
  {
    b as nat
  }

  lemma IdxOfNext(b: Byte)
    requires Idx(b) < 255
    ensures Idx(b + 1) == Idx(b) + 1
  {}

  // Counting up keeps the solver away from conversions of unknown integers.
  function ToByte(i: nat): (b: Byte)
    requires i < 256
    ensures Idx(b) == i
    decreases i
  {
    if i == 0 then 0
    else
      IdxOfNext(ToByte(i - 1));
      ToByte(i - 1) + 1
  }

  lemma IdxInjective(a: Byte, b: Byte)
    requires Idx(a) == Idx(b)
    ensures a == b
  {}
}
