/** Types shared by every part of the model. */
module Common {

  /** An octet. A C++ std::string, a buffer and a wire payload are all sequences of octets. */
  type Byte = b: int | 0 <= b < 256

  type Str = seq<Byte>

  const TWO_31: int := 0x8000_0000
  const TWO_32: int := 0x1_0000_0000
  const TWO_63: int := 0x8000_0000_0000_0000
  const TWO_64: int := 0x1_0000_0000_0000_0000

  type Int32 = i: int | -TWO_31 <= i < TWO_31
  type Uint64 = u: int | 0 <= u < TWO_64

  datatype Option<+T> = None | Some(value: T)

  lemma Associates<T>(a: seq<T>, b: seq<T>, c: seq<T>)
    ensures a + b + c == a + (b + c)
    ensures (a + b + c)[|a|..] == b + c
  {
  }
}
