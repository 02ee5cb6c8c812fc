/** Small pieces of the C library and its types that several modules share. */
module CLib {

  datatype Option<+T> = None | Some(value: T)

  /** The C type `int`. */
  type CInt = n: int | -0x8000_0000 <= n < 0x8000_0000

  /** `isspace` in the C locale. */
  predicate IsSpace(c: char): (r: bool)
    ensures r <==> c as int == 32 || 9 <= c as int <= 13
  {
    c == ' ' || '\t' <= c <= '\r'
  }

  function Min(a: int, b: int): int {
    if a <= b then a else b
  }
}
