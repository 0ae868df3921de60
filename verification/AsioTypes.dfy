/** Machine types and traits shared by the other modules: size_t, the narrowing cast to int,
    char_traits<char>::int_type, and a conventional Option. */
module AsioTypes {
  const SIZE_MAX: int := 0xFFFF_FFFF_FFFF_FFFF
  const ADDRESS_SPACE: int := 0x1_0000_0000_0000_0000
  const INT_MAX: int := 0x7FFF_FFFF

  /** std::size_t on a 64-bit target. Every arithmetic result of this type is checked to be in
      range, so code written with it is proved free of unsigned wrap-around. */
  newtype SizeT = x: int | 0 <= x <= 0xFFFF_FFFF_FFFF_FFFF

  type Byte = x: int | 0 <= x < 256

  datatype Option<+T> = None | Some(value: T)

  /** char_traits<char>::int_type: a character or the distinguished end-of-file value. */
  datatype IntType = Eof | Ch(b: Byte)

  /** traits_type::not_eof: some value that is not end-of-file. */
  function NotEof(c: IntType): IntType {
    if c.Eof? then Ch(0) else c
  }

  const INT_SPAN: int := 0x1_0000_0000

  /** static_cast<int>(std::size_t): the one int that differs from n by a multiple of 2^32. */
  function IntCast(n: nat): (i: int)
    ensures -INT_MAX - 1 <= i <= INT_MAX
    ensures n <= INT_MAX ==> i == n
    ensures n > INT_MAX ==> i < n
  {
    if n <= INT_MAX then n
    else if n < INT_SPAN then n - INT_SPAN
    else IntCast(n - INT_SPAN)
  }

  /** In terms of bits: the low half of n, read as two's complement. */
  lemma {:induction false} IntCastIsLowHalf(n: nat)
    ensures var low := n % INT_SPAN;
            IntCast(n) == if low <= INT_MAX then low else low - INT_SPAN
  {
    if n >= INT_SPAN {
      IntCastIsLowHalf(n - INT_SPAN);
      assert n % INT_SPAN == (n - INT_SPAN) % INT_SPAN;
    }
  }

  /** asio::error_code, as far as the modelled code distinguishes its values. */
  datatype Ec =
    | Clear
    | WouldBlock
    | TryAgain
    | InProgress
    | TimedOutEc
    | EofEc
    | NotFound
    | Other(code: nat)

  function Min(a: int, b: int): int {
    if a <= b then a else b
  }

  function Max(a: int, b: int): int {
    if a >= b then a else b
  }
}
