/** Machine-level vocabulary shared by the utilities: bytes, errno values and
    the widths of the C integer types on an LP64 platform. */
module Sys {

  /** One unsigned byte, as read from or written to a file descriptor. */
  newtype byte = x: int | 0 <= x < 256

  /** The line delimiter '\n'. */
  const NL: byte := 10

  // errno values, Linux numbering
  const EINTR: int := 4
  const EIO: int := 5
  const EINVAL: int := 22
  const ERANGE: int := 34

  const INT_MAX: int := 0x7fff_ffff
  const LONG_MAX: int := 0x7fff_ffff_ffff_ffff
  const LONG_MIN: int := -0x8000_0000_0000_0000

  datatype Option<T> = None | Some(value: T)

  /** Number of '\n' bytes in `s`. */
  function Newlines(s: seq<byte>): nat
  {
    if s == [] then 0 else (if s[0] == NL then 1 else 0) + Newlines(s[1..])
  }

  lemma {:induction false} NewlinesAppend(a: seq<byte>, b: seq<byte>)
    ensures Newlines(a + b) == Newlines(a) + Newlines(b)
  {
    if a != [] {
      assert (a + b)[1..] == a[1..] + b;
      NewlinesAppend(a[1..], b);
    } else {
      assert a + b == b;
    }
  }

  lemma {:induction false} NewlinesZero(s: seq<byte>)
    ensures Newlines(s) == 0 <==> NL !in s
  {
    if s != [] {
      NewlinesZero(s[1..]);
      assert s == [s[0]] + s[1..];
    }
  }

  function Min(a: nat, b: nat): nat
  {
    if a <= b then a else b
  }
}
