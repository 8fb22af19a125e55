/** Bytes, the ASCII constants the history format uses, and the small
    sequence helpers every other module shares. */
module Bytes {

  newtype byte = b: int | 0 <= b < 256

  const LF: byte := 0x0A
  const CR: byte := 0x0D
  const SPACE: byte := 0x20
  const MINUS: byte := 0x2D
  const PLUS: byte := 0x2B
  const COLON: byte := 0x3A
  const SEMICOLON: byte := 0x3B
  const BACKSLASH: byte := 0x5C
  const ZERO: byte := 0x30

  datatype Option<+T> = None | Some(value: T)

  /** The outcome of an operation that the source ends with a thrown Error. */
  datatype Result<+T> = Ok(value: T) | Err(reason: string)

  /** The bytes of a text whose characters are all below 256, one byte per
      character (for stating the repository's text test cases on bytes). */
  function FromString(s: string): (r: seq<byte>)
    ensures |r| == |s|
    ensures forall i :: 0 <= i < |s| ==> r[i] as int == s[i] as int % 256
  {
    seq(|s|, i requires 0 <= i < |s| => (s[i] as int % 256) as byte)
  }

  /** The first position of `x` in `s`, if any. */
  function IndexOf(s: seq<byte>, x: byte): (r: Option<nat>)
    ensures r.Some? ==> r.value < |s| && s[r.value] == x && x !in s[..r.value]
    ensures r.None? <==> x !in s
  {
    if s == [] then None
    else if s[0] == x then Some(0)
    else match IndexOf(s[1..], x)
      case None => None
      case Some(i) => Some(i + 1)
  }

  /** `IndexOf` finds the end of a prefix free of `x` followed by `x`. */
  lemma {:induction false} IndexOfAfter(a: seq<byte>, x: byte, b: seq<byte>)
    requires x !in a
    ensures IndexOf(a + [x] + b, x) == Some(|a|)
  {
    if a != [] {
      assert (a + [x] + b)[1..] == a[1..] + [x] + b;
      IndexOfAfter(a[1..], x, b);
    }
  }

  /** Number of occurrences of `x` in `s`. */
  function Count(s: seq<byte>, x: byte): nat
  {
    if s == [] then 0 else (if s[0] == x then 1 else 0) + Count(s[1..], x)
  }

  lemma {:induction false} CountAppend(a: seq<byte>, b: seq<byte>, x: byte)
    ensures Count(a + b, x) == Count(a, x) + Count(b, x)
  {
    if a == [] {
      assert a + b == b;
    } else {
      assert (a + b)[1..] == a[1..] + b;
      CountAppend(a[1..], b, x);
    }
  }

  lemma {:induction false} CountAbsent(s: seq<byte>, x: byte)
    requires x !in s
    ensures Count(s, x) == 0
  {
    if s != [] {
      CountAbsent(s[1..], x);
    }
  }

  function Last(s: seq<byte>): byte
    requires s != []
  {
    s[|s| - 1]
  }

  /** Every byte of `s` is a space. */
  predicate AllSpaces(s: seq<byte>)
  {
    forall i :: 0 <= i < |s| ==> s[i] == SPACE
  }
}
