/** Bytes, big-endian 16-bit fields and concatenation of parts. */
module Bytes {

  newtype byte = x: int | 0 <= x < 256

  /** The number a big-endian pair of bytes stands for. */
  function Be16(hi: byte, lo: byte): (n: nat)
    ensures n < 0x1_0000
  {
    hi as int * 256 + lo as int
  }

  /** Bits 15-8 of `n`, as `(n >> 8) & 0xFF`. */
  function Hi(n: nat): byte {
    (n / 256 % 256) as byte
  }

  /** Bits 7-0 of `n`, as `n & 0xFF`. */
  function Lo(n: nat): byte {
    (n % 256) as byte
  }

  lemma Be16Inverse(n: nat)
    requires n < 0x1_0000
    ensures Be16(Hi(n), Lo(n)) == n
  {
  }

  /** True for the bytes B'001xxxxx', i.e. `(b & 0xE0) == 0x20`. */
  predicate IsAttribute(b: byte) {
    0x20 <= b < 0x40
  }

  /** Bytes of field control words before the attribute byte of a start-field order. */
  function ControlWordsLength(s: seq<byte>): (n: nat)
    ensures n <= |s|
  {
    if |s| < 2 || IsAttribute(s[0]) then 0 else 2 + ControlWordsLength(s[2..])
  }

  /** The results of `f` on the elements of `s`, joined in order. */
  function FlatMap<E, T>(f: E -> seq<T>, s: seq<E>): seq<T> {
    if s == [] then [] else FlatMap(f, s[..|s| - 1]) + f(s[|s| - 1])
  }

  lemma FlatMapSnoc<E, T>(f: E -> seq<T>, s: seq<E>, e: E)
    ensures FlatMap(f, s + [e]) == FlatMap(f, s) + f(e)
  {
    assert (s + [e])[..|s|] == s;
  }

  lemma {:induction false} FlatMapAppend<E, T>(f: E -> seq<T>, a: seq<E>, b: seq<E>)
    ensures FlatMap(f, a + b) == FlatMap(f, a) + FlatMap(f, b)
  {
    if b == [] {
      assert a + b == a;
    } else {
      var ab, b' := a + b, b[..|b| - 1];
      FlatMapAppend(f, a, b');
      assert ab[..|ab| - 1] == a + b';
      assert FlatMap(f, ab) == FlatMap(f, a + b') + f(b[|b| - 1]);
    }
  }

  lemma FlatMapOne<E, T>(f: E -> seq<T>, e: E)
    ensures FlatMap(f, [e]) == f(e)
  {
    assert FlatMap(f, [e][..0]) == [];
  }

  lemma FlatMapCons<E, T>(f: E -> seq<T>, s: seq<E>)
    requires s != []
    ensures FlatMap(f, s) == f(s[0]) + FlatMap(f, s[1..])
  {
    assert s == [s[0]] + s[1..];
    FlatMapAppend(f, [s[0]], s[1..]);
    FlatMapOne(f, s[0]);
  }

  function Id(part: seq<byte>): seq<byte> {
    part
  }

  /** The parts joined in order. */
  function Concat(parts: seq<seq<byte>>): seq<byte> {
    FlatMap(Id, parts)
  }
}
