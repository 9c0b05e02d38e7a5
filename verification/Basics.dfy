/** Byte strings, hashes and the small result types shared by every module. */
module Basics {

  datatype Option<+T> = None | Some(value: T)

  datatype Result<+T> = Ok(value: T) | Err(error: string)

  type byte = x: int | 0 <= x < 256

  /** Go's `string` and `[]byte` are both byte sequences. */
  type Bytes = seq<byte>

  type NodeID = Bytes

  /** What SHA-256 returns: 32 bytes. */
  type Digest = d: Bytes | |d| == 32 witness seq(32, _ => 0)

  /** The hash is a parameter everywhere: nothing but its output length is known of it. */
  type Hash = Bytes -> Digest

  /** Two different inputs with the same hash. */
  predicate Collides(h: Hash, a: Bytes, b: Bytes) {
    a != b && h(a) == h(b)
  }

  /** Go's `uint64`. */
  const WORD := 0x1_0000_0000_0000_0000

  type uint64 = x: int | 0 <= x < WORD

  function Ascii(s: string): (b: Bytes)
    ensures |b| == |s|
  {
    seq(|s|, i requires 0 <= i < |s| => s[i] as int % 256)
  }

  function Last<T>(s: seq<T>): T
    requires s != []
  {
    s[|s| - 1]
  }

  /** Go's integer division truncates toward zero. */
  function TruncDiv(a: int, b: int): int
    requires b > 0
  {
    if a >= 0 then a / b else -((-a) / b)
  }

  /** `big.Int.SetBytes`. */
  function BigEndian(b: Bytes): nat {
    if b == [] then 0 else 256 * BigEndian(b[..|b| - 1]) + b[|b| - 1]
  }

  lemma MultisetMember<T>(s: seq<T>, t: seq<T>, k: nat) returns (j: nat)
    requires multiset(s) == multiset(t)
    requires k < |s|
    ensures j < |t| && t[j] == s[k]
  {
    assert s[k] in multiset(s);
    assert s[k] in multiset(t);
    j :| j < |t| && t[j] == s[k];
  }
}
