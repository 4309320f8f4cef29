/** Shared definitions: optional values, results, bytes and flattening of byte chunks. */
module Base {

  datatype Option<+T> = None | Some(value: T)

  datatype Result<+T, +E> = Ok(value: T) | Err(error: E)

  /** `d.get(key, default)`: the value when the key is present, the default otherwise. */
  function GetOr<T>(o: Option<T>, default: T): T
  {
    match o
    case Some(v) => v
    case None => default
  }

  /** One byte on the wire (USB bulk transfer, SPI transfer). */
  type byte = bv8

  /** Concatenation of a list of sequences, in order. */
  function Flatten<T>(parts: seq<seq<T>>): (r: seq<T>)
    decreases |parts|
  {
    if parts == [] then [] else parts[0] + Flatten(parts[1..])
  }

  lemma {:induction false} FlattenAppend<T>(a: seq<seq<T>>, b: seq<seq<T>>)
    ensures Flatten(a + b) == Flatten(a) + Flatten(b)
    decreases |a|
  {
    if a == [] {
      assert a + b == b;
    } else {
      assert (a + b)[1..] == a[1..] + b;
      FlattenAppend(a[1..], b);
    }
  }

  /** Flattening `count` blocks of the same length `len` puts element `j` of block `y`
      at position `y * len + j`. */
  lemma {:induction false} FlattenUniformAt<T>(parts: seq<seq<T>>, len: nat, y: nat, j: nat)
    requires forall k | 0 <= k < |parts| :: |parts[k]| == len
    requires y < |parts| && j < len
    ensures |Flatten(parts)| == |parts| * len
    ensures y * len + j < |Flatten(parts)|
    ensures Flatten(parts)[y * len + j] == parts[y][j]
    decreases |parts|
  {
    FlattenUniformLength(parts, len);
    if y > 0 {
      FlattenUniformAt(parts[1..], len, y - 1, j);
      assert y * len + j == len + ((y - 1) * len + j);
    }
  }

  lemma {:induction false} FlattenUniformLength<T>(parts: seq<seq<T>>, len: nat)
    requires forall k | 0 <= k < |parts| :: |parts[k]| == len
    ensures |Flatten(parts)| == |parts| * len
    decreases |parts|
  {
    if parts != [] {
      FlattenUniformLength(parts[1..], len);
      assert |parts| * len == len + (|parts| - 1) * len;
    }
  }

  /** `n` copies of `b`. */
  function Repeat(b: byte, n: nat): (r: seq<byte>)
    ensures |r| == n
    ensures forall k | 0 <= k < n :: r[k] == b
  {
    seq(n, _ => b)
  }

  /** Converting an integer in 0..255 to a byte and back gives the integer. */
  lemma ByteOfInt(x: int)
    requires 0 <= x < 256
    ensures (x as bv8) as int == x
  {
    if x < 128 {
      if x < 64 {} else {}
    } else {
      if x < 192 {} else {}
    }
  }

  /** The byte with only bit k set (`1 << k`). */
  function Mask(k: nat): (m: byte)
    requires k < 8
    ensures m == 1 << k
  {
    if k == 0 then 0x01 else if k == 1 then 0x02 else if k == 2 then 0x04
    else if k == 3 then 0x08 else if k == 4 then 0x10 else if k == 5 then 0x20
    else if k == 6 then 0x40 else 0x80
  }

  /** Bit k (0 = least significant) of a byte. */
  predicate BitAt(v: byte, k: nat)
    requires k < 8
  {
    v & Mask(k) != 0
  }

  lemma SetBitAt(v: byte, m: nat, k: nat)
    requires m < 8 && k < 8
    ensures BitAt(v | Mask(m), k) <==> BitAt(v, k) || k == m
  {
  }

  lemma ZeroBits(k: nat)
    requires k < 8
    ensures !BitAt(0, k)
  {
  }
}
