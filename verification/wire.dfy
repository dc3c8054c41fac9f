/** Byte-level building blocks of the native binary layout the persistence
    protocol writes: little-endian fixed-width words, the 4-byte `int`,
    the 8-byte `size_t`, the 1-byte `bool`, opaque 4-byte `float` words,
    and the output/input streams the `Serialize`/`Deserialize` members use. */
module Wire {

  datatype Option<T> = None | Some(value: T)

  type byte = x: int | 0 <= x < 256

  /** A file path, as the bytes of a `std::string`. */
  type Path = seq<byte>

  /** The bytes of a string literal made of 8-bit characters. */
  function Bytes(s: string): (b: Path)
    requires forall i :: 0 <= i < |s| ==> s[i] as int < 256
    ensures |b| == |s|
  {
    seq(|s|, i requires 0 <= i < |s| => s[i] as int)
  }

  /** C++ `%` on `int`: the remainder takes the sign of the dividend. */
  function CRem(a: int, m: int): (r: int)
    requires m > 0
    ensures a >= 0 ==> 0 <= r < m && r == a % m
    ensures a < 0 ==> -m < r <= 0
  {
    if a >= 0 then a % m else -((-a) % m)
  }

  lemma SeqAppendAssoc<T>(a: seq<T>, b: seq<T>, c: seq<T>)
    ensures (a + b) + c == a + (b + c)
  {
  }

  /** A 4-byte word: the in-memory image of a `float` or an `int`. */
  type Word4 = s: seq<byte> | |s| == 4 witness [0, 0, 0, 0]

  const INT_SIZE: nat := 4
  const FLOAT_SIZE: nat := 4
  const BOOL_SIZE: nat := 1
  const SIZE_T_SIZE: nat := 8

  function Pow256(n: nat): (p: nat)
    ensures p >= 1
  {
    if n == 0 then 1 else 256 * Pow256(n - 1)
  }

  const TWO_32: nat := 0x1_0000_0000
  const TWO_31: nat := 0x8000_0000
  const TWO_64: nat := 0x1_0000_0000_0000_0000

  lemma Pow256Values()
    ensures Pow256(4) == TWO_32 && Pow256(8) == TWO_64
  {
    assert Pow256(2) == 65536;
    assert Pow256(4) == 65536 * 65536;
    assert Pow256(8) == Pow256(4) * Pow256(4) by {
      assert Pow256(8) == 256 * 256 * 256 * 256 * Pow256(4);
    }
  }

  /** `v` as `n` little-endian bytes. */
  function ToLE(v: nat, n: nat): (s: seq<byte>)
    requires v < Pow256(n)
    ensures |s| == n
  {
    if n == 0 then [] else [v % 256] + ToLE(v / 256, n - 1)
  }

  /** The unsigned value of little-endian bytes. */
  function FromLE(s: seq<byte>): (v: nat)
    ensures v < Pow256(|s|)
  {
    if s == [] then 0 else s[0] + 256 * FromLE(s[1..])
  }

  lemma {:induction false} FromToLE(v: nat, n: nat)
    requires v < Pow256(n)
    ensures FromLE(ToLE(v, n)) == v
  {
    if n > 0 {
      FromToLE(v / 256, n - 1);
      assert ToLE(v, n)[1..] == ToLE(v / 256, n - 1);
    }
  }

  /** An `int` (32-bit two's complement) as 4 little-endian bytes; values
      outside the 32-bit range wrap, as a store to an `int` would. */
  function EncodeInt32(i: int): (w: Word4)
    ensures FromLE(w) == i % TWO_32
  {
    Pow256Values();
    FromToLE(i % TWO_32, 4);
    ToLE(i % TWO_32, 4)
  }

  function DecodeInt32(w: Word4): (i: int)
    ensures InInt32(i)
  {
    Pow256Values();
    var u := FromLE(w);
    if u >= TWO_31 then u - TWO_32 else u
  }

  predicate InInt32(i: int)
  {
    -(TWO_31 as int) <= i < TWO_31
  }

  lemma Int32RoundTrip(i: int)
    requires InInt32(i)
    ensures DecodeInt32(EncodeInt32(i)) == i
  {
    Pow256Values();
    FromToLE(i % TWO_32, 4);
  }

  /** A `size_t` as 8 little-endian bytes (wrapping at 2^64). */
  function EncodeSize(n: nat): (w: seq<byte>)
    ensures |w| == SIZE_T_SIZE
  {
    Pow256Values();
    ToLE(n % TWO_64, 8)
  }

  function DecodeSize(w: seq<byte>): (n: nat)
    requires |w| == SIZE_T_SIZE
    ensures n < TWO_64
  {
    Pow256Values();
    FromLE(w)
  }

  lemma SizeRoundTrip(n: nat)
    requires n < TWO_64
    ensures DecodeSize(EncodeSize(n)) == n
  {
    Pow256Values();
    assert n % TWO_64 == n;
    FromToLE(n, 8);
  }

  /** A `bool` is stored as one byte, 1 or 0; any non-zero byte reads back as true. */
  function EncodeBool(b: bool): (w: seq<byte>)
    ensures |w| == BOOL_SIZE
  {
    if b then [1] else [0]
  }

  function DecodeBool(w: seq<byte>): (b: bool)
    requires |w| == BOOL_SIZE
    ensures w == EncodeBool(b) <==> w[0] <= 1
    ensures w[0] > 1 ==> b
  {
    w[0] != 0
  }

  /** How a `float` value and its 4-byte image relate. IEEE 754 binary32 is
      not modelled: the codec copies whatever word `bits` gives, and reads
      back whatever value `value` gives. */
  datatype FloatCodec = FloatCodec(bits: real -> Word4, value: Word4 -> real)

  /** `r` survives a trip through its 4-byte image (every value a `float`
      variable holds does). */
  predicate Exact(fc: FloatCodec, r: real)
  {
    fc.value(fc.bits(r)) == r
  }

  /** A `std::ostream` opened for binary output: the bytes written so far. */
  class OutStream {
    var bytes: seq<byte>

    constructor ()
      ensures bytes == []
    {
      bytes := [];
    }

    method Write(w: seq<byte>)
      modifies this
      ensures bytes == old(bytes) + w
    {
      bytes := bytes + w;
    }
  }

  /** A `std::istream` over a byte sequence. A read past the end fails, puts
      the stream in the failed state, and every later read fails too. */
  class InStream {
    const data: seq<byte>
    var pos: nat
    var failed: bool

    ghost predicate Valid()
      reads this
    {
      pos <= |data| && (failed ==> pos == |data|)
    }

    /** What a decoder sees: the bytes not yet consumed. */
    function Remaining(): seq<byte>
      reads this
      requires Valid()
    {
      data[pos..]
    }

    constructor (d: seq<byte>)
      ensures Valid() && data == d && pos == 0 && !failed
    {
      data, pos, failed := d, 0, false;
    }

    /** Reads exactly `n` bytes, or fails without producing any. */
    method Read(n: nat) returns (ok: bool, w: seq<byte>)
      requires Valid()
      modifies this
      ensures Valid()
      ensures ok <==> n <= |old(Remaining())|
      ensures ok ==> w == old(Remaining())[..n] && Remaining() == old(Remaining())[n..]
      ensures ok ==> failed == old(failed)
      ensures !ok ==> failed && Remaining() == []
      ensures |w| == n
    {
      if pos + n <= |data| {
        ok, w := true, data[pos..pos + n];
        pos := pos + n;
      } else {
        ok, w := false, seq(n, _ => 0);
        pos, failed := |data|, true;
      }
    }
  }
}
