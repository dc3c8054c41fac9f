/** The persistence protocol's shared pieces: the base resource's empty
    record, the length-prefixed blob helpers `SerializeAsset` /
    `DeserializeAsset`, and the "count, then each child" layout containers
    use for their child lists. */
module Resources {
  import opened Wire

  /** The base `Resource::Serialize`: writes nothing. */
  method Serialize(out: OutStream)
    modifies out
    ensures out.bytes == old(out.bytes)
  {
  }

  /** The base `Resource::Deserialize`: reads nothing. */
  method Deserialize(src: InStream)
    requires src.Valid()
    modifies src
    ensures src.Valid() && src.pos == old(src.pos) && src.failed == old(src.failed)
  {
  }

  /** A size word written for a count below 2^64 reads back as that count. */
  lemma CountWordReads(n: nat)
    ensures n < TWO_64 ==> DecodeSize(EncodeSize(n)) == n
  {
    if n < TWO_64 {
      SizeRoundTrip(n);
    }
  }

  /** The bytes `SerializeAsset` writes for a blob: its size word, then the blob. */
  function EncodeBlob(data: seq<byte>): (e: seq<byte>)
    ensures |e| == SIZE_T_SIZE + |data| && e[SIZE_T_SIZE..] == data
    ensures |data| < TWO_64 ==> DecodeSize(e[..SIZE_T_SIZE]) == |data|
  {
    CountWordReads(|data|);
    EncodeSize(|data|) + data
  }

  /** What `DeserializeAsset` reads: a size word and that many bytes, with
      what follows them; nothing when the input is too short. */
  function DecodeBlob(s: seq<byte>): (r: Option<(seq<byte>, seq<byte>)>)
    ensures r.Some? ==> |s| >= SIZE_T_SIZE + |r.value.0| && r.value.1 == s[SIZE_T_SIZE + |r.value.0|..]
    ensures r.Some? ==> |r.value.0| == DecodeSize(s[..SIZE_T_SIZE])
  {
    if |s| < SIZE_T_SIZE then None
    else
      var n := DecodeSize(s[..SIZE_T_SIZE]);
      if |s| - SIZE_T_SIZE < n then None
      else Some((s[SIZE_T_SIZE..SIZE_T_SIZE + n], s[SIZE_T_SIZE + n..]))
  }

  /** Reading a written blob gives back the same bytes and size, and
      consumes exactly what was written. */
  lemma BlobRoundTrip(data: seq<byte>, rest: seq<byte>)
    requires |data| < TWO_64
    ensures DecodeBlob(EncodeBlob(data) + rest) == Some((data, rest))
  {
    var s := EncodeBlob(data) + rest;
    assert s[..SIZE_T_SIZE] == EncodeSize(|data|);
    SizeRoundTrip(|data|);
    assert s[SIZE_T_SIZE..SIZE_T_SIZE + |data|] == data;
    assert s[SIZE_T_SIZE + |data|..] == rest;
  }

  /** `SerializeAsset(stream, data, size)`: the first `size` bytes at `data`,
      with their size in front. */
  method SerializeAsset(out: OutStream, data: seq<byte>, size: nat)
    requires size <= |data|
    modifies out
    ensures out.bytes == old(out.bytes) + EncodeBlob(data[..size])
  {
    out.Write(EncodeSize(size));
    out.Write(data[..size]);
  }

  /** `DeserializeAsset(stream, data, size)`: a size word, then that many
      bytes into a new buffer. */
  method DeserializeAsset(src: InStream) returns (data: seq<byte>, size: nat)
    requires src.Valid()
    modifies src
    ensures src.Valid()
    ensures DecodeBlob(old(src.Remaining())).Some? ==>
      var (blob, rest) := DecodeBlob(old(src.Remaining())).value;
      data == blob && size == |blob| && src.Remaining() == rest && !src.failed
  {
    var ok, w := src.Read(SIZE_T_SIZE);
    size := if ok then DecodeSize(w) else 0;
    var ok2, d := src.Read(size);
    data := d;
  }

  /** The children of a container, each written by `enc`, in list order. */
  function EncodeEach<T>(enc: T -> seq<byte>, xs: seq<T>): (e: seq<byte>)
    ensures xs == [] ==> e == []
    ensures |xs| == 1 ==> e == enc(xs[0])
  {
    if xs == [] then [] else EncodeEach(enc, xs[..|xs| - 1]) + enc(xs[|xs| - 1])
  }

  lemma EncodeEachSnoc<T>(enc: T -> seq<byte>, xs: seq<T>, i: nat)
    requires i < |xs|
    ensures EncodeEach(enc, xs[..i + 1]) == EncodeEach(enc, xs[..i]) + enc(xs[i])
  {
    assert xs[..i + 1][..i] == xs[..i];
  }

  /** Children of one fixed width take that width each. */
  lemma {:induction false} EncodeEachFixed<T>(enc: T -> seq<byte>, xs: seq<T>, width: nat)
    requires forall x :: |enc(x)| == width
    ensures |EncodeEach(enc, xs)| == width * |xs|
    decreases |xs|
  {
    if xs != [] {
      EncodeEachFixed(enc, xs[..|xs| - 1], width);
    }
  }

  /** `n` children read one after another by `dec`; index 0 first. */
  function DecodeEach<T>(dec: seq<byte> -> Option<(T, seq<byte>)>, n: nat, s: seq<byte>)
    : (r: Option<(seq<T>, seq<byte>)>)
    ensures r.Some? ==> |r.value.0| == n
  {
    if n == 0 then Some(([], s))
    else match DecodeEach(dec, n - 1, s)
      case None => None
      case Some((xs, rest)) =>
        match dec(rest)
        case None => None
        case Some((x, rest')) => Some((xs + [x], rest'))
  }

  /** One more child: the list decodes one element further exactly when the
      next child decodes from what the shorter list left. */
  lemma DecodeEachStep<T>(dec: seq<byte> -> Option<(T, seq<byte>)>, n: nat, s: seq<byte>,
                          xs: seq<T>, rest: seq<byte>)
    requires DecodeEach(dec, n, s) == Some((xs, rest)) && DecodeEach(dec, n + 1, s).Some?
    ensures dec(rest).Some?
    ensures DecodeEach(dec, n + 1, s).value == (xs + [dec(rest).value.0], dec(rest).value.1)
  {
  }

  /** A list that decodes in full decodes in every prefix. */
  lemma {:induction false} DecodeEachPrefix<T>(dec: seq<byte> -> Option<(T, seq<byte>)>, n: nat, i: nat, s: seq<byte>)
    requires i <= n && DecodeEach(dec, n, s).Some?
    ensures DecodeEach(dec, i, s).Some?
    decreases n
  {
    if i < n {
      DecodeEachPrefix(dec, n - 1, i, s);
    }
  }

  /** A child list as a container writes it: the count as a size word, then
      each child. */
  function EncodeCounted<T>(enc: T -> seq<byte>, xs: seq<T>): (e: seq<byte>)
    ensures |e| >= SIZE_T_SIZE
    ensures |xs| < TWO_64 ==> DecodeSize(e[..SIZE_T_SIZE]) == |xs|
  {
    CountWordReads(|xs|);
    EncodeSize(|xs|) + EncodeEach(enc, xs)
  }

  function DecodeCounted<T>(dec: seq<byte> -> Option<(T, seq<byte>)>, s: seq<byte>)
    : (r: Option<(seq<T>, seq<byte>)>)
    ensures |s| < SIZE_T_SIZE ==> r.None?
    ensures r.Some? ==> |r.value.0| == DecodeSize(s[..SIZE_T_SIZE])
  {
    if |s| < SIZE_T_SIZE then None
    else DecodeEach(dec, DecodeSize(s[..SIZE_T_SIZE]), s[SIZE_T_SIZE..])
  }

  /** If each child survives its own round trip, the list does, in order. */
  lemma {:induction false} EachRoundTrip<T>(enc: T -> seq<byte>, dec: seq<byte> -> Option<(T, seq<byte>)>,
                                            xs: seq<T>, rest: seq<byte>)
    requires forall i, r :: 0 <= i < |xs| ==> dec(enc(xs[i]) + r) == Some((xs[i], r))
    ensures DecodeEach(dec, |xs|, EncodeEach(enc, xs) + rest) == Some((xs, rest))
  {
    if xs != [] {
      var init, last := xs[..|xs| - 1], xs[|xs| - 1];
      assert forall i, r :: 0 <= i < |init| ==> dec(enc(init[i]) + r) == Some((init[i], r)) by {
        forall i, r | 0 <= i < |init| ensures dec(enc(init[i]) + r) == Some((init[i], r)) {
          assert init[i] == xs[i];
        }
      }
      EachRoundTrip(enc, dec, init, enc(last) + rest);
      var s := EncodeEach(enc, init) + (enc(last) + rest);
      assert EncodeEach(enc, xs) + rest == s;
      assert DecodeEach(dec, |init|, s) == Some((init, enc(last) + rest));
      assert dec(enc(xs[|xs| - 1]) + rest) == Some((last, rest));
      assert DecodeEach(dec, |xs|, s) == Some((init + [last], rest));
      assert init + [last] == xs;
    } else {
      assert EncodeEach(enc, xs) + rest == rest;
    }
  }

  lemma CountedRoundTrip<T>(enc: T -> seq<byte>, dec: seq<byte> -> Option<(T, seq<byte>)>,
                            xs: seq<T>, rest: seq<byte>)
    requires |xs| < TWO_64
    requires forall i, r :: 0 <= i < |xs| ==> dec(enc(xs[i]) + r) == Some((xs[i], r))
    ensures DecodeCounted(dec, EncodeCounted(enc, xs) + rest) == Some((xs, rest))
  {
    var s := EncodeCounted(enc, xs) + rest;
    assert s[..SIZE_T_SIZE] == EncodeSize(|xs|);
    assert s[SIZE_T_SIZE..] == EncodeEach(enc, xs) + rest;
    SizeRoundTrip(|xs|);
    EachRoundTrip(enc, dec, xs, rest);
  }
}
