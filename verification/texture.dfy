/** A sprite: the path it was loaded from and, when decoding succeeded, the
    decoded image. Only the path is persisted; the pixels are decoded again
    from the file when a texture is read back. */
module Textures {
  import opened Wire
  import opened TgaReader
  import opened ObjectPools
  import Resources

  /** The image `TGAReader::ReadTGA(path)` produces, if any. */
  function LoadedImage(files: map<Path, seq<byte>>, path: Path): (r: Option<ImageInfo>)
    ensures path !in files ==> r.None?
    ensures r.Some? ==>
      r.value.bitsPerPixel in {24, 32} &&
      |r.value.data| == r.value.width * r.value.height * (r.value.bitsPerPixel / 8)
  {
    if path in files && Decode(files[path]).Decoded? then Some(Decode(files[path]).image) else None
  }

  /** The path a C string holds: the bytes before the first NUL. */
  function UpToNul(raw: seq<byte>): (p: seq<byte>)
    ensures 0 !in p && p <= raw
    ensures p == raw || (|p| < |raw| && raw[|p|] == 0)
  {
    if raw == [] || raw[0] == 0 then [] else [raw[0]] + UpToNul(raw[1..])
  }

  /** A path without NUL bytes comes back whole from its record. */
  lemma {:induction false} PathRoundTrip(path: Path, rest: seq<byte>)
    requires 0 !in path && |path| < TWO_64
    ensures Resources.DecodeBlob(Resources.EncodeBlob(path) + rest) == Some((path, rest))
    ensures UpToNul(path) == path
  {
    Resources.BlobRoundTrip(path, rest);
    NulFreeKept(path);
  }

  lemma {:induction false} NulFreeKept(raw: seq<byte>)
    requires 0 !in raw
    ensures UpToNul(raw) == raw
  {
    if raw != [] {
      assert raw[0] != 0;
      assert 0 !in raw[1..] by {
        forall i | 0 <= i < |raw[1..]| ensures raw[1..][i] != 0 {
          assert raw[1..][i] == raw[i + 1];
        }
      }
      NulFreeKept(raw[1..]);
      assert raw == [raw[0]] + raw[1..];
    }
  }

  /** A path with a NUL byte comes back cut short at its first NUL. */
  lemma NulTruncates(path: Path, k: nat)
    requires k < |path| && path[k] == 0
    ensures |UpToNul(path)| <= k && UpToNul(path) != path
  {
  }

  class Texture {
    var path: Path
    var image: Option<ImageInfo>

    /** A new texture holds no decoded image. */
    constructor ()
      ensures path == [] && image == None
    {
      path := [];
      image := None;
    }

    /** Records `p` (also when decoding fails) and decodes the file; true
        exactly when an image came out. */
    method Load(files: map<Path, seq<byte>>, p: Path) returns (ok: bool)
      modifies this
      ensures path == p && image == LoadedImage(files, p)
      ensures ok <==> image.Some?
    {
      path := p;
      var r := ReadTGA(files, p);
      image := if r.Decoded? then Some(r.image) else None;
      ok := image.Some?;
    }

    /** Drops the decoded image; a second call does nothing. */
    method Unload()
      modifies this
      ensures image == None && path == old(path)
    {
      if image.Some? {
        image := None;
      }
    }

    /** The record: the path length as a size word, then the raw path
        bytes, with no terminator. */
    method Serialize(out: OutStream)
      modifies out
      ensures out.bytes == old(out.bytes) + Resources.EncodeBlob(path)
    {
      var pathLen := |path|;
      out.Write(EncodeSize(pathLen));
      out.Write(path);
    }

    /** Reads the length and that many bytes, takes the path from them as a
        C string, and decodes the image again from that path. */
    method Deserialize(src: InStream, files: map<Path, seq<byte>>)
      requires src.Valid()
      modifies this, src
      ensures src.Valid()
      ensures Resources.DecodeBlob(old(src.Remaining())).Some? ==>
        var (raw, rest) := Resources.DecodeBlob(old(src.Remaining())).value;
        path == UpToNul(raw) && image == LoadedImage(files, path) && src.Remaining() == rest
    {
      ghost var s := src.Remaining();
      var ok, w := src.Read(SIZE_T_SIZE);
      var pathLen := if ok then DecodeSize(w) else 0;
      var ok2, buffer := src.Read(pathLen);
      var p := UpToNul(buffer);
      var _ := Load(files, p);
      if Resources.DecodeBlob(s).Some? {
        assert ok && w == s[..SIZE_T_SIZE];
        assert buffer == s[SIZE_T_SIZE..][..pathLen] == s[SIZE_T_SIZE..SIZE_T_SIZE + pathLen];
        assert src.Remaining() == s[SIZE_T_SIZE..][pathLen..] == s[SIZE_T_SIZE + pathLen..];
      }
    }
  }

  /** `ObjectPool<Texture>(n)`: n new textures, all free. */
  method NewTexturePool(n: nat) returns (pool: ObjectPool<Texture>)
    ensures fresh(pool) && pool.Sound() && |pool.all| == n && pool.available == pool.all
    ensures pool.outstanding == {}
    ensures forall t :: t in pool.all ==> fresh(t) && t.image == None
  {
    var made: seq<Texture> := [];
    while |made| < n
      invariant |made| <= n && Distinct(made)
      invariant forall t :: t in made ==> fresh(t) && t.image == None
    {
      var t := new Texture();
      made := made + [t];
    }
    pool := new ObjectPool(made);
  }

  /** The handle a lazy acquisition added: `after` when `before` was null. */
  function Acquired(before: Texture?, after: Texture?): set<Texture>
  {
    if before == null && after != null then {after} else {}
  }

  /** `GetResource` from the texture pool followed by `Load(path)`: the
      lazy acquisition warriors and rocks perform. */
  method Acquire(pool: ObjectPool<Texture>, files: map<Path, seq<byte>>, path: Path) returns (t: Texture)
    requires pool.Sound()
    modifies pool, pool.available
    ensures pool.Sound() && t in pool.all && t !in old(pool.outstanding)
    ensures pool.outstanding == old(pool.outstanding) + {t}
    ensures |pool.all| >= |old(pool.all)|
    ensures pool.available == if old(pool.available) == [] then [] else old(pool.available)[1..]
    ensures t in old(pool.all) ==> t == old(pool.available)[0]
    ensures t !in old(pool.all) ==> fresh(t)
    ensures t.path == path && t.image == LoadedImage(files, path)
    ensures forall u :: u in pool.available ==> u.path == old(u.path) && u.image == old(u.image)
  {
    var spare := new Texture();
    t := pool.GetResource(spare);
    var _ := t.Load(files, path);
  }
}
