/** The asset cache: files read once, their bytes copied into the bump
    allocator's arena, and the resulting assets kept in a path-keyed map.
    A pointer into an arena is modelled as a buffer and an offset. */
module AssetControllers {
  import opened Wire
  import opened StackAllocators

  /** `Asset`: where its bytes live, and how many there are. A null
      `buffer` is the null data pointer of a new asset. */
  class Asset {
    var buffer: array?<byte>
    var offset: nat
    var size: nat

    constructor ()
      ensures buffer == null && size == 0
    {
      buffer, offset, size := null, 0, 0;
    }

    method SetData(buffer: array<byte>, offset: nat, size: nat)
      modifies this
      ensures this.buffer == buffer && this.offset == offset && this.size == size
    {
      this.buffer, this.offset, this.size := buffer, offset, size;
    }

    /** The bytes the asset points at. */
    function Bytes(): (b: seq<byte>)
      requires buffer != null && offset + size <= buffer.Length
      reads this, buffer
      ensures |b| == size && forall k :: 0 <= k < size ==> b[k] == buffer[offset + k]
    {
      buffer[offset..offset + size]
    }
  }

  /** `new Asset()` followed by `SetData`, as `LoadAsset` does. */
  method NewAsset(buffer: array<byte>, offset: nat, size: nat) returns (a: Asset)
    ensures fresh(a) && a.buffer == buffer && a.offset == offset && a.size == size
  {
    a := new Asset();
    a.SetData(buffer, offset, size);
  }

  /** The `memcpy` of `LoadAsset`: `src` lands at `at` and every other byte
      of `dst` stays. */
  method CopyInto(dst: array<byte>, at: nat, src: seq<byte>)
    requires at + |src| <= dst.Length
    modifies dst
    ensures dst[at..at + |src|] == src
    ensures forall k :: 0 <= k < dst.Length && !(at <= k < at + |src|) ==> dst[k] == old(dst[k])
  {
    for i := 0 to |src|
      invariant forall k :: 0 <= k < i ==> dst[at + k] == src[k]
      invariant forall k :: 0 <= k < dst.Length && !(at <= k < at + i) ==> dst[k] == old(dst[k])
    {
      dst[at + i] := src[i];
    }
  }

  class AssetController {
    var allocator: StackAllocator?
    var assets: map<Path, Asset>
    /** The bytes each cached asset was loaded from. */
    ghost var contents: map<Path, seq<byte>>

    /** The arrays the cached assets point into. */
    ghost function Buffers(): set<object>
      reads this, assets.Values
    {
      set a | a in assets.Values && a.buffer != null :: a.buffer as object
    }

    /** Every cached asset points at exactly the bytes it was loaded from,
        and those in `arena` end at or before `bound`. */
    ghost predicate Cached(arena: array?<byte>, bound: nat)
      reads this, assets.Values, Buffers()
    {
      && assets.Keys == contents.Keys
      && forall p :: p in assets ==>
           var a := assets[p];
           && a.buffer != null && a.offset + a.size <= a.buffer.Length
           && a.buffer[a.offset..a.offset + a.size] == contents[p]
           && (a.buffer == arena ==> a.offset + a.size <= bound)
    }

    /** What the cache keeps: with no allocator there is nothing cached;
        otherwise the assets in the current arena lie below its cursor,
        where later allocations cannot reach them. */
    ghost predicate Valid()
      reads this, allocator, assets.Values, Buffers()
    {
      && (allocator == null ==> assets == map[] && contents == map[])
      && (allocator != null ==> allocator.Valid() && Cached(allocator.memory, allocator.used))
    }

    /** `AssetController()`: no allocator, nothing cached. */
    constructor ()
      ensures Valid() && allocator == null && assets == map[]
    {
      allocator := null;
      assets := map[];
      contents := map[];
    }

    /** `Initialize(stackSize)`: a new arena of `stackSize` bytes; the cache
        is left as it is. */
    method Initialize(stackSize: nat)
      requires Valid()
      modifies this
      ensures Valid() && assets == old(assets) && contents == old(contents)
      ensures allocator != null && fresh(allocator) && allocator.size == stackSize && allocator.used == 0
    {
      allocator := new StackAllocator(stackSize);
      assert allocator.memory !in Buffers();
    }

    /** `Shutdown()`: the cache is emptied and the allocator dropped. */
    method Shutdown()
      modifies this
      ensures Valid() && assets == map[] && allocator == null
    {
      assets := map[];
      contents := map[];
      allocator := null;
    }

    /** `LoadAsset(filepath)`: a cached path gives its asset back without
        reading or allocating; otherwise the file is read, its bytes copied
        into the arena and a new asset cached. An unreadable file or an
        arena too full gives null and changes nothing. */
    method LoadAsset(path: Path, files: map<Path, seq<byte>>) returns (a: Asset?)
      requires Valid()
      requires path in assets || path !in files || allocator != null
      modifies this, allocator, if allocator != null then {allocator.memory} else {}
      ensures Valid() && allocator == old(allocator)
      ensures path in old(assets) ==>
        a == old(assets[path]) && assets == old(assets) && (allocator != null ==> allocator.used == old(allocator.used))
      ensures path !in old(assets) && path !in files ==>
        a == null && assets == old(assets) && (allocator != null ==> allocator.used == old(allocator.used))
      ensures path !in old(assets) && path in files && allocator != null &&
              old(allocator.used) + |files[path]| > allocator.size ==>
        a == null && assets == old(assets) && allocator.used == old(allocator.used)
      ensures path !in old(assets) && path in files && allocator != null &&
              old(allocator.used) + |files[path]| <= allocator.size ==>
        && a != null && fresh(a) && assets == old(assets)[path := a]
        && a.buffer == allocator.memory && a.offset == old(allocator.used) && a.size == |files[path]|
        && a.Bytes() == files[path]
        && allocator.used == old(allocator.used) + |files[path]|
      ensures a == null || path in old(assets) ==> contents == old(contents)
      ensures forall q :: q in old(assets) ==>
        q in assets && assets[q] == old(assets[q]) && assets[q].Bytes() == old(contents[q])
      ensures a != null && path !in old(assets) ==> path in files && contents == old(contents)[path := files[path]]
    {
      if path in assets {
        return assets[path];
      }
      if path !in files {
        return null;
      }
      a := Admit(path, files[path]);
    }

    /** The miss path of `LoadAsset` once the file is read: the bytes are
        copied into a fresh allocation and cached under `path`, or, when
        the arena cannot fit them, nothing changes. */
    method Admit(path: Path, data: seq<byte>) returns (a: Asset?)
      requires Valid() && path !in assets && allocator != null
      modifies this, allocator, allocator.memory
      ensures Valid() && allocator == old(allocator)
      ensures old(allocator.used) + |data| > allocator.size ==>
        a == null && assets == old(assets) && allocator.used == old(allocator.used)
      ensures old(allocator.used) + |data| <= allocator.size ==>
        && a != null && fresh(a) && assets == old(assets)[path := a]
        && a.buffer == allocator.memory && a.offset == old(allocator.used) && a.size == |data|
        && a.Bytes() == data
        && allocator.used == old(allocator.used) + |data|
      ensures contents == if a == null then old(contents) else old(contents)[path := data]
    {
      var memory := allocator.Allocate(|data|);
      if memory.None? {
        return null;
      }
      a := Place(path, data, memory.value);
    }

    /** The copy into a granted range `[at, at + |data|)` and the new
        cache entry. */
    method Place(path: Path, data: seq<byte>, at: nat) returns (a: Asset)
      requires allocator != null && allocator.Valid() && path !in assets
      requires at + |data| == allocator.used && Cached(allocator.memory, at)
      modifies this, allocator.memory
      ensures Valid() && allocator == old(allocator) && allocator.used == old(allocator.used)
      ensures fresh(a) && assets == old(assets)[path := a] && contents == old(contents)[path := data]
      ensures a.buffer == allocator.memory && a.offset == at && a.size == |data| && a.Bytes() == data
    {
      var arena := allocator.memory;
      CopyInto(arena, at, data);
      forall p | p in assets
        ensures assets[p].buffer[assets[p].offset..assets[p].offset + assets[p].size] == contents[p]
      {
        var b := assets[p];
        if b.buffer == arena {
          assert b.buffer[b.offset..b.offset + b.size] == old(b.buffer[b.offset..b.offset + b.size]);
        }
      }
      assert Cached(arena, at);
      a := Insert(path, data, at);
    }

    /** A new asset over `[at, at + |data|)`, cached under `path`. */
    method Insert(path: Path, data: seq<byte>, at: nat) returns (a: Asset)
      requires allocator != null && allocator.Valid() && path !in assets
      requires at + |data| == allocator.used && Cached(allocator.memory, at)
      requires allocator.memory[at..at + |data|] == data
      modifies this
      ensures Valid() && allocator == old(allocator)
      ensures fresh(a) && assets == old(assets)[path := a] && contents == old(contents)[path := data]
      ensures a.buffer == allocator.memory && a.offset == at && a.size == |data| && a.Bytes() == data
    {
      a := NewAsset(allocator.memory, at, |data|);
      assets := assets[path := a];
      contents := contents[path := data];
    }

    /** `UnloadAsset(filepath)`: the path's entry leaves the cache; nothing
        goes back to the arena. */
    method UnloadAsset(path: Path)
      requires Valid()
      modifies this
      ensures Valid() && allocator == old(allocator)
      ensures assets == old(assets) - {path} && contents == old(contents) - {path}
    {
      if path in assets {
        assets := assets - {path};
        contents := contents - {path};
      }
    }
  }

  /** Two loads of one path: the second is a cache hit that hands back the
      first asset, so the arena pays for the file at most once. */
  method LoadTwice(c: AssetController, path: Path, files: map<Path, seq<byte>>) returns (first: Asset?, second: Asset?)
    requires c.Valid() && c.allocator != null
    modifies c, c.allocator, c.allocator.memory
    ensures c.Valid() && c.allocator == old(c.allocator) && second == first
    ensures path in old(c.assets) || path !in files || old(c.allocator.used) + |files[path]| > c.allocator.size ==>
      c.allocator.used == old(c.allocator.used)
    ensures path !in old(c.assets) && path in files && old(c.allocator.used) + |files[path]| <= c.allocator.size ==>
      c.allocator.used == old(c.allocator.used) + |files[path]| &&
      first != null && c.assets == old(c.assets)[path := first] && first.size == |files[path]|
  {
    first := c.LoadAsset(path, files);
    second := c.LoadAsset(path, files);
  }
}
