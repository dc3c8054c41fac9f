# GameEngineMidterm: resource lifecycle, persistence and scenes in Dafny

This project is a Dafny model of the core of GameEngineMidterm, a small SDL
2D game. In the game, warriors run across the screen and rocks fall on them.
The model covers:

- **The bump allocator (`StackAllocator`).** A fixed arena with a `used`
  cursor. An allocation is granted exactly when it fits. Granted ranges are
  contiguous and never overlap. `Clear` takes everything back at once.
- **The object pool (`ObjectPool<T>`).** A list of every object plus a FIFO
  queue of free ones. The pool grows when the queue is empty and never
  shrinks. A ghost set `outstanding` records the objects handed out and not
  yet returned.
- **The asset cache (`AssetController`, `Asset`).** A path-keyed map with
  load-once semantics. A file's bytes are copied into an allocation from the
  arena, and the asset records where they landed.
- **The TGA decoder (`TGAReader::ReadTGA`).** Uncompressed true-colour images
  (type 2) at 24 or 32 bits per pixel. It parses the packed 18-byte header,
  rejects what it cannot decode, and swaps each pixel's BGR bytes into RGB in
  a fresh buffer.
- **The binary persistence protocol.**
  - `Resource`'s length-prefixed blobs.
  - The field-by-field records written by `Texture`, `Warrior`, `Rock`,
    `Level` and `Level2`.
  - The fixed native layout: `int` is 4 bytes little-endian two's
    complement, `float` is 4 bytes, `bool` is 1 byte, `SDL_Color` is
    4 bytes, and `size_t` is 8 bytes little-endian.
- **The entity state machines.**
  - A warrior goes RUNNING → DYING → DEAD. Its run frame counts modulo 6,
    and it dies at death frame 8.
  - A rock is active or inactive, and its frame counts modulo 4.
- **The two levels.**
  - Both levels spawn their entities from the pools.
  - Level 1 moves its warriors. At 5 seconds it saves itself to
    `Level1.bin` and replaces its warriors and clock with those read back
    from the file.
  - Level 2 moves warriors and rocks and lets each active rock kill the
    first running warrior it overlaps. It prunes inactive rocks and dead
    warriors in order, and saves itself once to `Level2.bin`.

The model is imperative where the source is. These are Dafny classes whose
methods update fields in place:

- `StackAllocator`, `ObjectPool`, `Asset`, `AssetController` and `Texture`;
- `Warrior` and `Rock`;
- the output and input streams;
- the file system;
- `Level`.

Each method is specified against a pure function over value records:

- the record types are `WarriorRecord`, `RockRecord` and `LevelRecord`;
- the encoders and decoders are `EncodeWarrior`/`DecodeWarrior`,
  `EncodeLevel`/`DecodeLevel` and their relatives;
- the frame functions are `Updated`, `Fallen`, `Collisions`, `Filter` and
  `SecondFrame`.

The properties are proved about those functions: round trips, invariants,
bounds and the shape of a frame. Loops stay loops:

- the pixel swap;
- the `memcpy` into the arena;
- the spawn, update, collision, serialise and deserialise loops over the
  entity lists.

Each loop is proved against its specification function with loop
invariants.

The model is arranged as follows:

- **Values versus handles.** Warriors, rocks and textures are objects handed
  out by pools. A level holds a `seq` of those handles. `Records(warriors)`
  reads their current field values.
- **One class for both levels.** `Level1` and `Level2` are one class `Level`
  with a `stage` tag (`First`/`Second`). It has two named constructors,
  `Level1` and `Level2`. Virtual dispatch becomes a branch on the tag.
- **Files.** The file system is an object holding a path → bytes map and
  the set of paths that can be opened for writing. Reads in the cache, the
  decoder and the texture loader take the map as an input.
- **Floats.** Floats are `real`s. The stream codec writes each one through a
  `FloatCodec`, which is a pair of functions: 4 bytes to a `real` and back.
  A round trip of a float field holds for values the codec represents
  exactly (`Exact`).
- **Randomness.** The random speed draws of both `Initialize`s become a
  `speeds` parameter.

## Model

| member | source | states |
|---|---|---|
| `StackAllocators.StackAllocator.constructor` | Include/StackAllocator.h:8-11 | A new arena has the requested capacity, a buffer of that size, `used == 0` and the cursor at the start. |
| `StackAllocators.StackAllocator.Allocate` | Include/StackAllocator.h:19-28 | Fails exactly when `used + n > size` and then changes nothing. On success it returns the old cursor and advances `used` by exactly `n`, and the range lies inside the buffer. `used <= size` is kept. |
| `StackAllocators.StackAllocator.Clear` | Include/StackAllocator.h:30-33 | `used` and the cursor go back to 0. The capacity is a constant, so a second `Clear` changes nothing more. |
| `StackAllocators.Run` | Include/StackAllocator.h:19-28 | A run of `Allocate` calls gives one grant per request. |
| `StackAllocators.RunBounds` | Include/StackAllocator.h:19-28 | Over any run of allocations, the cursor never passes the capacity. Every granted range lies between the starting and the final cursor. |
| `StackAllocators.RunDisjoint` | Include/StackAllocator.h:19-28 | Of two granted requests, the earlier one's range ends at or before the later one's start: grants never overlap. |
| `StackAllocators.ExactFill` | Include/StackAllocator.h:19-28 | Requests summing to exactly the free space are all granted, back to back at `used + Sum(prefix)`. The arena is then full, and one more byte is refused. |
| `ObjectPools.ObjectPool.constructor` | Include/ObjectPool.h:9-15 | A new pool holds the given distinct objects, all of them available and none handed out. |
| `ObjectPools.ObjectPool.GetResource` | Include/ObjectPool.h:24-35 | A non-empty queue gives its front, which leaves the queue, and the object list stays the same. An empty queue gives a new object not yet in the pool, which is appended to the list while the queue stays empty. The result belongs to the pool and was not already handed out, so successive calls give distinct objects. |
| `ObjectPools.ObjectPool.ReturnResource` | Include/ObjectPool.h:37-41 | Null changes nothing. Otherwise the object is appended to the back of the queue, unchecked. The object list never changes, so the total size never decreases. |
| `ObjectPools.ObjectPool.GetTotalSize` | Include/ObjectPool.h:43 | The number of objects the pool has made. In a sound pool this is the available objects plus those handed out. |
| `ObjectPools.ObjectPool.GetAvailableSize` | Include/ObjectPool.h:44 | Zero exactly when the queue is empty, that is, when the next `GetResource` has to make a new object. In a sound pool it never exceeds the total. |
| `ObjectPools.ObjectPool.SoundCount` | Include/ObjectPool.h:43-44 | In a sound pool the objects split into the free and the handed-out, so total size = available size + handed-out count. |
| `ObjectPools.DistinctCount` | Include/ObjectPool.h:43-44 | A list without repeats has as many distinct members as elements, which is what lets the sizes count objects. |
| `Warriors.NewWarriorPool` | Include/ObjectPool.h:9-15 | A pool of `n` fresh warriors, all available, each holding no texture and the default record: at the origin, scale 1, running, frame and timer 0. |
| `Rocks.NewRockPool` | Include/ObjectPool.h:9-15 | A pool of `n` fresh rocks, all available, each holding no texture and the default record: at the origin, scale 1, active, frame and timer 0. |
| `Textures.NewTexturePool` | Include/ObjectPool.h:9-15 | A pool of `n` fresh textures, all available, none holding an image. |
| `AssetControllers.Asset.constructor` | Include/Asset.h:15 | A new asset has a null data pointer and size 0. |
| `AssetControllers.Asset.SetData` | Include/Asset.h:22-25 | The asset points at the given place with the given size. |
| `AssetControllers.Asset.Bytes` | Include/Asset.h:27-28 | The asset's data is the `size` bytes starting at its pointer. |
| `AssetControllers.NewAsset` | Source/AssetController.cpp:49-50 | A fresh asset pointing at the given range. |
| `AssetControllers.CopyInto` | Source/AssetController.cpp:47 | The `memcpy` puts the source bytes at the destination offset and leaves every other byte of the arena as it was. |
| `AssetControllers.AssetController.constructor` | Source/AssetController.cpp:4-5 | A new cache has no allocator and no assets. |
| `AssetControllers.AssetController.Initialize` | Source/AssetController.cpp:11-13 | A fresh, empty arena of `stackSize` bytes replaces the allocator. The cached assets and the bytes they were loaded from are kept. |
| `AssetControllers.AssetController.Shutdown` | Source/AssetController.cpp:15-25 | The cache is emptied and the allocator dropped. |
| `AssetControllers.AssetController.LoadAsset` | Source/AssetController.cpp:27-54 | A cached path gives its asset and neither reads nor allocates. An unreadable path gives null and changes nothing. A file that does not fit gives null and leaves the cache and cursor alone. Otherwise a fresh asset holds exactly the file's bytes at the old cursor, `used` grows by the file's length, and the path maps to it. Every asset cached before the call is still cached under its path and still holds the bytes it was loaded from, because later allocations lie above it. The ghost record of loaded bytes gains exactly the new file. |
| `AssetControllers.AssetController.Admit` | Source/AssetController.cpp:40-53 | The miss path once the file is read. If the arena cannot fit the bytes, nothing changes. Otherwise they are copied to the granted offset and cached, and the record of loaded bytes gains exactly this file while every other entry keeps its bytes. |
| `AssetControllers.AssetController.Place` | Source/AssetController.cpp:47-51 | Copying into a granted range leaves every cached asset's bytes intact: the cache stays valid with the record of loaded bytes extended by this file alone. The new asset is cached over that range. |
| `AssetControllers.AssetController.Insert` | Source/AssetController.cpp:49-51 | The new asset over the copied range is entered under the path, the record of loaded bytes gains exactly this file, and the cache stays valid. |
| `AssetControllers.AssetController.UnloadAsset` | Source/AssetController.cpp:56-62 | Only the path's entry leaves the map and the record of loaded bytes, and an unknown path changes nothing. The allocator keeps its cursor, so no bytes go back to it. |
| `AssetControllers.LoadTwice` | Source/AssetController.cpp:27-54 | Loading one path twice gives the same asset both times. The arena pays for the file at most once. |
| `TgaReader.EncodeHeader` | Include/TGAReader.h:11-25 | The packed header layout is 18 bytes. |
| `TgaReader.HeaderRoundTrip` | Include/TGAReader.h:11-25 | Parsing the first 18 bytes gives back every header field written in the packed little-endian layout. |
| `TgaReader.ParseHeader` | Source/TGAReader.cpp:15 | The header view of the first 18 bytes: every field fits its packed width, and the image type and bit depth are bytes 2 and 16. |
| `TgaReader.DataOffset` | Source/TGAReader.cpp:36-37 | The pixels start after the header and the image ID. The colour map is skipped only when one is present. For any representable header the offset is below 2^31, so the `int` offset cannot wrap. |
| `TgaReader.ImageSize` | Source/TGAReader.cpp:32-33 | 3 bytes per pixel at 24 bits and 4 at 32. A representable header can announce up to 65535 × 65535 × 31 bytes, which can exceed 2^31; `OverflowAdmitsShortFile` uses 32768 × 32768 × 4 = 2^32, where the 32-bit product wraps to 0. |
| `TgaReader.ImageSizeMultiple` | Source/TGAReader.cpp:32-33 | The image size is a whole number of 3- or 4-byte pixels. |
| `TgaReader.SwapRedBlue` | Source/TGAReader.cpp:48-56 | The converted pixel data has exactly the source's length. |
| `TgaReader.PixelChannels` | Source/TGAReader.cpp:48-56 | For every pixel, output bytes R, G and B are source bytes 2, 1 and 0. A 32-bit pixel's alpha byte is copied unchanged. |
| `TgaReader.SwapInvolution` | Source/TGAReader.cpp:48-56 | Swapping twice gives back the original pixels, so no byte is lost or duplicated. |
| `TgaReader.Decode` | Source/TGAReader.cpp:4-65 | Input shorter than 18 bytes is rejected, and so is an image type other than 2. An image decodes exactly when the type is 2, the depth is 24 or 32, and the file holds `dataOffset + width*height*(bpp/8)` bytes, where the offset skips the ID field and the colour map only when one is present. The decoded image has the header's width, height and depth, and its data is the swapped pixel region. |
| `TgaReader.SwapPixel` | Source/TGAReader.cpp:49-55 | One iteration of the copy loop writes pixel `i` in RGB order, extending the converted prefix by one pixel. |
| `TgaReader.CopySwapped` | Source/TGAReader.cpp:45-56 | The loop fills a fresh buffer with exactly the RGB-swapped source pixels. |
| `TgaReader.ReadTGA` | Source/TGAReader.cpp:4-65 | An unreadable file gives no image. Otherwise the result is `Decode` of the file's bytes, and the pixels are copied by the loop. |
| `TgaReader.Wrap32` | Source/TGAReader.cpp:33 | Storing a value in an `int` gives the representative of its class modulo 2^32 in the int32 range. |
| `TgaReader.OverflowAdmitsShortFile` | Source/TGAReader.cpp:33-42 | A bare 18-byte header announcing a 32768 × 32768 × 32-bit image passes the length test as written, because the size wraps to 0. `Decode` rejects the same file as truncated. |
| `TgaReader.SizeCheckRejectsAsWritten` | Source/TGAReader.cpp:33-39 | The length test as written, with the 32-bit products. Whenever header offset plus image size stay below 2^31, it rejects exactly the files shorter than that sum, so it agrees with the intended test; `OverflowAdmitsShortFile` shows where it does not. |
| `Wire.CRem` | Source/Warrior.cpp:55 | C's `%` truncates toward zero: for a non-negative left operand it is the mathematical remainder, and for a negative one it lies in `(-m, 0]`. |
| `Wire.ToLE` | Source/Level.cpp:47 | A value below 256^n written as little-endian takes exactly n bytes. |
| `Wire.FromLE` | Source/Level.cpp:62 | n little-endian bytes read as an unsigned value below 256^n. |
| `Wire.FromToLE` | Source/Level.cpp:47 | Reading back an n-byte little-endian word gives the value written. |
| `Wire.DecodeInt32` | Source/Warrior.cpp:107 | Four bytes read into an `int` give a value in the int32 range. |
| `Wire.EncodeInt32` | Source/Level.cpp:40 | Writing an `int` gives four little-endian bytes whose value is the integer modulo 2^32. |
| `Wire.Int32RoundTrip` | Source/Warrior.cpp:94-97 | Writing and then reading an `int` in range gives it back. |
| `Wire.EncodeSize` | Source/Level.cpp:46-47 | A `size_t` occupies 8 bytes. |
| `Wire.DecodeSize` | Source/Level.cpp:61-62 | An 8-byte word read into a `size_t` is below 2^64. |
| `Wire.SizeRoundTrip` | Source/Level.cpp:46-62 | A count below 2^64, written and read back, is unchanged. |
| `Wire.EncodeBool` | Source/Rock.cpp:67 | A `bool` occupies one byte. |
| `Wire.DecodeBool` | Source/Level.cpp:57 | A byte is the encoding of the decoded `bool` exactly when it is 0 or 1. Any byte above 1 reads as true; this is a modelling choice, since reading such a byte into a `bool` is undefined in C++. |
| `Wire.OutStream.Write` | Source/Level.cpp:40 | A write appends exactly its bytes to the stream. |
| `Wire.InStream.Read` | Source/Level.cpp:55 | A read of `n` bytes succeeds exactly when `n` bytes remain and then consumes exactly them. A short read sets the fail state and consumes the rest. |
| `Resources.Serialize` | Include/Resource.h:12 | The base resource writes nothing. |
| `Resources.Deserialize` | Include/Resource.h:13 | The base resource reads nothing. |
| `Resources.SerializeAsset` | Include/Resource.h:16-19 | Writes the size as a `size_t`, then exactly `size` data bytes. |
| `Resources.DeserializeAsset` | Include/Resource.h:21-25 | Reads a size word, then exactly that many bytes, and reports that size. |
| `Resources.DecodeBlob` | Include/Resource.h:21-25 | A decoded blob has the length announced by its size word. Exactly the word and the blob are consumed. |
| `Resources.EncodeBlob` | Include/Resource.h:16-19 | The encoding is one size word followed by the data itself. When the length fits in 64 bits, the size word reads back as that length. |
| `Resources.CountWordReads` | Include/Resource.h:17 | A count below 2^64 written as a size word reads back as the same count. |
| `Resources.EncodeEach` | Source/Level.cpp:49-51 | Writing no records writes nothing; writing one record writes exactly its own encoding. |
| `Resources.EncodeCounted` | Source/Level.cpp:46-51 | A counted list begins with a size word, and when the list has fewer than 2^64 entries that word reads back as its length. |
| `Resources.DecodeCounted` | Source/Level.cpp:61-69 | Input shorter than a size word is rejected. A decoded list has exactly as many entries as its size word announces. |
| `Resources.BlobRoundTrip` | Include/Resource.h:16-25 | Reading what `SerializeAsset` wrote gives back the bytes and the size and consumes exactly what was written. |
| `Resources.EncodeEachSnoc` | Source/Level.cpp:49-51 | Writing one more record in the loop appends exactly that record's encoding. |
| `Resources.DecodeEach` | Source/Level.cpp:64-69 | Reading `n` records in order gives exactly `n` records. |
| `Resources.DecodeEachStep` | Source/Level.cpp:65-68 | Each read of the loop takes the next record from where the previous one stopped. |
| `Resources.DecodeEachPrefix` | Source/Level.cpp:65-68 | If `n` records can be read, so can any first `i` of them. |
| `Resources.EachRoundTrip` | Source/Level.cpp:49-69 | If each record round-trips, reading back `n` written records gives them in the same order and leaves what follows. |
| `Resources.CountedRoundTrip` | Source/Level.cpp:46-69 | A count followed by that many records reads back as the same list. |
| `Resources.EncodeEachFixed` | Source/Level.cpp:46-51 | Records of one fixed width written one after another take that width times their number. |
| `Textures.UpToNul` | Source/Texture.cpp:38-41 | Assigning a C string keeps the bytes before the first NUL, or all of them if there is none. |
| `Textures.PathRoundTrip` | Source/Texture.cpp:29-42 | A path without NUL bytes, written and read back, is unchanged. |
| `Textures.NulFreeKept` | Source/Texture.cpp:38-41 | A NUL-free buffer becomes the path unchanged. |
| `Textures.NulTruncates` | Source/Texture.cpp:38-41 | A NUL at position `k` cuts the restored path to at most `k` bytes, so such a path does not round-trip. |
| `Textures.Texture.constructor` | Source/Texture.cpp:6-7 | A new texture holds no image. |
| `Textures.Texture.Load` | Source/Texture.cpp:13-17 | The path is recorded even when decoding fails. The image is what the decoder gives, and the result is true exactly when there is one. |
| `Textures.LoadedImage` | Source/Texture.cpp:13-17 | A path that names no file gives no image. A loaded image has 24 or 32 bits per pixel and exactly width × height × bytes-per-pixel bytes of pixel data. |
| `Textures.Texture.Unload` | Source/Texture.cpp:19-27 | The image is dropped and the path kept, so a second `Unload` changes nothing. |
| `Textures.Texture.Serialize` | Source/Texture.cpp:29-33 | Writes the path's length as a `size_t` and then its bytes, with no terminator. |
| `Textures.Texture.Deserialize` | Source/Texture.cpp:35-46 | Reads the length and the bytes. The path is set to the bytes up to the first NUL, and the image is decoded again from that path. |
| `Textures.Acquire` | Source/Warrior.cpp:28-29 | A texture is taken from the pool as `GetResource` specifies and then loaded from the given path, so it holds the decoded image. Textures still queued in the pool keep their path and image. |
| `Warriors.ExactlyOneState` | Include/Warrior.h:22-24 | For a valid state exactly one of `IsAlive`, `IsDying` and `IsDead` holds. An unvalidated state read from a file satisfies none of them. |
| `Warriors.Warrior.IsOffScreen` | Include/Warrior.h:25 | True exactly when the warrior is past x = 1920, the right edge. |
| `Warriors.OffScreenStays` | Include/Warrior.h:25 | A warrior past the right edge, with non-negative speed and time step, is still past it after an update. |
| `Warriors.Warrior.GetWidth` | Include/Warrior.h:29 | The 64-pixel frame times the scale. The sprite is square, and the width is non-negative for a non-negative scale. |
| `Warriors.Warrior.GetHeight` | Include/Warrior.h:30 | The 64-pixel frame times the scale, non-negative for a non-negative scale. |
| `Warriors.Killed` | Source/Warrior.cpp:79-85 | A running warrior becomes dying with frame 0 and timer 0. Any other warrior is unchanged. Position, speed, scale and animation speed are never touched. |
| `Warriors.Updated` | Source/Warrior.cpp:38-63 | A dead warrior is unchanged. Only a running warrior moves, by `speed*dt`, and y, speed, scale and animation speed never change. The frame advances at most once per update, and only when the timer reaches 1, which is then reduced by 1. The run frame cycles modulo 6 and a runner stays running. A dying warrior's frame grows by exactly one whenever the timer reaches 1, and it becomes dead exactly when that frame reaches 8. |
| `Warriors.LifeCycleForward` | Source/Warrior.cpp:38-85 | Over any sequence of updates and hits, the state only moves forward through RUNNING → DYING → DEAD. A dead warrior never changes, and a runner that is never hit keeps running. |
| `Warriors.EncodeWarrior` | Source/Warrior.cpp:87-98 | A warrior record is 32 bytes. |
| `Warriors.DecodeWarrior` | Source/Warrior.cpp:100-111 | A record can be read exactly when 32 bytes remain, and then exactly 32 are consumed. The frame and state ints are in the int32 range. |
| `Warriors.WarriorRoundTrip` | Source/Warrior.cpp:87-111 | Reading what `Serialize` wrote restores every field, in the order x, y, speed, scale, animSpeed, animTimer, frame, state. |
| `Warriors.Warrior.constructor` | Source/Warrior.cpp:6-10 | A new warrior is running at the origin with scale 1, frame 0 and no textures. |
| `Warriors.Warrior.AcquireTextures` | Source/Warrior.cpp:27-35 | Each texture handle is taken from the pool and loaded only if it is null; a newly taken texture holds its path and the image decoded from that file. Existing handles and all fields are kept. |
| `Warriors.Warrior.Initialize` | Source/Warrior.cpp:16-36 | Sets position, speed, animation speed and scale. It resets the timer and frame to 0 and the state to RUNNING, and acquires only missing textures, each loaded with its decoded sprite sheet. |
| `Warriors.Warrior.Update` | Source/Warrior.cpp:38-63 | The new fields are `Updated` of the old ones, and the textures are untouched. |
| `Warriors.Warrior.StartDeathAnimation` | Source/Warrior.cpp:79-85 | A running warrior becomes dying with frame 0 and timer 0. Any other warrior is unchanged. |
| `Warriors.Warrior.Serialize` | Source/Warrior.cpp:87-98 | Appends exactly the warrior's 32-byte record. |
| `Warriors.Warrior.Deserialize` | Source/Warrior.cpp:100-122 | When a record is available the fields become the decoded record, otherwise the stream fails. Textures are acquired only if null, each loaded with its decoded sprite sheet. |
| `Warriors.Warrior.ReadFields` | Source/Warrior.cpp:100-111 | The eight fields come from the next 32 bytes in written order. |
| `Warriors.Warrior.ReadPosition` | Source/Warrior.cpp:101-103 | x, y and speed come from the next 12 bytes, and the other fields are untouched. |
| `Warriors.Warrior.ReadAnimation` | Source/Warrior.cpp:104-106 | Scale, animation speed and timer come from the next 12 bytes. |
| `Warriors.Warrior.ReadCounters` | Source/Warrior.cpp:107-111 | Frame and state come from the next 8 bytes, and the state is not validated. |
| `Rocks.Fallen` | Source/Rock.cpp:33-48 | An inactive rock is unchanged. An active rock falls by `speed*dt`, and x never changes. The frame advances at most once, modulo 4, when the timer reaches 1, which is then reduced by 1. The active flag is kept. |
| `Rocks.FallKeepsColumn` | Source/Rock.cpp:33-48 | Over any number of updates, a rock stays in its column, its frame stays in 0..3, and an inactive rock never changes. |
| `Rocks.EncodeRock` | Source/Rock.cpp:59-68 | A rock record is 29 bytes. |
| `Rocks.DecodeRock` | Source/Rock.cpp:70-78 | A record can be read exactly when 29 bytes remain, and then exactly 29 are consumed. |
| `Rocks.RockRoundTrip` | Source/Rock.cpp:59-78 | Reading what `Serialize` wrote restores every field: six floats, the frame and the active flag. |
| `Rocks.Rock.constructor` | Source/Rock.cpp:6-10 | A new rock is active at the origin with scale 1, frame 0 and no texture. |
| `Rocks.Rock.SetActive` | Include/Rock.h:20 | Changes only the active flag. |
| `Rocks.Rock.IsOffScreen` | Include/Rock.h:21 | True exactly when the rock is below y = 1080, the bottom edge. |
| `Rocks.OffScreenStays` | Include/Rock.h:21 | A rock below the bottom edge, with non-negative speed and time step, is still below it after an update. |
| `Rocks.Rock.GetWidth` | Include/Rock.h:25 | The 64-pixel frame times the scale. The sprite is square, and the width is non-negative for a non-negative scale. |
| `Rocks.Rock.GetHeight` | Include/Rock.h:26 | The 64-pixel frame times the scale, non-negative for a non-negative scale. |
| `Rocks.Rock.AcquireTexture` | Source/Rock.cpp:27-30 | The texture is taken from the pool and loaded only if the rock has none; a newly taken texture holds the rock sheet's path and the image decoded from it. |
| `Rocks.Rock.Initialize` | Source/Rock.cpp:16-31 | Sets position, speed, animation speed and scale. It resets the timer and frame, sets the rock active, and acquires a texture only if missing, loaded with the decoded rock sheet. |
| `Rocks.Rock.Update` | Source/Rock.cpp:33-48 | The new fields are `Fallen` of the old ones. |
| `Rocks.Rock.Serialize` | Source/Rock.cpp:59-68 | Appends exactly the rock's 29-byte record. |
| `Rocks.Rock.Deserialize` | Source/Rock.cpp:70-84 | When a record is available the fields become the decoded record, otherwise the stream fails. A texture is acquired only if missing, loaded with the decoded rock sheet. |
| `Rocks.Rock.ReadPosition` | Source/Rock.cpp:71-73 | x, y and speed come from the next 12 bytes. |
| `Rocks.Rock.ReadAnimation` | Source/Rock.cpp:74-76 | Scale, animation speed and timer come from the next 12 bytes. |
| `Rocks.Rock.ReadCounters` | Source/Rock.cpp:77-78 | The frame and the one-byte active flag come from the next 5 bytes. |
| `Scenes.AnimSpeedFor` | Source/Level1.cpp:21 | The speed-to-animation-rate map sends [80, 100] into [4.8, 6.0], with 80 going to 4.8 and 100 to 6.0. |
| `Scenes.SpawnedWarriors` | Source/Level1.cpp:17-26 | Warrior `i` starts at x = -100 and y = 10 + 100i with scale 1.8, its drawn speed, the mapped animation rate, and timer and frame 0, running. |
| `Scenes.SpawnedRocks` | Source/Level2.cpp:18-27 | Rock `i` starts at x = 50 + 100i and y = -100 with scale 1, its drawn speed and the mapped rate, active. |
| `Scenes.SpawnedWarriorInPlace` | Source/Level1.cpp:17-26 | About the spawn constants alone, not the spawn loop: a spawned warrior runs and is not past the right edge. At x = -100 its 115.2-pixel sprite crosses the left edge, so it starts partly on screen rather than wholly off it. |
| `Scenes.SpawnedRockInPlace` | Source/Level2.cpp:18-26 | About the spawn constants alone, not the spawn loop: a spawned rock is active and wholly above the screen, and neighbouring rocks do not overlap. |
| `Scenes.EdgeContactIsNoCollision` | Source/Level2.cpp:90-103 | The AABB test is strict: boxes that share only an edge do not collide. |
| `Scenes.OverlapIsCommonPoint` | Source/Level2.cpp:90-103 | For sprites of positive scale, the four strict comparisons hold exactly when the two boxes share an interior point. |
| `Levels.Level.CheckAABBCollision` | Source/Level2.cpp:90-103 | For sprites of positive scale, true exactly when the warrior's and the rock's boxes share a point. Boxes that only touch along an edge never collide. |
| `Scenes.FirstHit` | Source/Level2.cpp:109-114 | A rock hits the first running warrior, in list order, whose box overlaps it. No earlier warrior qualifies, and with no hit none does. |
| `Scenes.Collisions` | Source/Level2.cpp:105-117 | Collision handling keeps both lists' lengths. |
| `Scenes.Strike` | Source/Level2.cpp:107-114 | An inactive rock changes nothing. Otherwise the rock stays active exactly when no warrior is struck by it, and then the warriors are unchanged; when it is deactivated, some struck warrior is the one, and only one, that is killed. The rock's other fields and the number of warriors never change. |
| `Scenes.CollisionsSnoc` | Source/Level2.cpp:106-116 | Rocks are handled one by one in list order, each seeing the warriors as the earlier rocks left them. |
| `Scenes.KillOneRunning` | Source/Level2.cpp:110-113 | A hit turns exactly one running warrior into a dying one. |
| `Scenes.KillsMatchSpentRocks` | Source/Level2.cpp:105-117 | In a frame, the number of warriors killed equals the number of rocks deactivated, so each rock kills at most one warrior. |
| `Scenes.CollisionsOnlyKill` | Source/Level2.cpp:105-117 | Collisions change a warrior only from running to `Killed`, and a rock only from active to inactive. Inactive rocks and dying or dead warriors are skipped. |
| `Scenes.Filter` | Source/Level2.cpp:50-55 | `remove_if` followed by `erase` keeps at most the original elements. |
| `Scenes.FilterKeepsFlagged` | Source/Level2.cpp:50-55 | An element survives pruning exactly when it occurs at a kept position. |
| `Scenes.FilterSplits` | Source/Level2.cpp:50-55 | Pruning a concatenation prunes each part and keeps their relative order. |
| `Scenes.ActiveMask` | Source/Level2.cpp:50-51 | The rock-pruning predicate keeps exactly the active rocks. |
| `Scenes.UndeadMask` | Source/Level2.cpp:54-55 | The warrior-pruning predicate keeps exactly the warriors that are not dead. |
| `Scenes.UpdateAll` | Source/Level1.cpp:36-38 | Every warrior is updated, in list order, and none is added or removed. |
| `Scenes.FallAll` | Source/Level2.cpp:42-44 | Every rock is updated, and none is added or removed. |
| `Scenes.FrameKeepsOnlyLive` | Source/Level2.cpp:33-55 | After a second-level frame, every remaining warrior is not dead and every remaining rock is active, each coming from the post-collision lists. |
| `Scenes.SecondFrame` | Source/Level2.cpp:33-55 | A second-level frame never adds warriors or rocks; afterwards no warrior is dead and every rock is active. |
| `Scenes.Pruned` | Source/Level2.cpp:49-55 | Pruning keeps exactly the warriors that are not dead and exactly the rocks that are active, and never lengthens either list. |
| `Scenes.PruneKeepsLive` | Source/Level2.cpp:50-55 | The `remove_if` filters keep a warrior exactly when it was present and not dead, and a rock exactly when it was present and active. |
| `Scenes.QuitCondition` | Source/Level2.cpp:73-88 | The second level quits when every warrior is dead (including when none is left) and when the lead warrior has passed the right edge; it does not quit while the lead warrior is alive and still on screen. |
| `LevelCodec.EncodeColor` | Source/Level.cpp:43 | An `SDL_Color` occupies 4 bytes. |
| `LevelCodec.EncodeHeader` | Source/Level.cpp:40-43 | The level header (number, time, flag, colour) is 13 bytes. |
| `LevelCodec.DecodeHeader` | Source/Level.cpp:55-58 | A header can be read exactly when 13 bytes remain, and it consumes exactly those. |
| `LevelCodec.HeaderRoundTrip` | Source/Level.cpp:39-58 | The header fields written come back in the same order. |
| `LevelCodec.LevelRoundTrip` | Source/Level2.cpp:133-158 | Reading what a level wrote reproduces its header, every warrior record in order and, for the second level, every rock record in order. The header and warrior layout shared by both levels is Source/Level.cpp:39-69. |
| `LevelCodec.EncodeLevel` | Source/Level.cpp:39-51 | A save file starts with the level's 13-byte header. Its length is 13 + 8 + 32 per warrior, plus 8 + 29 per rock for the second level. |
| `LevelCodec.DecodeLevel` | Source/Level.cpp:54-69 | A file shorter than the header and one count is rejected. A decoded level takes its header fields from the first 13 bytes, whatever follows. The first level's decoded rock list is empty; the second level reads its rocks after the warriors as Source/Level2.cpp:133-158 does. |
| `Levels.Records` | Include/Level.h:37 | The records of a warrior list, position by position. |
| `Levels.RockRecords` | Include/Level2.h:21 | The records of a rock list, position by position. |
| `Levels.ReadPooledWarrior` | Source/Level.cpp:66-67 | A warrior not already handed out is taken from the pool and read from the stream, and no other handed-out warrior changes. |
| `Levels.ReadPooledRock` | Source/Level2.cpp:154-155 | A rock not already handed out is taken from the pool and read from the stream, and no other handed-out rock changes. |
| `Levels.SpawnPooledWarrior` | Source/Level1.cpp:23-24 | A new pooled warrior is initialised to spawn position `i`, and no other handed-out warrior changes. |
| `Levels.SpawnPooledRock` | Source/Level2.cpp:24-25 | A new pooled rock is initialised to spawn position `j`, and no other handed-out rock changes. |
| `Levels.Moved` | Source/Level1.cpp:33-38 | The first-level frame before the save check advances the clock by `dt` and updates every warrior. Nothing else changes. |
| `Levels.RecordsFilter` | Source/Level2.cpp:54-55 | Pruning the warrior handles prunes their records alike. |
| `Levels.RockRecordsFilter` | Source/Level2.cpp:50-51 | Pruning the rock handles prunes their records alike. |
| `Levels.FilterDistinct` | Source/Level2.cpp:50-55 | Pruning a list without duplicates leaves none. |
| `Levels.Level.Level1` | Source/Level1.cpp:4-6 | Level number 1, time 0, not saved, grey background {128,128,128,255}, no warriors. |
| `Levels.Level.Level2` | Source/Level2.cpp:4-7 | Level number 2, time 0, not saved, background {0,128,0,255}, and exactly the given warriors, in order. |
| `Levels.Level.ShouldTransition` | Source/Level1.cpp:51-57 | The first level transitions only when the list is non-empty and its first warrior is past x = 1920. The second level never transitions. |
| `Levels.Level.ShouldQuit` | Source/Level2.cpp:73-88 | The first level never quits. The second quits exactly when its first warrior is past x = 1920 or no warrior is running or dying, and an empty list counts as the latter. |
| `Levels.Level.Serialize` | Source/Level2.cpp:133-143 | Appends exactly `EncodeLevel` of the level: the header, the warrior count and records and, for the second level, the rock count and records. |
| `Levels.Level.SerializeBase` | Source/Level.cpp:39-52 | Appends the header and then the counted warrior records. |
| `Levels.Level.SerializeHeader` | Source/Level.cpp:40-43 | Appends the 13-byte header. |
| `Levels.Level.SerializeWarriors` | Source/Level.cpp:46-51 | Appends the warrior count and every warrior's record in list order. |
| `Levels.Level.SerializeEachWarrior` | Source/Level.cpp:49-51 | The loop appends the warriors' records in list order. |
| `Levels.Level.SerializeWarriorAt` | Source/Level.cpp:50 | One iteration appends warrior `i`'s record after those of warriors `0..i-1`. |
| `Levels.Level.SerializeRocks` | Source/Level2.cpp:137-142 | Appends the rock count and every rock's record in list order. |
| `Levels.Level.SerializeEachRock` | Source/Level2.cpp:140-142 | The loop appends the rocks' records in list order. |
| `Levels.Level.SerializeRockAt` | Source/Level2.cpp:141 | One iteration appends rock `j`'s record after those of rocks `0..j-1`. |
| `Levels.Level.Deserialize` | Source/Level2.cpp:145-158 | When the stream holds a well-formed level, the level's state becomes exactly the decoded level. The entities are fresh pool acquisitions that were not handed out before, in stream order. |
| `Levels.Level.ReadHeader` | Source/Level.cpp:55-58 | The header fields come from the next 13 bytes, and the lists are untouched. |
| `Levels.Level.ReadNumbers` | Source/Level.cpp:55-56 | Level number and game time come from the next 8 bytes. |
| `Levels.Level.ReadLook` | Source/Level.cpp:57-58 | The saved flag and the background colour come from the next 5 bytes. |
| `Levels.Level.ReadWarriors` | Source/Level.cpp:61-69 | The list is cleared and refilled with exactly as many new pooled warriors as the count says. When the data is well formed, their records are the decoded ones, in order. |
| `Levels.Level.ReadEachWarrior` | Source/Level.cpp:64-69 | The loop acquires and reads `count` distinct warriors in order. |
| `Levels.Level.TakeWarrior` | Source/Level.cpp:66-68 | One iteration appends a newly acquired warrior holding the next record. |
| `Levels.Level.ReadRocks` | Source/Level2.cpp:149-157 | The rock list is cleared and refilled with exactly as many new pooled rocks as the count says. When the data is well formed, their records are the decoded ones, in order. The warriors are untouched. |
| `Levels.Level.ReadEachRock` | Source/Level2.cpp:152-157 | The loop acquires and reads `count` distinct rocks in order. |
| `Levels.Level.TakeRock` | Source/Level2.cpp:154-156 | One iteration appends a newly acquired rock holding the next record. |
| `Levels.Level.Initialize` | Source/Level1.cpp:11-30 | The first level appends one spawned warrior per drawn speed, after those it has. The second appends spawned rocks and keeps its warriors. Both reset the time to 0 and the saved flag to false. |
| `Levels.Level.SpawnWarriors` | Source/Level1.cpp:17-26 | Appends `SpawnedWarriors(speeds)`, as new pooled warriors in order. |
| `Levels.Level.SpawnWarrior` | Source/Level1.cpp:18-25 | One iteration appends one newly acquired warrior at spawn position `i`. |
| `Levels.Level.SpawnRocks` | Source/Level2.cpp:18-27 | Appends `SpawnedRocks(speeds)`, as new pooled rocks in order. |
| `Levels.Level.SpawnRock` | Source/Level2.cpp:19-26 | One iteration appends one newly acquired rock at spawn position `j`. |
| `Levels.Level.UpdateWarriors` | Source/Level1.cpp:36-38 | Every warrior's record becomes its `Updated` record. |
| `Levels.Level.UpdateRocks` | Source/Level2.cpp:42-44 | Every rock's record becomes its `Fallen` record. |
| `Levels.Level.CheckCollisions` | Source/Level2.cpp:105-117 | The nested loop with `break` leaves the warriors and rocks exactly as `Collisions` says. |
| `Levels.Level.CollisionStep` | Source/Level2.cpp:106-116 | Handling rock `j` extends the collision result from the first `j` rocks to the first `j + 1`. |
| `Levels.Level.RockTurn` | Source/Level2.cpp:107-115 | One rock's inner loop kills its first hit, as `Strike` says, and touches no other rock. |
| `Levels.Level.PruneRocks` | Source/Level2.cpp:50-51 | Exactly the inactive rocks are removed, keeping the others in order. |
| `Levels.Level.ActiveRocks` | Source/Level2.cpp:50-51 | The kept rocks are the active ones, in order. |
| `Levels.Level.PruneWarriors` | Source/Level2.cpp:54-55 | Exactly the dead warriors are removed, keeping the others in order. |
| `Levels.Level.UndeadWarriors` | Source/Level2.cpp:54-55 | The kept warriors are the ones that are not dead, in order. |
| `Levels.Level.PruneBoth` | Source/Level2.cpp:50-55 | Both prunes together give `Pruned` of the records. |
| `Levels.Level.StrikeAll` | Source/Level2.cpp:42-47 | Falling then colliding gives `Collisions` of the warriors and the fallen rocks. |
| `Levels.Level.Update` | Include/Level.h:15 | Dispatches on the level and states each branch's whole effect. The level number and background never change. For the first level, the clock advances and the warriors move as `Moved` gives when no save is due; when a save is due the result is `SavedAndReloaded` of the moved level. For the second level, the lists become `SecondFrame` of the old ones, the clock advances by `dt`, and a due save writes `Level2.bin` and sets the flag exactly when that file exists. |
| `Levels.Level.UpdateFirst` | Source/Level1.cpp:32-42 | The clock advances and every warrior is updated. Then, if a save is due, the level is saved and reloaded as `SavedAndReloaded` describes; otherwise nothing else changes. Every warrior afterwards is either one it had before or one newly taken from the pool. A reload from an older `Level1.bin` can change how many warriors there are. |
| `Levels.Level.MoveWarriors` | Source/Level1.cpp:33-38 | The clock advances by `dt` and every warrior is updated. Rocks are untouched. |
| `Levels.Level.UpdateSecond` | Source/Level2.cpp:33-59 | The clock advances by `dt`, and the lists become `SecondFrame` of the old ones. A due save writes the level, with the flag still false, to `Level2.bin` when it can be opened. It marks the level saved exactly when that file exists. |
| `Levels.Level.MoveSecond` | Source/Level2.cpp:34-55 | Everything of the second-level frame before the save check. |
| `Levels.Level.AdvanceSecond` | Source/Level2.cpp:42-55 | Rocks fall, collisions are handled, then inactive rocks and dead warriors are pruned. |
| `Levels.Level.CheckAutoSaveFirst` | Source/Level1.cpp:59-78 | Nothing happens before 5 seconds or once saved. Otherwise the level is written to `Level1.bin`. If that file can be opened, the warriors and time are replaced by those read back and the flag is set; if it cannot, nothing else changes and the save is retried. |
| `Levels.Level.SaveAndReload` | Source/Level1.cpp:61-76 | The save and read-back. With a writable file and representable fields, the reloaded warriors' records and the time equal those saved. |
| `Levels.Level.SavedAndReloaded` | Source/Level1.cpp:59-78 | With a writable `Level1.bin`, the save writes the encoding of the level as it stood and the flag is set. When that file neither existed nor could be written, the open fails and the warriors, clock and flag stay as they were. |
| `Levels.Level.CheckAutoSaveSecond` | Source/Level2.cpp:119-131 | Nothing happens before 5 seconds or once saved. Otherwise the level is written to `Level2.bin` when possible, and the flag is set exactly when that file can be opened. The live state is untouched. |
| `Levels.Level.Reload` | Source/Level1.cpp:64-74 | The warriors are replaced by new pooled warriors read from the file, the time is taken from it, and the flag is set. Rocks, number and colour are kept. |
| `Levels.Level.ReadBack` | Source/Level1.cpp:66-72 | A fresh first level deserialised from the file's bytes gives distinct, newly acquired warriors. When the bytes are a well-formed level, their records and the clock are the decoded ones. |
| `Levels.Level.SaveToFile` | Source/Level.cpp:13-24 | A file that cannot be opened is not written. Otherwise it holds exactly the level's serialisation. |
| `Levels.Level.LoadFromFile` | Source/Level.cpp:26-37 | Builds no level, whether or not the file opens. |
| `Files.FileSystem.constructor` | Include/FileController.h:8 | A file system with the given files and writable paths. |
| `Files.FileSystem.Save` | Source/Level.cpp:14-21 | Opening for output succeeds exactly on writable paths, and then the file's contents become the bytes written. Otherwise no file changes. |

## Left out

- Rendering is not modelled. That covers SDL, the `Renderer`, every `Render` method, and the game loop with its timing, FPS and text in `GameController`. All of it is foreign-library I/O.
- The Level 1 → Level 2 hand-off in `GameController::HandleLevelTransition` is not modelled. It sits outside the core loop. Its effect is the `Levels.Level.Level2` constructor taking the warriors in order, followed by `Initialize`.
- `Singleton`, `main` and the global `Pool` pointers are not modelled. The allocator, pools, cache and file system are explicit objects passed to the operations that use them.
- `FileController` is not modelled as file I/O. Reading a file is a lookup in a path → bytes map. Opening a file for writing succeeds exactly for the paths in a `writable` set. A partial read or write is not modelled.
- Deallocation and leaks are not modelled. That includes `free`/`delete`, the `Asset` destructor freeing a pointer into the arena, and the old allocator left behind by a second `Initialize`. It also includes old entity handles dropped by deserialisation, reload and pruning, which are never returned to their pools. The model does record that these handles are not returned: no modelled operation takes them out of the pools' ghost `outstanding` sets.
- `malloc` failure is not modelled: allocations in the model always succeed.
- Floating point is modelled with `real`s. Positions, timers and the animation-rate formula use real arithmetic, so IEEE rounding is not modelled. A float is written and read through a `FloatCodec`, and the round-trip lemmas require the values to be exactly representable (`Exact`).
- Randomness is not modelled. The `mt19937` speed draws are the `speeds` parameter of `Levels.Level.Initialize`.
- Machine-integer wrap-around is not modelled, except for the TGA size computation under "## Findings". The frame counter is an unbounded integer, so `m_currentFrame++` never overflows. The `m_used + size` sum never wraps. Counts are `nat`s, and the codec writes them modulo 2^64.
- Partially read streams are not modelled. Each `Deserialize` states the result for well-formed input and, for entities, that a short record sets the fail state. On a short read, a field whose read fails keeps its old value; the source overwrites the bytes that were still available. The model also reads an unreadable count as 0 entries, where the source would use an uninitialised value.
- `Levels.Level.Deserialize` requires the three pools to be distinct objects (`Separate`). In the source they are three pools of three different types.
- `AssetControllers.AssetController.LoadAsset` requires an allocator whenever the path is uncached and the file exists. Without one, the source dereferences a null allocator.
- `AssetControllers.AssetController.Initialize` keeps the cached assets: the source does not clear the cache when it replaces the allocator. Assets still pointing into the old arena stay valid in the model, because the old buffer is never freed in it.
- `Levels.Level.CheckAutoSaveFirst` follows the code. If the save could not be written but an older `Level1.bin` exists, the level reloads that older file.
- `Levels.Level.CheckAutoSaveSecond` follows the code. The flag is set whenever `Level2.bin` can be opened for reading, even if this save failed and the file is an older one.

## Findings

| source | as written | input that shows it | evidently intended | confidence | as-written member | corrected member |
|---|---|---|---|---|---|---|
| Source/TGAReader.cpp:33-42 | `imageSize = width * height * bytesPerPixel` is computed in 32-bit `int`, and the length test compares the file size against `dataOffset + imageSize` | an 18-byte type-2 header with width 32768, height 32768 and 32 bits per pixel: the product 2^32 wraps to 0, the test passes, and the copy loop runs 2^30 pixels over a 0-byte buffer and an 18-byte file | reject any file shorter than its header plus its full pixel region, computed without overflow | not executed; the arithmetic is proved | `TgaReader.OverflowAdmitsShortFile` | `TgaReader.Decode` |
