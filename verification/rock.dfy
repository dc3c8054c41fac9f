/** A rock: a sprite that falls until it hits a warrior, after which it is
    inactive and no longer moves. */
module Rocks {
  import opened Wire
  import opened ObjectPools
  import opened Textures

  const FRAMES: int := 4

  /** A rock is off screen once it passes the bottom edge. */
  const SCREEN_BOTTOM: real := 1080.0
  const SPRITE_SIZE: real := 64.0

  /** Six floats, the frame int and the active flag. */
  const RECORD_SIZE: nat := 6 * FLOAT_SIZE + INT_SIZE + BOOL_SIZE

  const ROCK_TEXTURE: Path := Bytes("Assets/Textures/rock.tga")

  /** The fields of a rock that `Serialize` writes, in that order. */
  datatype RockRecord = RockRecord(
    x: real, y: real, speed: real, scale: real,
    animSpeed: real, animTimer: real, frame: int, active: bool)
  {
    predicate IsOffScreen() { y > SCREEN_BOTTOM }
    function Width(): real { SPRITE_SIZE * scale }
    function Height(): real { SPRITE_SIZE * scale }
  }

  /** `Update(dt)`: an inactive rock is left alone; an active one falls and
      its animation advances by at most one frame. */
  function Fallen(r: RockRecord, dt: real): (n: RockRecord)
    ensures !r.active ==> n == r
    ensures n.x == r.x && n.speed == r.speed && n.scale == r.scale && n.animSpeed == r.animSpeed
    ensures n.active == r.active
    ensures r.active ==> n.y == r.y + r.speed * dt
    ensures r.active && r.animTimer + dt * r.animSpeed < 1.0 ==>
      n.animTimer == r.animTimer + dt * r.animSpeed && n.frame == r.frame
    ensures r.active && r.animTimer + dt * r.animSpeed >= 1.0 ==>
      n.animTimer == r.animTimer + dt * r.animSpeed - 1.0 && n.frame == CRem(r.frame + 1, FRAMES)
    ensures 0 <= r.frame < FRAMES ==> 0 <= n.frame < FRAMES
  {
    if !r.active then r
    else
      var y := r.y + r.speed * dt;
      var timer := r.animTimer + dt * r.animSpeed;
      if timer >= 1.0 then r.(y := y, animTimer := timer - 1.0, frame := CRem(r.frame + 1, FRAMES))
      else r.(y := y, animTimer := timer)
  }

  /** A rock below the bottom edge never comes back on screen: a frame
      only moves it down, if at all. */
  lemma OffScreenStays(r: RockRecord, dt: real)
    requires r.IsOffScreen() && r.speed >= 0.0 && dt >= 0.0
    ensures Fallen(r, dt).IsOffScreen()
  {
  }

  function FallFor(r: RockRecord, dts: seq<real>): RockRecord
    decreases |dts|
  {
    if dts == [] then r else FallFor(Fallen(r, dts[0]), dts[1..])
  }

  /** Over any run of frames a rock keeps its column, its frame stays among
      the four of the sheet, and an inactive rock stays exactly as it is. */
  lemma {:induction false} FallKeepsColumn(r: RockRecord, dts: seq<real>)
    requires 0 <= r.frame < FRAMES
    ensures var n := FallFor(r, dts);
      n.x == r.x && 0 <= n.frame < FRAMES && n.active == r.active &&
      (!r.active ==> n == r)
    decreases |dts|
  {
    if dts != [] {
      FallKeepsColumn(Fallen(r, dts[0]), dts[1..]);
    }
  }

  /** The 29-byte record `Serialize` writes. */
  function EncodeRock(fc: FloatCodec, r: RockRecord): (b: seq<byte>)
    ensures |b| == RECORD_SIZE
  {
    fc.bits(r.x) + fc.bits(r.y) + fc.bits(r.speed) + fc.bits(r.scale) +
    fc.bits(r.animSpeed) + fc.bits(r.animTimer) +
    EncodeInt32(r.frame) + EncodeBool(r.active)
  }

  /** Reads a record back, in the same order; fails only on a short input. */
  function DecodeRock(fc: FloatCodec, s: seq<byte>): (r: Option<(RockRecord, seq<byte>)>)
    ensures r.Some? <==> |s| >= RECORD_SIZE
    ensures r.Some? ==> r.value.1 == s[RECORD_SIZE..] && InInt32(r.value.0.frame)
  {
    if |s| < RECORD_SIZE then None
    else
      Some((RockRecord(
        fc.value(s[0..4]), fc.value(s[4..8]), fc.value(s[8..12]),
        fc.value(s[12..16]), fc.value(s[16..20]), fc.value(s[20..24]),
        DecodeInt32(s[24..28]), DecodeBool(s[28..29])), s[RECORD_SIZE..]))
  }

  predicate Persistable(fc: FloatCodec, r: RockRecord)
  {
    && Exact(fc, r.x) && Exact(fc, r.y) && Exact(fc, r.speed) && Exact(fc, r.scale)
    && Exact(fc, r.animSpeed) && Exact(fc, r.animTimer) && InInt32(r.frame)
  }

  /** Reading a written record restores every field and consumes exactly the
      record. */
  lemma RockRoundTrip(fc: FloatCodec, r: RockRecord, rest: seq<byte>)
    requires Persistable(fc, r)
    ensures DecodeRock(fc, EncodeRock(fc, r) + rest) == Some((r, rest))
  {
    var s := EncodeRock(fc, r) + rest;
    assert s[0..4] == fc.bits(r.x);
    assert s[4..8] == fc.bits(r.y);
    assert s[8..12] == fc.bits(r.speed);
    assert s[12..16] == fc.bits(r.scale);
    assert s[16..20] == fc.bits(r.animSpeed);
    assert s[20..24] == fc.bits(r.animTimer);
    assert s[24..28] == EncodeInt32(r.frame);
    assert s[28..29] == EncodeBool(r.active);
    assert s[RECORD_SIZE..] == rest;
    Int32RoundTrip(r.frame);
  }

  class Rock {
    var x: real
    var y: real
    var speed: real
    var scale: real
    var animSpeed: real
    var animTimer: real
    var frame: int
    var active: bool
    var texture: Texture?

    function Record(): RockRecord
      reads this
    {
      RockRecord(x, y, speed, scale, animSpeed, animTimer, frame, active)
    }

    predicate IsActive() reads this { active }
    /** Below the bottom edge of the screen. */
    predicate IsOffScreen()
      reads this
      ensures IsOffScreen() <==> y > SCREEN_BOTTOM
    {
      Record().IsOffScreen()
    }

    /** The 64-pixel frame scaled; the sprite is square. */
    function GetWidth(): (width: real)
      reads this
      ensures width == SPRITE_SIZE * scale && width == GetHeight()
      ensures scale >= 0.0 ==> width >= 0.0
    {
      Record().Width()
    }

    function GetHeight(): (height: real)
      reads this
      ensures height == SPRITE_SIZE * scale
      ensures scale >= 0.0 ==> height >= 0.0
    {
      Record().Height()
    }

    /** A new rock is active, at the origin, at scale 1, with no texture. */
    constructor ()
      ensures Record() == RockRecord(0.0, 0.0, 0.0, 1.0, 0.0, 0.0, 0, true)
      ensures texture == null
    {
      x, y, speed, scale := 0.0, 0.0, 0.0, 1.0;
      animSpeed, animTimer, frame, active := 0.0, 0.0, 0, true;
      texture := null;
    }

    /** Changes the active flag and nothing else. */
    method SetActive(active: bool)
      modifies this
      ensures Record() == old(Record()).(active := active) && texture == old(texture)
    {
      this.active := active;
    }

    /** Takes a texture from the pool and loads the rock sheet, unless one
        is already held. */
    method AcquireTexture(tpool: ObjectPool<Texture>, files: map<Path, seq<byte>>)
      requires tpool.Sound()
      modifies this, tpool, tpool.available
      ensures Suffix(tpool.available, old(tpool.available))
      ensures tpool.Sound() && Record() == old(Record()) && texture != null
      ensures old(texture) != null ==> texture == old(texture)
      ensures old(texture) == null ==>
        texture !in old(tpool.outstanding) && texture.path == ROCK_TEXTURE &&
        texture.image == LoadedImage(files, ROCK_TEXTURE)
      ensures tpool.outstanding == old(tpool.outstanding) + Acquired(old(texture), texture)
    {
      if texture == null {
        texture := Acquire(tpool, files, ROCK_TEXTURE);
      }
    }

    /** `Initialize(x, y, speed, animSpeed, scale)`: an active rock at the
        given place, and a texture if none is held. */
    method Initialize(x: real, y: real, speed: real, animSpeed: real, scale: real,
                      tpool: ObjectPool<Texture>, files: map<Path, seq<byte>>)
      requires tpool.Sound()
      modifies this, tpool, tpool.available
      ensures Suffix(tpool.available, old(tpool.available))
      ensures Record() == RockRecord(x, y, speed, scale, animSpeed, 0.0, 0, true)
      ensures tpool.Sound() && texture != null
      ensures old(texture) != null ==> texture == old(texture)
      ensures old(texture) == null ==>
        texture !in old(tpool.outstanding) && texture.path == ROCK_TEXTURE &&
        texture.image == LoadedImage(files, ROCK_TEXTURE)
    {
      this.x, this.y, this.speed, this.animSpeed, this.scale := x, y, speed, animSpeed, scale;
      animTimer, frame, active := 0.0, 0, true;
      AcquireTexture(tpool, files);
    }

    method Update(dt: real)
      modifies this
      ensures Record() == Fallen(old(Record()), dt) && texture == old(texture)
    {
      if !active {
        return;
      }
      y := y + speed * dt;
      animTimer := animTimer + dt * animSpeed;
      if animTimer >= 1.0 {
        animTimer := animTimer - 1.0;
        frame := CRem(frame + 1, FRAMES);
      }
    }

    /** Writes the record; the texture handle is not part of it. */
    method Serialize(out: OutStream, fc: FloatCodec)
      modifies out
      ensures out.bytes == old(out.bytes) + EncodeRock(fc, Record())
    {
      ghost var start := out.bytes;
      out.Write(fc.bits(x));
      ghost var p := fc.bits(x);
      out.Write(fc.bits(y));
      SeqAppendAssoc(start, p, fc.bits(y));
      p := p + fc.bits(y);
      out.Write(fc.bits(speed));
      SeqAppendAssoc(start, p, fc.bits(speed));
      p := p + fc.bits(speed);
      out.Write(fc.bits(scale));
      SeqAppendAssoc(start, p, fc.bits(scale));
      p := p + fc.bits(scale);
      out.Write(fc.bits(animSpeed));
      SeqAppendAssoc(start, p, fc.bits(animSpeed));
      p := p + fc.bits(animSpeed);
      out.Write(fc.bits(animTimer));
      SeqAppendAssoc(start, p, fc.bits(animTimer));
      p := p + fc.bits(animTimer);
      out.Write(EncodeInt32(frame));
      SeqAppendAssoc(start, p, EncodeInt32(frame));
      p := p + EncodeInt32(frame);
      out.Write(EncodeBool(active));
      SeqAppendAssoc(start, p, EncodeBool(active));
    }

    /** Reads the fields in record order (a read that fails leaves its field
        as it was), then acquires a texture if none is held. */
    method Deserialize(src: InStream, fc: FloatCodec, tpool: ObjectPool<Texture>, files: map<Path, seq<byte>>)
      requires src.Valid() && tpool.Sound()
      modifies this, src, tpool, tpool.available
      ensures Suffix(tpool.available, old(tpool.available))
      ensures src.Valid() && tpool.Sound()
      ensures DecodeRock(fc, old(src.Remaining())).Some? ==>
        (Record(), src.Remaining()) == DecodeRock(fc, old(src.Remaining())).value
      ensures DecodeRock(fc, old(src.Remaining())).None? ==> src.failed
      ensures texture != null
      ensures old(texture) != null ==> texture == old(texture)
      ensures old(texture) == null ==>
        texture !in old(tpool.outstanding) && texture.path == ROCK_TEXTURE &&
        texture.image == LoadedImage(files, ROCK_TEXTURE)
    {
      ghost var s := src.Remaining();
      ReadPosition(src, fc);
      ghost var s1 := src.Remaining();
      ReadAnimation(src, fc);
      ghost var s2 := src.Remaining();
      ReadCounters(src);
      if |s| >= RECORD_SIZE {
        assert s1 == s[12..];
        assert s1[0..4] == s[12..16] && s1[4..8] == s[16..20] && s1[8..12] == s[20..24];
        assert s2 == s[24..];
        assert s2[0..4] == s[24..28];
        assert s2[4..5] == [s[28]] == s[28..29];
        assert src.Remaining() == s2[5..] == s[29..];
        assert Record() == DecodeRock(fc, s).value.0;
      }
      AcquireTexture(tpool, files);
    }

    /** x, y, speed. */
    method ReadPosition(src: InStream, fc: FloatCodec)
      requires src.Valid()
      modifies this, src
      ensures src.Valid() && texture == old(texture)
      ensures scale == old(scale) && animSpeed == old(animSpeed) && animTimer == old(animTimer)
      ensures frame == old(frame) && active == old(active)
      ensures |old(src.Remaining())| >= 12 ==>
        var s := old(src.Remaining());
        x == fc.value(s[0..4]) && y == fc.value(s[4..8]) && speed == fc.value(s[8..12]) &&
        src.Remaining() == s[12..]
      ensures |old(src.Remaining())| < 12 ==> src.failed
      ensures old(src.failed) ==> src.failed
    {
      ghost var s := src.Remaining();
      ghost var full := |s| >= 12;
      var ok, w := src.Read(FLOAT_SIZE);
      if ok { x := fc.value(w); }
      assert full ==> ok && w == s[0..4] && src.Remaining() == s[4..];
      ok, w := src.Read(FLOAT_SIZE);
      if ok { y := fc.value(w); }
      assert full ==> ok && w == s[4..8] && src.Remaining() == s[8..];
      ok, w := src.Read(FLOAT_SIZE);
      if ok { speed := fc.value(w); }
      assert full ==> ok && w == s[8..12] && src.Remaining() == s[12..];
    }

    /** scale, animSpeed, animTimer. */
    method ReadAnimation(src: InStream, fc: FloatCodec)
      requires src.Valid()
      modifies this, src
      ensures src.Valid() && texture == old(texture)
      ensures x == old(x) && y == old(y) && speed == old(speed)
      ensures frame == old(frame) && active == old(active)
      ensures |old(src.Remaining())| >= 12 ==>
        var s := old(src.Remaining());
        scale == fc.value(s[0..4]) && animSpeed == fc.value(s[4..8]) &&
        animTimer == fc.value(s[8..12]) && src.Remaining() == s[12..]
      ensures |old(src.Remaining())| < 12 ==> src.failed
      ensures old(src.failed) ==> src.failed
    {
      ghost var s := src.Remaining();
      ghost var full := |s| >= 12;
      var ok, w := src.Read(FLOAT_SIZE);
      if ok { scale := fc.value(w); }
      assert full ==> ok && w == s[0..4] && src.Remaining() == s[4..];
      ok, w := src.Read(FLOAT_SIZE);
      if ok { animSpeed := fc.value(w); }
      assert full ==> ok && w == s[4..8] && src.Remaining() == s[8..];
      ok, w := src.Read(FLOAT_SIZE);
      if ok { animTimer := fc.value(w); }
      assert full ==> ok && w == s[8..12] && src.Remaining() == s[12..];
    }

    /** The frame and the active flag. */
    method ReadCounters(src: InStream)
      requires src.Valid()
      modifies this, src
      ensures src.Valid() && texture == old(texture)
      ensures x == old(x) && y == old(y) && speed == old(speed)
      ensures scale == old(scale) && animSpeed == old(animSpeed) && animTimer == old(animTimer)
      ensures |old(src.Remaining())| >= 5 ==>
        var s := old(src.Remaining());
        frame == DecodeInt32(s[0..4]) && active == DecodeBool(s[4..5]) && src.Remaining() == s[5..]
      ensures |old(src.Remaining())| < 5 ==> src.failed
    {
      ghost var s := src.Remaining();
      ghost var full := |s| >= 5;
      var ok, w := src.Read(INT_SIZE);
      if ok { frame := DecodeInt32(w); }
      assert full ==> ok && w == s[0..4] && src.Remaining() == s[4..];
      var ok2, b := src.Read(BOOL_SIZE);
      if ok2 { active := DecodeBool(b); }
      assert full ==> ok2 && b == s[4..5] && src.Remaining() == s[5..];
    }
  }

  /** `ObjectPool<Rock>(n)`: n new rocks, all free. */
  method NewRockPool(n: nat) returns (pool: ObjectPool<Rock>)
    ensures fresh(pool) && pool.Sound() && |pool.all| == n && pool.available == pool.all
    ensures pool.outstanding == {}
    ensures forall r :: r in pool.all ==>
        fresh(r) && r.texture == null &&
        r.Record() == RockRecord(0.0, 0.0, 0.0, 1.0, 0.0, 0.0, 0, true)
  {
    var made: seq<Rock> := [];
    while |made| < n
      invariant |made| <= n && Distinct(made)
      invariant forall r :: r in made ==>
        fresh(r) && r.texture == null &&
        r.Record() == RockRecord(0.0, 0.0, 0.0, 1.0, 0.0, 0.0, 0, true)
    {
      var r := new Rock();
      made := made + [r];
    }
    pool := new ObjectPool(made);
  }
}
