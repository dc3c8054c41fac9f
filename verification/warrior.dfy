/** A warrior: a sprite that runs to the right until a rock hits it, then
    plays its death animation once and stays dead. */
module Warriors {
  import opened Wire
  import opened ObjectPools
  import opened Textures

  /** `Warrior::State`, persisted as its underlying int. */
  const RUNNING: int := 0
  const DYING: int := 1
  const DEAD: int := 2

  const RUN_FRAMES: int := 6
  const DEATH_FRAMES: int := 8

  /** A warrior is off screen once it passes the right edge. */
  const SCREEN_RIGHT: real := 1920.0
  /** Sprite edge length at scale 1. */
  const SPRITE_SIZE: real := 64.0

  /** Six floats, the frame int and the state int. */
  const RECORD_SIZE: nat := 6 * FLOAT_SIZE + 2 * INT_SIZE

  const RUN_TEXTURE: Path := Bytes("Assets/Textures/warrior_run.tga")
  const DEATH_TEXTURE: Path := Bytes("Assets/Textures/warrior_death.tga")

  /** The fields of a warrior that `Serialize` writes, in that order. The
      state is kept as an int because a record read back is cast to the
      enum unchecked: values other than 0, 1 and 2 can occur. */
  datatype WarriorRecord = WarriorRecord(
    x: real, y: real, speed: real, scale: real,
    animSpeed: real, animTimer: real, frame: int, state: int)
  {
    predicate IsAlive() { state == RUNNING }
    predicate IsDying() { state == DYING }
    predicate IsDead() { state == DEAD }
    predicate IsOffScreen() { x > SCREEN_RIGHT }
    function Width(): real { SPRITE_SIZE * scale }
    function Height(): real { SPRITE_SIZE * scale }
  }

  predicate ValidState(state: int)
  {
    state == RUNNING || state == DYING || state == DEAD
  }

  /** A state that is one of the enumerators satisfies exactly one of the
      three tests; any other int satisfies none. */
  lemma ExactlyOneState(w: WarriorRecord)
    ensures ValidState(w.state) <==>
      (w.IsAlive() && !w.IsDying() && !w.IsDead()) ||
      (!w.IsAlive() && w.IsDying() && !w.IsDead()) ||
      (!w.IsAlive() && !w.IsDying() && w.IsDead())
    ensures !ValidState(w.state) ==> !w.IsAlive() && !w.IsDying() && !w.IsDead()
  {
  }

  /** `Update(dt)`: a dead warrior is left alone; a running one moves right;
      the animation timer advances and, once it reaches 1, the frame moves
      on by one and the timer drops by 1. */
  function Updated(w: WarriorRecord, dt: real): (r: WarriorRecord)
    ensures w.IsDead() ==> r == w
    ensures r.y == w.y && r.speed == w.speed && r.scale == w.scale && r.animSpeed == w.animSpeed
    ensures !w.IsDead() ==> r.x == (if w.IsAlive() then w.x + w.speed * dt else w.x)
    ensures !w.IsDead() && w.animTimer + dt * w.animSpeed < 1.0 ==>
      r.animTimer == w.animTimer + dt * w.animSpeed && r.frame == w.frame && r.state == w.state
    ensures !w.IsDead() && w.animTimer + dt * w.animSpeed >= 1.0 ==>
      r.animTimer == w.animTimer + dt * w.animSpeed - 1.0
    ensures w.IsAlive() ==> r.IsAlive()
    ensures w.IsAlive() && 0 <= w.frame < RUN_FRAMES ==> 0 <= r.frame < RUN_FRAMES
    ensures w.IsAlive() && w.animTimer + dt * w.animSpeed >= 1.0 ==> r.frame == CRem(w.frame + 1, RUN_FRAMES)
    ensures w.IsDying() ==> (r.frame == w.frame || r.frame == w.frame + 1) && (r.IsDying() || r.IsDead())
    ensures w.IsDying() ==> (r.IsDead() <==> r.frame == w.frame + 1 && r.frame >= DEATH_FRAMES)
    ensures w.IsDying() && w.animTimer + dt * w.animSpeed >= 1.0 ==>
      r.frame == w.frame + 1 && (r.IsDead() <==> w.frame + 1 >= DEATH_FRAMES)
    ensures !ValidState(w.state) ==> r.state == w.state && r.frame == w.frame
  {
    if w.IsDead() then w
    else
      var x := if w.IsAlive() then w.x + w.speed * dt else w.x;
      var timer := w.animTimer + dt * w.animSpeed;
      if timer < 1.0 then w.(x := x, animTimer := timer)
      else if w.IsAlive() then
        w.(x := x, animTimer := timer - 1.0, frame := CRem(w.frame + 1, RUN_FRAMES))
      else if w.IsDying() then
        var frame := w.frame + 1;
        w.(x := x, animTimer := timer - 1.0, frame := frame,
           state := if frame >= DEATH_FRAMES then DEAD else DYING)
      else w.(x := x, animTimer := timer - 1.0)
  }

  /** A warrior past the right edge never comes back on screen: a frame
      only moves it right, if at all. */
  lemma OffScreenStays(w: WarriorRecord, dt: real)
    requires w.IsOffScreen() && w.speed >= 0.0 && dt >= 0.0
    ensures Updated(w, dt).IsOffScreen()
  {
  }

  /** `StartDeathAnimation()`. */
  function Killed(w: WarriorRecord): (r: WarriorRecord)
    ensures w.IsAlive() ==> r.IsDying() && r.frame == 0 && r.animTimer == 0.0
    ensures !w.IsAlive() ==> r == w
    ensures r.x == w.x && r.y == w.y && r.speed == w.speed && r.scale == w.scale && r.animSpeed == w.animSpeed
  {
    if w.IsAlive() then w.(state := DYING, frame := 0, animTimer := 0.0) else w
  }

  /** What can happen to a warrior between two saves: a frame of `dt`
      seconds, or a rock hitting it. */
  datatype Event = Tick(dt: real) | Hit

  function Replay(w: WarriorRecord, events: seq<Event>): WarriorRecord
    decreases |events|
  {
    if events == [] then w
    else
      var next := match events[0]
        case Tick(dt) => Updated(w, dt)
        case Hit => Killed(w);
      Replay(next, events[1..])
  }

  /** The life cycle only moves forward, RUNNING to DYING to DEAD: no
      sequence of frames and hits brings a warrior back, a dead warrior is
      never changed again, only a hit ends a run, and nothing moves a
      warrior vertically. */
  lemma {:induction false} LifeCycleForward(w: WarriorRecord, events: seq<Event>)
    requires ValidState(w.state)
    ensures var r := Replay(w, events);
      ValidState(r.state) && w.state <= r.state && r.y == w.y &&
      (w.IsDead() ==> r == w) &&
      (w.IsAlive() && Hit !in events ==> r.IsAlive())
    decreases |events|
  {
    if events != [] {
      var next := match events[0]
        case Tick(dt) => Updated(w, dt)
        case Hit => Killed(w);
      assert Replay(w, events) == Replay(next, events[1..]);
      LifeCycleForward(next, events[1..]);
      if Hit !in events {
        assert events[0] != Hit;
        assert Hit !in events[1..];
      }
    }
  }

  /** The 32-byte record `Serialize` writes. */
  function EncodeWarrior(fc: FloatCodec, w: WarriorRecord): (b: seq<byte>)
    ensures |b| == RECORD_SIZE
  {
    fc.bits(w.x) + fc.bits(w.y) + fc.bits(w.speed) + fc.bits(w.scale) +
    fc.bits(w.animSpeed) + fc.bits(w.animTimer) +
    EncodeInt32(w.frame) + EncodeInt32(w.state)
  }

  /** Reads a record back, in the same order; fails only on a short input. */
  function DecodeWarrior(fc: FloatCodec, s: seq<byte>): (r: Option<(WarriorRecord, seq<byte>)>)
    ensures r.Some? <==> |s| >= RECORD_SIZE
    ensures r.Some? ==> r.value.1 == s[RECORD_SIZE..]
    ensures r.Some? ==> InInt32(r.value.0.frame) && InInt32(r.value.0.state)
  {
    if |s| < RECORD_SIZE then None
    else
      Some((WarriorRecord(
        fc.value(s[0..4]), fc.value(s[4..8]), fc.value(s[8..12]),
        fc.value(s[12..16]), fc.value(s[16..20]), fc.value(s[20..24]),
        DecodeInt32(s[24..28]), DecodeInt32(s[28..32])), s[RECORD_SIZE..]))
  }

  /** Every field of `w` has a 4-byte image it can be read back from. */
  predicate Persistable(fc: FloatCodec, w: WarriorRecord)
  {
    && Exact(fc, w.x) && Exact(fc, w.y) && Exact(fc, w.speed) && Exact(fc, w.scale)
    && Exact(fc, w.animSpeed) && Exact(fc, w.animTimer)
    && InInt32(w.frame) && InInt32(w.state)
  }

  /** Reading a written record restores every field and consumes exactly the
      record. */
  lemma WarriorRoundTrip(fc: FloatCodec, w: WarriorRecord, rest: seq<byte>)
    requires Persistable(fc, w)
    ensures DecodeWarrior(fc, EncodeWarrior(fc, w) + rest) == Some((w, rest))
  {
    var s := EncodeWarrior(fc, w) + rest;
    assert s[0..4] == fc.bits(w.x);
    assert s[4..8] == fc.bits(w.y);
    assert s[8..12] == fc.bits(w.speed);
    assert s[12..16] == fc.bits(w.scale);
    assert s[16..20] == fc.bits(w.animSpeed);
    assert s[20..24] == fc.bits(w.animTimer);
    assert s[24..28] == EncodeInt32(w.frame);
    assert s[28..32] == EncodeInt32(w.state);
    assert s[RECORD_SIZE..] == rest;
    Int32RoundTrip(w.frame);
    Int32RoundTrip(w.state);
  }

  class Warrior {
    var x: real
    var y: real
    var speed: real
    var scale: real
    var animSpeed: real
    var animTimer: real
    var frame: int
    var state: int
    var runTexture: Texture?
    var deathTexture: Texture?

    function Record(): WarriorRecord
      reads this
    {
      WarriorRecord(x, y, speed, scale, animSpeed, animTimer, frame, state)
    }

    predicate IsAlive() reads this { Record().IsAlive() }
    predicate IsDying() reads this { Record().IsDying() }
    predicate IsDead() reads this { Record().IsDead() }
    /** Past the right edge of the screen. */
    predicate IsOffScreen()
      reads this
      ensures IsOffScreen() <==> x > SCREEN_RIGHT
    {
      Record().IsOffScreen()
    }

    /** The 64-pixel frame scaled; the sprite is square. */
    function GetWidth(): (width: real)
      reads this
      ensures width == SPRITE_SIZE * scale && width == GetHeight()
      ensures scale >= 0.0 ==> width >= 0.0
    {
      Record().Width()
    }

    function GetHeight(): (height: real)
      reads this
      ensures height == SPRITE_SIZE * scale
      ensures scale >= 0.0 ==> height >= 0.0
    {
      Record().Height()
    }

    /** A new warrior runs, at the origin, at scale 1, with no textures. */
    constructor ()
      ensures Record() == WarriorRecord(0.0, 0.0, 0.0, 1.0, 0.0, 0.0, 0, RUNNING)
      ensures runTexture == null && deathTexture == null
    {
      x, y, speed, scale := 0.0, 0.0, 0.0, 1.0;
      animSpeed, animTimer, frame, state := 0.0, 0.0, 0, RUNNING;
      runTexture, deathTexture := null, null;
    }

    /** Takes a texture from the pool for each handle that is null and loads
        its sprite sheet; handles already held are kept. */
    method AcquireTextures(tpool: ObjectPool<Texture>, files: map<Path, seq<byte>>)
      requires tpool.Sound()
      modifies this, tpool, tpool.available
      ensures Suffix(tpool.available, old(tpool.available))
      ensures tpool.Sound() && Record() == old(Record())
      ensures runTexture != null && deathTexture != null
      ensures old(runTexture) != null ==> runTexture == old(runTexture)
      ensures old(deathTexture) != null ==> deathTexture == old(deathTexture)
      ensures old(runTexture) == null ==>
        runTexture !in old(tpool.outstanding) && runTexture.path == RUN_TEXTURE &&
        runTexture.image == LoadedImage(files, RUN_TEXTURE)
      ensures old(deathTexture) == null ==>
        deathTexture !in old(tpool.outstanding) && deathTexture.path == DEATH_TEXTURE &&
        deathTexture.image == LoadedImage(files, DEATH_TEXTURE)
      ensures tpool.outstanding == old(tpool.outstanding) +
        Acquired(old(runTexture), runTexture) + Acquired(old(deathTexture), deathTexture)
    {
      if runTexture == null {
        runTexture := Acquire(tpool, files, RUN_TEXTURE);
      }
      if deathTexture == null {
        deathTexture := Acquire(tpool, files, DEATH_TEXTURE);
      }
    }

    /** `Initialize(x, y, speed, animSpeed, scale)`: a fresh run from the
        given place, and textures for whatever handle is missing. */
    method Initialize(x: real, y: real, speed: real, animSpeed: real, scale: real,
                      tpool: ObjectPool<Texture>, files: map<Path, seq<byte>>)
      requires tpool.Sound()
      modifies this, tpool, tpool.available
      ensures Suffix(tpool.available, old(tpool.available))
      ensures Record() == WarriorRecord(x, y, speed, scale, animSpeed, 0.0, 0, RUNNING)
      ensures tpool.Sound() && runTexture != null && deathTexture != null
      ensures old(runTexture) != null ==> runTexture == old(runTexture)
      ensures old(deathTexture) != null ==> deathTexture == old(deathTexture)
      ensures old(runTexture) == null ==>
        runTexture !in old(tpool.outstanding) && runTexture.path == RUN_TEXTURE &&
        runTexture.image == LoadedImage(files, RUN_TEXTURE)
      ensures old(deathTexture) == null ==>
        deathTexture !in old(tpool.outstanding) && deathTexture.path == DEATH_TEXTURE &&
        deathTexture.image == LoadedImage(files, DEATH_TEXTURE)
    {
      this.x, this.y, this.speed, this.animSpeed, this.scale := x, y, speed, animSpeed, scale;
      animTimer, frame, state := 0.0, 0, RUNNING;
      AcquireTextures(tpool, files);
    }

    method Update(dt: real)
      modifies this
      ensures Record() == Updated(old(Record()), dt)
      ensures runTexture == old(runTexture) && deathTexture == old(deathTexture)
    {
      if state == DEAD {
        return;
      }
      if state == RUNNING {
        x := x + speed * dt;
      }
      animTimer := animTimer + dt * animSpeed;
      if animTimer >= 1.0 {
        animTimer := animTimer - 1.0;
        if state == RUNNING {
          frame := CRem(frame + 1, RUN_FRAMES);
        } else if state == DYING {
          frame := frame + 1;
          if frame >= DEATH_FRAMES {
            state := DEAD;
          }
        }
      }
    }

    method StartDeathAnimation()
      modifies this
      ensures Record() == Killed(old(Record()))
      ensures runTexture == old(runTexture) && deathTexture == old(deathTexture)
    {
      if state == RUNNING {
        state := DYING;
        frame := 0;
        animTimer := 0.0;
      }
    }

    /** Writes the record; the texture handles are not part of it. */
    method Serialize(out: OutStream, fc: FloatCodec)
      modifies out
      ensures out.bytes == old(out.bytes) + EncodeWarrior(fc, Record())
    {
      ghost var start := out.bytes;
      out.Write(fc.bits(x));
      ghost var p := fc.bits(x);
      out.Write(fc.bits(y));
      SeqAppendAssoc(start, p, fc.bits(y));
      p := p + fc.bits(y);
      out.Write(fc.bits(speed));
      SeqAppendAssoc(start, p, fc.bits(speed));
      p := p + fc.bits(speed);
      out.Write(fc.bits(scale));
      SeqAppendAssoc(start, p, fc.bits(scale));
      p := p + fc.bits(scale);
      out.Write(fc.bits(animSpeed));
      SeqAppendAssoc(start, p, fc.bits(animSpeed));
      p := p + fc.bits(animSpeed);
      out.Write(fc.bits(animTimer));
      SeqAppendAssoc(start, p, fc.bits(animTimer));
      p := p + fc.bits(animTimer);
      out.Write(EncodeInt32(frame));
      SeqAppendAssoc(start, p, EncodeInt32(frame));
      p := p + EncodeInt32(frame);
      out.Write(EncodeInt32(state));
      SeqAppendAssoc(start, p, EncodeInt32(state));
    }

    /** Reads the fields in record order (a read that fails leaves its field
        as it was), casts the state int unchecked, then acquires any missing
        texture. */
    method Deserialize(src: InStream, fc: FloatCodec, tpool: ObjectPool<Texture>, files: map<Path, seq<byte>>)
      requires src.Valid() && tpool.Sound()
      modifies this, src, tpool, tpool.available
      ensures Suffix(tpool.available, old(tpool.available))
      ensures src.Valid() && tpool.Sound()
      ensures DecodeWarrior(fc, old(src.Remaining())).Some? ==>
        (Record(), src.Remaining()) == DecodeWarrior(fc, old(src.Remaining())).value
      ensures DecodeWarrior(fc, old(src.Remaining())).None? ==> src.failed
      ensures runTexture != null && deathTexture != null
      ensures old(runTexture) != null ==> runTexture == old(runTexture)
      ensures old(deathTexture) != null ==> deathTexture == old(deathTexture)
      ensures old(runTexture) == null ==>
        runTexture !in old(tpool.outstanding) && runTexture.path == RUN_TEXTURE &&
        runTexture.image == LoadedImage(files, RUN_TEXTURE)
      ensures old(deathTexture) == null ==>
        deathTexture !in old(tpool.outstanding) && deathTexture.path == DEATH_TEXTURE &&
        deathTexture.image == LoadedImage(files, DEATH_TEXTURE)
    {
      ghost var s := src.Remaining();
      ReadFields(src, fc);
      if |s| >= RECORD_SIZE {
        assert Record() == DecodeWarrior(fc, s).value.0;
      }
      AcquireTextures(tpool, files);
    }

    /** The eight reads of `Deserialize`. */
    method ReadFields(src: InStream, fc: FloatCodec)
      requires src.Valid()
      modifies this, src
      ensures src.Valid()
      ensures runTexture == old(runTexture) && deathTexture == old(deathTexture)
      ensures |old(src.Remaining())| >= RECORD_SIZE ==>
        var s := old(src.Remaining());
        && Record() == WarriorRecord(
             fc.value(s[0..4]), fc.value(s[4..8]), fc.value(s[8..12]),
             fc.value(s[12..16]), fc.value(s[16..20]), fc.value(s[20..24]),
             DecodeInt32(s[24..28]), DecodeInt32(s[28..32]))
        && src.Remaining() == s[RECORD_SIZE..]
      ensures |old(src.Remaining())| < RECORD_SIZE ==> src.failed
    {
      ghost var s := src.Remaining();
      ReadPosition(src, fc);
      ghost var s1 := src.Remaining();
      ReadAnimation(src, fc);
      ghost var s2 := src.Remaining();
      ReadCounters(src);
      if |s| >= RECORD_SIZE {
        assert s1 == s[12..];
        assert s1[0..4] == s[12..16] && s1[4..8] == s[16..20] && s1[8..12] == s[20..24];
        assert s2 == s[24..];
        assert s2[0..4] == s[24..28] && s2[4..8] == s[28..32];
        assert src.Remaining() == s2[8..] == s[32..];
      }
    }

    /** x, y, speed. */
    method ReadPosition(src: InStream, fc: FloatCodec)
      requires src.Valid()
      modifies this, src
      ensures src.Valid()
      ensures runTexture == old(runTexture) && deathTexture == old(deathTexture)
      ensures scale == old(scale) && animSpeed == old(animSpeed) && animTimer == old(animTimer)
      ensures frame == old(frame) && state == old(state)
      ensures |old(src.Remaining())| >= 12 ==>
        var s := old(src.Remaining());
        x == fc.value(s[0..4]) && y == fc.value(s[4..8]) && speed == fc.value(s[8..12]) &&
        src.Remaining() == s[12..]
      ensures |old(src.Remaining())| < 12 ==> src.failed
      ensures old(src.failed) ==> src.failed
    {
      ghost var s := src.Remaining();
      ghost var full := |s| >= 12;
      var ok, w := src.Read(FLOAT_SIZE);
      if ok { x := fc.value(w); }
      assert full ==> ok && w == s[0..4] && src.Remaining() == s[4..];
      ok, w := src.Read(FLOAT_SIZE);
      if ok { y := fc.value(w); }
      assert full ==> ok && w == s[4..8] && src.Remaining() == s[8..];
      ok, w := src.Read(FLOAT_SIZE);
      if ok { speed := fc.value(w); }
      assert full ==> ok && w == s[8..12] && src.Remaining() == s[12..];
    }

    /** scale, animSpeed, animTimer. */
    method ReadAnimation(src: InStream, fc: FloatCodec)
      requires src.Valid()
      modifies this, src
      ensures src.Valid()
      ensures runTexture == old(runTexture) && deathTexture == old(deathTexture)
      ensures x == old(x) && y == old(y) && speed == old(speed)
      ensures frame == old(frame) && state == old(state)
      ensures |old(src.Remaining())| >= 12 ==>
        var s := old(src.Remaining());
        scale == fc.value(s[0..4]) && animSpeed == fc.value(s[4..8]) &&
        animTimer == fc.value(s[8..12]) && src.Remaining() == s[12..]
      ensures |old(src.Remaining())| < 12 ==> src.failed
      ensures old(src.failed) ==> src.failed
    {
      ghost var s := src.Remaining();
      ghost var full := |s| >= 12;
      var ok, w := src.Read(FLOAT_SIZE);
      if ok { scale := fc.value(w); }
      assert full ==> ok && w == s[0..4] && src.Remaining() == s[4..];
      ok, w := src.Read(FLOAT_SIZE);
      if ok { animSpeed := fc.value(w); }
      assert full ==> ok && w == s[4..8] && src.Remaining() == s[8..];
      ok, w := src.Read(FLOAT_SIZE);
      if ok { animTimer := fc.value(w); }
      assert full ==> ok && w == s[8..12] && src.Remaining() == s[12..];
    }

    /** The frame and the state, the latter cast without a check. */
    method ReadCounters(src: InStream)
      requires src.Valid()
      modifies this, src
      ensures src.Valid()
      ensures runTexture == old(runTexture) && deathTexture == old(deathTexture)
      ensures x == old(x) && y == old(y) && speed == old(speed)
      ensures scale == old(scale) && animSpeed == old(animSpeed) && animTimer == old(animTimer)
      ensures |old(src.Remaining())| >= 8 ==>
        var s := old(src.Remaining());
        frame == DecodeInt32(s[0..4]) && state == DecodeInt32(s[4..8]) && src.Remaining() == s[8..]
      ensures |old(src.Remaining())| < 8 ==> src.failed
    {
      ghost var s := src.Remaining();
      ghost var full := |s| >= 8;
      var ok, w := src.Read(INT_SIZE);
      if ok { frame := DecodeInt32(w); }
      assert full ==> ok && w == s[0..4] && src.Remaining() == s[4..];
      ok, w := src.Read(INT_SIZE);
      if ok { state := DecodeInt32(w); }
      assert full ==> ok && w == s[4..8] && src.Remaining() == s[8..];
    }
  }

  /** `ObjectPool<Warrior>(n)`: n new warriors, all free. */
  method NewWarriorPool(n: nat) returns (pool: ObjectPool<Warrior>)
    ensures fresh(pool) && pool.Sound() && |pool.all| == n && pool.available == pool.all
    ensures pool.outstanding == {}
    ensures forall w :: w in pool.all ==>
        fresh(w) && w.runTexture == null && w.deathTexture == null &&
        w.Record() == WarriorRecord(0.0, 0.0, 0.0, 1.0, 0.0, 0.0, 0, RUNNING)
  {
    var made: seq<Warrior> := [];
    while |made| < n
      invariant |made| <= n && Distinct(made)
      invariant forall w :: w in made ==>
        fresh(w) && w.runTexture == null && w.deathTexture == null &&
        w.Record() == WarriorRecord(0.0, 0.0, 0.0, 1.0, 0.0, 0.0, 0, RUNNING)
    {
      var w := new Warrior();
      made := made + [w];
    }
    pool := new ObjectPool(made);
  }
}
