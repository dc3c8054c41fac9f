/** A level: the scene the game loop drives. The first level spawns a
    column of warriors and hands them on once the lead warrior leaves the
    screen; the second drops rocks on them until they are gone. Both save
    themselves once, five seconds in. */
module Levels {
  import opened Wire
  import opened ObjectPools
  import opened Textures
  import opened Warriors
  import opened Rocks
  import opened Scenes
  import opened LevelCodec
  import opened Files
  import Resources

  const AUTOSAVE_TIME: real := 5.0
  const LEVEL1_FILE: Path := Bytes("Level1.bin")
  const LEVEL2_FILE: Path := Bytes("Level2.bin")

  function Records(ws: seq<Warrior>): (r: seq<WarriorRecord>)
    reads ws
    ensures |r| == |ws| && forall i :: 0 <= i < |ws| ==> r[i] == ws[i].Record()
  {
    seq(|ws|, i requires 0 <= i < |ws| reads ws => ws[i].Record())
  }

  function RockRecords(rs: seq<Rock>): (r: seq<RockRecord>)
    reads rs
    ensures |r| == |rs| && forall j :: 0 <= j < |rs| ==> r[j] == rs[j].Record()
  {
    seq(|rs|, j requires 0 <= j < |rs| reads rs => rs[j].Record())
  }

  /** A warrior taken from the pool and read from the stream; no warrior
      that was already handed out changes. */
  method ReadPooledWarrior(src: InStream, fc: FloatCodec, wpool: ObjectPool<Warrior>,
                           tpool: ObjectPool<Texture>, files: map<Path, seq<byte>>) returns (warrior: Warrior)
    requires src.Valid() && wpool.Sound() && tpool.Sound() && wpool as object != tpool
    modifies src, wpool, wpool.available, tpool, tpool.available
    ensures src.Valid() && wpool.Sound() && tpool.Sound()
    ensures warrior !in old(wpool.outstanding) && wpool.outstanding == old(wpool.outstanding) + {warrior}
    ensures Suffix(wpool.available, old(wpool.available)) && Suffix(tpool.available, old(tpool.available))
    ensures forall w :: w in old(wpool.outstanding) ==> w.Record() == old(w.Record())
    ensures DecodeWarrior(fc, old(src.Remaining())).Some? ==>
      (warrior.Record(), src.Remaining()) == DecodeWarrior(fc, old(src.Remaining())).value
  {
    var spare := new Warrior();
    warrior := wpool.GetResource(spare);
    warrior.Deserialize(src, fc, tpool, files);
  }

  /** A rock taken from the pool and read from the stream; no rock that was
      already handed out changes. */
  method ReadPooledRock(src: InStream, fc: FloatCodec, rpool: ObjectPool<Rock>,
                        tpool: ObjectPool<Texture>, files: map<Path, seq<byte>>) returns (rock: Rock)
    requires src.Valid() && rpool.Sound() && tpool.Sound() && rpool as object != tpool
    modifies src, rpool, rpool.available, tpool, tpool.available
    ensures src.Valid() && rpool.Sound() && tpool.Sound()
    ensures rock !in old(rpool.outstanding) && rpool.outstanding == old(rpool.outstanding) + {rock}
    ensures Suffix(rpool.available, old(rpool.available)) && Suffix(tpool.available, old(tpool.available))
    ensures forall r :: r in old(rpool.outstanding) ==> r.Record() == old(r.Record())
    ensures DecodeRock(fc, old(src.Remaining())).Some? ==>
      (rock.Record(), src.Remaining()) == DecodeRock(fc, old(src.Remaining())).value
  {
    var spare := new Rock();
    rock := rpool.GetResource(spare);
    rock.Deserialize(src, fc, tpool, files);
  }

  /** Warrior `i` of the first level's column, taken from the pool and
      placed at its spawn point; no warrior already handed out changes. */
  method SpawnPooledWarrior(i: nat, speed: real, wpool: ObjectPool<Warrior>,
                            tpool: ObjectPool<Texture>, files: map<Path, seq<byte>>) returns (warrior: Warrior)
    requires wpool.Sound() && tpool.Sound() && wpool as object != tpool
    modifies wpool, wpool.available, tpool, tpool.available
    ensures wpool.Sound() && tpool.Sound()
    ensures warrior !in old(wpool.outstanding) && wpool.outstanding == old(wpool.outstanding) + {warrior}
    ensures Suffix(wpool.available, old(wpool.available)) && Suffix(tpool.available, old(tpool.available))
    ensures forall w :: w in old(wpool.outstanding) ==> w.Record() == old(w.Record())
    ensures warrior.Record() == SpawnedWarrior(i, speed)
  {
    var spare := new Warrior();
    warrior := wpool.GetResource(spare);
    warrior.Initialize(-100.0, 10.0 + (i as real) * 100.0, speed, AnimSpeedFor(speed), 1.8, tpool, files);
  }

  /** Rock `j` of the second level's row, taken from the pool and placed at
      its spawn point; no rock already handed out changes. */
  method SpawnPooledRock(j: nat, speed: real, rpool: ObjectPool<Rock>,
                         tpool: ObjectPool<Texture>, files: map<Path, seq<byte>>) returns (rock: Rock)
    requires rpool.Sound() && tpool.Sound() && rpool as object != tpool
    modifies rpool, rpool.available, tpool, tpool.available
    ensures rpool.Sound() && tpool.Sound()
    ensures rock !in old(rpool.outstanding) && rpool.outstanding == old(rpool.outstanding) + {rock}
    ensures Suffix(rpool.available, old(rpool.available)) && Suffix(tpool.available, old(tpool.available))
    ensures forall r :: r in old(rpool.outstanding) ==> r.Record() == old(r.Record())
    ensures rock.Record() == SpawnedRock(j, speed)
  {
    var spare := new Rock();
    rock := rpool.GetResource(spare);
    rock.Initialize(50.0 + (j as real) * 100.0, -100.0, speed, AnimSpeedFor(speed), 1.0, tpool, files);
  }

  /** A first level after `dt` seconds of `Level1::Update`, before its
      auto-save check: the clock advanced and every warrior moved. */
  function Moved(l: LevelRecord, dt: real): (m: LevelRecord)
    ensures m.levelNumber == l.levelNumber && m.autoSaved == l.autoSaved && m.background == l.background
    ensures m.gameTime == l.gameTime + dt && m.rocks == l.rocks
    ensures |m.warriors| == |l.warriors| && forall i :: 0 <= i < |l.warriors| ==> m.warriors[i] == Updated(l.warriors[i], dt)
  {
    l.(gameTime := l.gameTime + dt, warriors := UpdateAll(l.warriors, dt))
  }

  /** The records of the warriors a mask keeps are the kept records. */
  lemma {:induction false} RecordsFilter(keep: seq<bool>, ws: seq<Warrior>)
    requires |keep| == |ws|
    ensures Records(Filter(keep, ws)) == Filter(keep, Records(ws))
    decreases |ws|
  {
    if ws != [] {
      var n := |ws| - 1;
      RecordsFilter(keep[..n], ws[..n]);
      assert Records(ws)[..n] == Records(ws[..n]);
    }
  }

  /** The records of the rocks a mask keeps are the kept records. */
  lemma {:induction false} RockRecordsFilter(keep: seq<bool>, rs: seq<Rock>)
    requires |keep| == |rs|
    ensures RockRecords(Filter(keep, rs)) == Filter(keep, RockRecords(rs))
    decreases |rs|
  {
    if rs != [] {
      var n := |rs| - 1;
      RockRecordsFilter(keep[..n], rs[..n]);
      assert RockRecords(rs)[..n] == RockRecords(rs[..n]);
    }
  }

  /** Dropping elements keeps a list free of repeats. */
  lemma {:induction false} FilterDistinct<T>(keep: seq<bool>, xs: seq<T>)
    requires |keep| == |xs| && Distinct(xs)
    ensures Distinct(Filter(keep, xs))
    decreases |xs|
  {
    if xs != [] {
      var n := |xs| - 1;
      FilterDistinct(keep[..n], xs[..n]);
      FilterKeepsFlagged(keep[..n], xs[..n], xs[n]);
    }
  }

  /** The three pools are distinct objects. */
  predicate Separate(wpool: ObjectPool<Warrior>, rpool: ObjectPool<Rock>, tpool: ObjectPool<Texture>)
  {
    wpool as object != rpool && wpool as object != tpool && rpool as object != tpool
  }

  class Level {
    /** `Level1` or `Level2`. */
    const stage: Stage
    var levelNumber: int
    var gameTime: real
    var autoSaved: bool
    var background: Color
    var warriors: seq<Warrior>
    /** Only the second level has rocks. */
    var rocks: seq<Rock>

    /** What `Serialize` writes. */
    function Snapshot(): LevelRecord
      reads this, warriors, rocks
    {
      LevelRecord(levelNumber, gameTime, autoSaved, background, Records(warriors), RockRecords(rocks))
    }

    /** The header fields, with empty entity lists. */
    function Header(): LevelRecord
      reads this
    {
      LevelRecord(levelNumber, gameTime, autoSaved, background, [], [])
    }

    /** The level holds each of its warriors and rocks once, each checked
        out of its pool, and the pools are consistent. */
    ghost predicate Owns(wpool: ObjectPool<Warrior>, rpool: ObjectPool<Rock>)
      reads this, wpool, rpool
    {
      && wpool.Sound() && rpool.Sound()
      && Distinct(warriors) && Distinct(rocks)
      && (forall w :: w in warriors ==> w in wpool.outstanding)
      && (forall r :: r in rocks ==> r in rpool.outstanding)
      && (stage == First ==> rocks == [])
    }

    /** `Level1()`: level 1 on a grey background, with no warriors yet. */
    constructor Level1()
      ensures stage == First && levelNumber == 1 && gameTime == 0.0 && !autoSaved
      ensures background == GREY && warriors == [] && rocks == []
    {
      stage := First;
      levelNumber, gameTime, autoSaved := 1, 0.0, false;
      background := BLACK;
      warriors, rocks := [], [];
      new;
      background := GREY;
    }

    /** `Level2(warriors)`: level 2 on a green background, taking over the
        given warriors in order. */
    constructor Level2(warriors: seq<Warrior>)
      ensures stage == Second && levelNumber == 2 && gameTime == 0.0 && !autoSaved
      ensures background == GREEN && this.warriors == warriors && rocks == []
    {
      stage := Second;
      levelNumber, gameTime, autoSaved := 2, 0.0, false;
      background := BLACK;
      this.warriors, rocks := [], [];
      new;
      background := GREEN;
      this.warriors := warriors;
    }

    /** The first level ends when its lead warrior has left the screen; the
        second never hands on. */
    predicate ShouldTransition()
      reads this, warriors
      ensures stage == Second ==> !ShouldTransition()
      ensures ShouldTransition() ==> |warriors| > 0 && warriors[0].x > SCREEN_RIGHT
    {
      stage == First && |warriors| > 0 && warriors[0].IsOffScreen()
    }

    /** The first level never quits; the second quits when its lead warrior
        has left the screen or none is running or dying any more. */
    method ShouldQuit() returns (quit: bool)
      ensures quit <==> stage == Second && QuitCondition(Records(warriors))
    {
      if stage == First {
        return false;
      }
      if |warriors| > 0 && warriors[0].IsOffScreen() {
        return true;
      }
      var allDead := true;
      var i := 0;
      while i < |warriors|
        invariant 0 <= i <= |warriors|
        invariant forall k :: 0 <= k < i ==> !warriors[k].IsAlive() && !warriors[k].IsDying()
      {
        if warriors[i].IsAlive() || warriors[i].IsDying() {
          allDead := false;
          break;
        }
        i := i + 1;
      }
      return allDead;
    }

    /** `CheckAABBCollision(w, r)`: the strict box test on the two sprites'
        current positions and sizes; boxes of positive size collide exactly
        when they share a point, and boxes that only touch do not. */
    function CheckAABBCollision(w: Warrior, r: Rock): (hit: bool)
      reads w, r
      ensures w.scale > 0.0 && r.scale > 0.0 ==>
        (hit <==> exists px, py :: InWarriorBox(w.Record(), px, py) && InRockBox(r.Record(), px, py))
      ensures w.x + w.GetWidth() == r.x || r.x + r.GetWidth() == w.x ==> !hit
      ensures w.y + w.GetHeight() == r.y || r.y + r.GetHeight() == w.y ==> !hit
    {
      if w.scale > 0.0 && r.scale > 0.0 then
        OverlapIsCommonPoint(w.Record(), r.Record());
        Overlap(w.Record(), r.Record())
      else
        Overlap(w.Record(), r.Record())
    }

    /** Writes the header, the warriors and, for the second level, the
        rocks. Nothing but the stream changes. */
    method Serialize(out: OutStream, fc: FloatCodec)
      modifies out
      ensures out.bytes == old(out.bytes) + EncodeLevel(fc, stage, Snapshot())
    {
      SerializeBase(out, fc);
      ghost var base := out.bytes;
      if stage == Second {
        SerializeRocks(out, fc);
      }
      ghost var snapshot := Snapshot();
      assert EncodeHeader(fc, Header()) == EncodeHeader(fc, snapshot);
      ghost var head := EncodeHeader(fc, snapshot);
      ghost var body := Resources.EncodeCounted(WarriorEncoder(fc), snapshot.warriors);
      ghost var tail := if stage == Second then Resources.EncodeCounted(RockEncoder(fc), snapshot.rocks) else [];
      assert base == old(out.bytes) + head + body;
      SeqAppendAssoc(old(out.bytes), head, body);
      assert out.bytes == base + tail;
      assert EncodeLevel(fc, stage, snapshot) == head + body + tail;
      SeqAppendAssoc(old(out.bytes), head + body, tail);
    }

    /** `Level::Serialize`: the header, the warrior count, each warrior. */
    method SerializeBase(out: OutStream, fc: FloatCodec)
      modifies out
      ensures out.bytes == old(out.bytes) + EncodeHeader(fc, Header()) +
        Resources.EncodeCounted(WarriorEncoder(fc), Records(warriors))
    {
      SerializeHeader(out, fc);
      SerializeWarriors(out, fc);
    }

    /** The warrior count, then each warrior. */
    method SerializeWarriors(out: OutStream, fc: FloatCodec)
      modifies out
      ensures out.bytes == old(out.bytes) + Resources.EncodeCounted(WarriorEncoder(fc), Records(warriors))
    {
      out.Write(EncodeSize(|warriors|));
      SerializeEachWarrior(out, fc);
    }

    method SerializeHeader(out: OutStream, fc: FloatCodec)
      modifies out
      ensures out.bytes == old(out.bytes) + EncodeHeader(fc, Header())
    {
      out.Write(EncodeInt32(levelNumber));
      out.Write(fc.bits(gameTime));
      out.Write(EncodeBool(autoSaved));
      out.Write(EncodeColor(background));
    }

    method SerializeEachWarrior(out: OutStream, fc: FloatCodec)
      modifies out
      ensures out.bytes == old(out.bytes) + Resources.EncodeEach(WarriorEncoder(fc), Records(warriors))
    {
      ghost var ws := Records(warriors);
      for i := 0 to |warriors|
        invariant out.bytes == old(out.bytes) + Resources.EncodeEach(WarriorEncoder(fc), ws[..i])
      {
        SerializeWarriorAt(out, fc, i, old(out.bytes), ws);
      }
      assert ws[..|warriors|] == ws;
    }

    /** One pass of the warrior loop: warrior `i` is appended to what is
        written. */
    method SerializeWarriorAt(out: OutStream, fc: FloatCodec, i: nat, ghost start: seq<byte>,
                              ghost ws: seq<WarriorRecord>)
      requires i < |warriors| && ws == Records(warriors)
      requires out.bytes == start + Resources.EncodeEach(WarriorEncoder(fc), ws[..i])
      modifies out
      ensures out.bytes == start + Resources.EncodeEach(WarriorEncoder(fc), ws[..i + 1])
    {
      Resources.EncodeEachSnoc(WarriorEncoder(fc), ws, i);
      assert WarriorEncoder(fc)(ws[i]) == EncodeWarrior(fc, warriors[i].Record());
      warriors[i].Serialize(out, fc);
    }

    /** `Level2::Serialize` after the base record: the rock count and each
        rock. */
    method SerializeRocks(out: OutStream, fc: FloatCodec)
      modifies out
      ensures out.bytes == old(out.bytes) + Resources.EncodeCounted(RockEncoder(fc), RockRecords(rocks))
    {
      out.Write(EncodeSize(|rocks|));
      SerializeEachRock(out, fc);
    }

    method SerializeEachRock(out: OutStream, fc: FloatCodec)
      modifies out
      ensures out.bytes == old(out.bytes) + Resources.EncodeEach(RockEncoder(fc), RockRecords(rocks))
    {
      ghost var rs := RockRecords(rocks);
      for j := 0 to |rocks|
        invariant out.bytes == old(out.bytes) + Resources.EncodeEach(RockEncoder(fc), rs[..j])
      {
        SerializeRockAt(out, fc, j, old(out.bytes), rs);
      }
      assert rs[..|rocks|] == rs;
    }

    /** One pass of the rock loop: rock `j` is appended to what is written. */
    method SerializeRockAt(out: OutStream, fc: FloatCodec, j: nat, ghost start: seq<byte>, ghost rs: seq<RockRecord>)
      requires j < |rocks| && rs == RockRecords(rocks)
      requires out.bytes == start + Resources.EncodeEach(RockEncoder(fc), rs[..j])
      modifies out
      ensures out.bytes == start + Resources.EncodeEach(RockEncoder(fc), rs[..j + 1])
    {
      Resources.EncodeEachSnoc(RockEncoder(fc), rs, j);
      assert RockEncoder(fc)(rs[j]) == EncodeRock(fc, rocks[j].Record());
      rocks[j].Serialize(out, fc);
    }

    /** `Level::Deserialize`, and for the second level the rock list after
        it: every field in record order, then exactly as many warriors (and
        rocks) as the stored counts, each a new acquisition from its pool,
        read in order. The old lists are dropped without returning their
        entities to the pools. */
    method Deserialize(src: InStream, fc: FloatCodec, wpool: ObjectPool<Warrior>, rpool: ObjectPool<Rock>,
                       tpool: ObjectPool<Texture>, files: map<Path, seq<byte>>)
      requires src.Valid() && wpool.Sound() && rpool.Sound() && tpool.Sound()
      requires Separate(wpool, rpool, tpool)
      requires stage == First ==> rocks == []
      modifies this, src, wpool, wpool.available, rpool, rpool.available, tpool, tpool.available
      ensures src.Valid() && Owns(wpool, rpool) && tpool.Sound()
      ensures forall w :: w in warriors ==> w !in old(wpool.outstanding)
      ensures stage == Second ==> forall r :: r in rocks ==> r !in old(rpool.outstanding)
      ensures Suffix(wpool.available, old(wpool.available))
      ensures Suffix(tpool.available, old(tpool.available))
      ensures DecodeLevel(fc, stage, old(src.Remaining())).Some? ==>
        (Snapshot(), src.Remaining()) == DecodeLevel(fc, stage, old(src.Remaining())).value
    {
      ghost var s := src.Remaining();
      ReadHeader(src, fc);
      ghost var s1 := src.Remaining();
      ReadWarriors(src, fc, wpool, tpool, files);
      ghost var s2 := src.Remaining();
      if stage == Second {
        ghost var handed := wpool.outstanding;
        ReadRocks(src, fc, rpool, tpool, files);
        assert wpool.outstanding == handed && wpool.Sound();
      }
      if DecodeLevel(fc, stage, s).Some? {
        assert Header() == DecodeHeader(fc, s).value.0;
        assert s1 == DecodeHeader(fc, s).value.1;
        var ws := Resources.DecodeCounted(WarriorDecoder(fc), s1);
        assert ws.Some? && Records(warriors) == ws.value.0 && s2 == ws.value.1;
        if stage == Second {
          var rs := Resources.DecodeCounted(RockDecoder(fc), s2);
          assert rs.Some? && RockRecords(rocks) == rs.value.0 && src.Remaining() == rs.value.1;
        }
      }
    }

    /** The level number, the game time, the saved flag and the
        background, each read only if the stream still has its bytes. */
    method ReadHeader(src: InStream, fc: FloatCodec)
      requires src.Valid()
      modifies this, src
      ensures src.Valid() && warriors == old(warriors) && rocks == old(rocks)
      ensures |old(src.Remaining())| >= HEADER_SIZE ==>
        (Header(), src.Remaining()) == DecodeHeader(fc, old(src.Remaining())).value
      ensures |old(src.Remaining())| < HEADER_SIZE ==> src.failed
    {
      ghost var s := src.Remaining();
      ReadNumbers(src, fc);
      ghost var s1 := src.Remaining();
      ReadLook(src);
      if |s| >= HEADER_SIZE {
        assert s1 == s[8..];
        assert s1[0..1] == s[8..9] && s1[1..5] == s[9..13];
        assert src.Remaining() == s1[5..] == s[HEADER_SIZE..];
      }
    }

    /** The level number and the game time. */
    method ReadNumbers(src: InStream, fc: FloatCodec)
      requires src.Valid()
      modifies this, src
      ensures src.Valid() && warriors == old(warriors) && rocks == old(rocks)
      ensures autoSaved == old(autoSaved) && background == old(background)
      ensures |old(src.Remaining())| >= 8 ==>
        var s := old(src.Remaining());
        levelNumber == DecodeInt32(s[0..4]) && gameTime == fc.value(s[4..8]) && src.Remaining() == s[8..]
      ensures |old(src.Remaining())| < 8 ==> src.failed
      ensures old(src.failed) ==> src.failed
    {
      ghost var s := src.Remaining();
      ghost var full := |s| >= 8;
      var ok, w := src.Read(INT_SIZE);
      if ok { levelNumber := DecodeInt32(w); }
      assert full ==> ok && w == s[0..4] && src.Remaining() == s[4..];
      ok, w := src.Read(FLOAT_SIZE);
      if ok { gameTime := fc.value(w); }
      assert full ==> ok && w == s[4..8] && src.Remaining() == s[8..];
    }

    /** The saved flag and the background. */
    method ReadLook(src: InStream)
      requires src.Valid()
      modifies this, src
      ensures src.Valid() && warriors == old(warriors) && rocks == old(rocks)
      ensures levelNumber == old(levelNumber) && gameTime == old(gameTime)
      ensures |old(src.Remaining())| >= 5 ==>
        var s := old(src.Remaining());
        autoSaved == DecodeBool(s[0..1]) && background == DecodeColor(s[1..5]) && src.Remaining() == s[5..]
      ensures |old(src.Remaining())| < 5 ==> src.failed
    {
      ghost var s := src.Remaining();
      ghost var full := |s| >= 5;
      var ok, w := src.Read(BOOL_SIZE);
      if ok { autoSaved := DecodeBool(w); }
      assert full ==> ok && w == s[0..1] && src.Remaining() == s[1..];
      ok, w := src.Read(COLOR_SIZE);
      if ok { background := DecodeColor(w); }
      assert full ==> ok && w == s[1..5] && src.Remaining() == s[5..];
    }

    /** Reads the warrior count, clears the list, and appends that many
        warriors taken from the pool, each read from the stream. A count
        that cannot be read is taken as 0. */
    method ReadWarriors(src: InStream, fc: FloatCodec, wpool: ObjectPool<Warrior>,
                        tpool: ObjectPool<Texture>, files: map<Path, seq<byte>>)
      requires src.Valid() && wpool.Sound() && tpool.Sound() && wpool as object != tpool
      modifies this, src, wpool, wpool.available, tpool, tpool.available
      ensures src.Valid() && wpool.Sound() && tpool.Sound()
      ensures Header() == old(Header()) && rocks == old(rocks)
      ensures Distinct(warriors)
      ensures forall w :: w in warriors ==> w in wpool.outstanding && w !in old(wpool.outstanding)
      ensures forall w :: w in wpool.outstanding ==> w in old(wpool.outstanding) || w in warriors
      ensures Suffix(wpool.available, old(wpool.available))
      ensures Suffix(tpool.available, old(tpool.available))
      ensures |old(src.Remaining())| >= SIZE_T_SIZE ==>
        |warriors| == DecodeSize(old(src.Remaining())[..SIZE_T_SIZE])
      ensures |old(src.Remaining())| < SIZE_T_SIZE ==> warriors == []
      ensures Resources.DecodeCounted(WarriorDecoder(fc), old(src.Remaining())).Some? ==>
        (Records(warriors), src.Remaining()) ==
          Resources.DecodeCounted(WarriorDecoder(fc), old(src.Remaining())).value
    {
      ghost var s := src.Remaining();
      var ok, w := src.Read(SIZE_T_SIZE);
      var count := if ok then DecodeSize(w) else 0;
      assert |s| >= SIZE_T_SIZE ==> ok && w == s[..SIZE_T_SIZE] && src.Remaining() == s[SIZE_T_SIZE..];
      warriors := [];
      ReadEachWarrior(src, fc, count, wpool, tpool, files);
    }

    /** The loop of the reader above: `count` entities appended in turn to
        the (empty) list. */
    method ReadEachWarrior(src: InStream, fc: FloatCodec, count: nat, wpool: ObjectPool<Warrior>,
                        tpool: ObjectPool<Texture>, files: map<Path, seq<byte>>)
      requires src.Valid() && wpool.Sound() && tpool.Sound() && wpool as object != tpool
      requires warriors == []
      modifies this, src, wpool, wpool.available, tpool, tpool.available
      ensures src.Valid() && wpool.Sound() && tpool.Sound()
      ensures Header() == old(Header()) && rocks == old(rocks)
      ensures Distinct(warriors) && |warriors| == count
      ensures forall x :: x in warriors ==> x in wpool.outstanding && x !in old(wpool.outstanding)
      ensures forall x :: x in wpool.outstanding ==> x in old(wpool.outstanding) || x in warriors
      ensures Suffix(wpool.available, old(wpool.available))
      ensures Suffix(tpool.available, old(tpool.available))
      ensures Resources.DecodeEach(WarriorDecoder(fc), count, old(src.Remaining())).Some? ==>
        (Records(warriors), src.Remaining()) == Resources.DecodeEach(WarriorDecoder(fc), count, old(src.Remaining())).value
    {
      ghost var s0 := src.Remaining();
      ghost var good := Resources.DecodeEach(WarriorDecoder(fc), count, s0).Some?;
      var k := 0;
      while k < count
        invariant 0 <= k <= count && |warriors| == k
        invariant src.Valid() && wpool.Sound() && tpool.Sound()
        invariant Header() == old(Header()) && rocks == old(rocks)
        invariant Distinct(warriors)
        invariant old(wpool.outstanding) <= wpool.outstanding
        invariant forall x :: x in warriors ==> x in wpool.outstanding && x !in old(wpool.outstanding)
        invariant forall x :: x in wpool.outstanding ==> x in old(wpool.outstanding) || x in warriors
        invariant Suffix(wpool.available, old(wpool.available))
        invariant Suffix(tpool.available, old(tpool.available))
        invariant good ==> Resources.DecodeEach(WarriorDecoder(fc), k, s0) == Some((Records(warriors), src.Remaining()))
        decreases count - k
      {
        ghost var avail, tavail := wpool.available, tpool.available;
        TakeWarrior(src, fc, wpool, tpool, files, count, k, s0);
        SuffixTransitive(wpool.available, avail, old(wpool.available));
        SuffixTransitive(tpool.available, tavail, old(tpool.available));
        k := k + 1;
      }
    }

    /** One turn of the warrior loop: a warrior from the pool, read from
        the stream and appended to the list. */
    method TakeWarrior(src: InStream, fc: FloatCodec, wpool: ObjectPool<Warrior>,
                       tpool: ObjectPool<Texture>, files: map<Path, seq<byte>>,
                       ghost count: nat, ghost k: nat, ghost s0: seq<byte>)
      requires src.Valid() && wpool.Sound() && tpool.Sound() && wpool as object != tpool
      requires forall x :: x in warriors ==> x in wpool.outstanding
      requires k < count && |warriors| == k
      requires Resources.DecodeEach(WarriorDecoder(fc), count, s0).Some? ==>
        Resources.DecodeEach(WarriorDecoder(fc), k, s0) == Some((Records(warriors), src.Remaining()))
      modifies this, src, wpool, wpool.available, tpool, tpool.available
      ensures src.Valid() && wpool.Sound() && tpool.Sound()
      ensures Header() == old(Header()) && rocks == old(rocks)
      ensures |warriors| == |old(warriors)| + 1 && warriors[..|old(warriors)|] == old(warriors)
      ensures warriors[|old(warriors)|] !in old(wpool.outstanding)
      ensures Distinct(old(warriors)) ==> Distinct(warriors)
      ensures forall x :: x in warriors ==> x in wpool.outstanding
      ensures wpool.outstanding == old(wpool.outstanding) + {warriors[|old(warriors)|]}
      ensures Suffix(wpool.available, old(wpool.available)) && Suffix(tpool.available, old(tpool.available))
      ensures Resources.DecodeEach(WarriorDecoder(fc), count, s0).Some? ==>
        Resources.DecodeEach(WarriorDecoder(fc), k + 1, s0) == Some((Records(warriors), src.Remaining()))
    {
      ghost var before := Records(warriors);
      ghost var rest := src.Remaining();
      var warrior := ReadPooledWarrior(src, fc, wpool, tpool, files);
      assert Records(warriors) == before;
      warriors := warriors + [warrior];
      assert Records(warriors) == before + [warrior.Record()];
      if Resources.DecodeEach(WarriorDecoder(fc), count, s0).Some? {
        Resources.DecodeEachPrefix(WarriorDecoder(fc), count, k + 1, s0);
        Resources.DecodeEachStep(WarriorDecoder(fc), k, s0, before, rest);
        assert WarriorDecoder(fc)(rest) == DecodeWarrior(fc, rest);
      }
    }

    /** `Level2::Deserialize` after the base record: the rock count, then
        that many rocks taken from the pool, each read from the stream. */
    method ReadRocks(src: InStream, fc: FloatCodec, rpool: ObjectPool<Rock>,
                     tpool: ObjectPool<Texture>, files: map<Path, seq<byte>>)
      requires src.Valid() && rpool.Sound() && tpool.Sound() && rpool as object != tpool
      modifies this, src, rpool, rpool.available, tpool, tpool.available
      ensures src.Valid() && rpool.Sound() && tpool.Sound()
      ensures Header() == old(Header()) && warriors == old(warriors)
      ensures Records(warriors) == old(Records(warriors))
      ensures Distinct(rocks)
      ensures forall r :: r in rocks ==> r in rpool.outstanding && r !in old(rpool.outstanding)
      ensures forall r :: r in rpool.outstanding ==> r in old(rpool.outstanding) || r in rocks
      ensures Suffix(rpool.available, old(rpool.available))
      ensures Suffix(tpool.available, old(tpool.available))
      ensures |old(src.Remaining())| >= SIZE_T_SIZE ==>
        |rocks| == DecodeSize(old(src.Remaining())[..SIZE_T_SIZE])
      ensures |old(src.Remaining())| < SIZE_T_SIZE ==> rocks == []
      ensures Resources.DecodeCounted(RockDecoder(fc), old(src.Remaining())).Some? ==>
        (RockRecords(rocks), src.Remaining()) ==
          Resources.DecodeCounted(RockDecoder(fc), old(src.Remaining())).value
    {
      ghost var s := src.Remaining();
      var ok, w := src.Read(SIZE_T_SIZE);
      var count := if ok then DecodeSize(w) else 0;
      assert |s| >= SIZE_T_SIZE ==> ok && w == s[..SIZE_T_SIZE] && src.Remaining() == s[SIZE_T_SIZE..];
      rocks := [];
      ReadEachRock(src, fc, count, rpool, tpool, files);
    }

    /** The loop of the reader above: `count` entities appended in turn to
        the (empty) list. */
    method ReadEachRock(src: InStream, fc: FloatCodec, count: nat, rpool: ObjectPool<Rock>,
                        tpool: ObjectPool<Texture>, files: map<Path, seq<byte>>)
      requires src.Valid() && rpool.Sound() && tpool.Sound() && rpool as object != tpool
      requires rocks == []
      modifies this, src, rpool, rpool.available, tpool, tpool.available
      ensures src.Valid() && rpool.Sound() && tpool.Sound()
      ensures Header() == old(Header()) && warriors == old(warriors)
      ensures Distinct(rocks) && |rocks| == count
      ensures forall x :: x in rocks ==> x in rpool.outstanding && x !in old(rpool.outstanding)
      ensures forall x :: x in rpool.outstanding ==> x in old(rpool.outstanding) || x in rocks
      ensures Suffix(rpool.available, old(rpool.available))
      ensures Suffix(tpool.available, old(tpool.available))
      ensures Resources.DecodeEach(RockDecoder(fc), count, old(src.Remaining())).Some? ==>
        (RockRecords(rocks), src.Remaining()) == Resources.DecodeEach(RockDecoder(fc), count, old(src.Remaining())).value
    {
      ghost var s0 := src.Remaining();
      ghost var good := Resources.DecodeEach(RockDecoder(fc), count, s0).Some?;
      var k := 0;
      while k < count
        invariant 0 <= k <= count && |rocks| == k
        invariant src.Valid() && rpool.Sound() && tpool.Sound()
        invariant warriors == old(warriors)
        invariant Header() == old(Header())
        invariant Distinct(rocks)
        invariant old(rpool.outstanding) <= rpool.outstanding
        invariant forall x :: x in rocks ==> x in rpool.outstanding && x !in old(rpool.outstanding)
        invariant forall x :: x in rpool.outstanding ==> x in old(rpool.outstanding) || x in rocks
        invariant Suffix(rpool.available, old(rpool.available))
        invariant Suffix(tpool.available, old(tpool.available))
        invariant good ==> Resources.DecodeEach(RockDecoder(fc), k, s0) == Some((RockRecords(rocks), src.Remaining()))
        decreases count - k
      {
        ghost var avail, tavail := rpool.available, tpool.available;
        TakeRock(src, fc, rpool, tpool, files, count, k, s0);
        SuffixTransitive(rpool.available, avail, old(rpool.available));
        SuffixTransitive(tpool.available, tavail, old(tpool.available));
        k := k + 1;
      }
    }

    /** One turn of the rock loop: a rock from the pool, read from the
        stream and appended to the list. */
    method TakeRock(src: InStream, fc: FloatCodec, rpool: ObjectPool<Rock>,
                    tpool: ObjectPool<Texture>, files: map<Path, seq<byte>>,
                    ghost count: nat, ghost k: nat, ghost s0: seq<byte>)
      requires src.Valid() && rpool.Sound() && tpool.Sound() && rpool as object != tpool
      requires forall x :: x in rocks ==> x in rpool.outstanding
      requires k < count && |rocks| == k
      requires Resources.DecodeEach(RockDecoder(fc), count, s0).Some? ==>
        Resources.DecodeEach(RockDecoder(fc), k, s0) == Some((RockRecords(rocks), src.Remaining()))
      modifies this, src, rpool, rpool.available, tpool, tpool.available
      ensures src.Valid() && rpool.Sound() && tpool.Sound()
      ensures Header() == old(Header()) && warriors == old(warriors)
      ensures |rocks| == |old(rocks)| + 1 && rocks[..|old(rocks)|] == old(rocks)
      ensures rocks[|old(rocks)|] !in old(rpool.outstanding)
      ensures Distinct(old(rocks)) ==> Distinct(rocks)
      ensures forall x :: x in rocks ==> x in rpool.outstanding
      ensures rpool.outstanding == old(rpool.outstanding) + {rocks[|old(rocks)|]}
      ensures Suffix(rpool.available, old(rpool.available)) && Suffix(tpool.available, old(tpool.available))
      ensures Resources.DecodeEach(RockDecoder(fc), count, s0).Some? ==>
        Resources.DecodeEach(RockDecoder(fc), k + 1, s0) == Some((RockRecords(rocks), src.Remaining()))
    {
      ghost var before := RockRecords(rocks);
      ghost var rest := src.Remaining();
      var rock := ReadPooledRock(src, fc, rpool, tpool, files);
      assert RockRecords(rocks) == before;
      rocks := rocks + [rock];
      assert RockRecords(rocks) == before + [rock.Record()];
      if Resources.DecodeEach(RockDecoder(fc), count, s0).Some? {
        Resources.DecodeEachPrefix(RockDecoder(fc), count, k + 1, s0);
        Resources.DecodeEachStep(RockDecoder(fc), k, s0, before, rest);
        assert RockDecoder(fc)(rest) == DecodeRock(fc, rest);
      }
    }

    /** `Initialize()`: the first level appends its column of ten warriors,
        the second its row of ten rocks, each taken from its pool and set
        up at its spawn point; `speeds` are the ten speeds drawn from
        [80, 100). The clock and the saved flag are reset. */
    method Initialize(speeds: seq<real>, wpool: ObjectPool<Warrior>, rpool: ObjectPool<Rock>,
                      tpool: ObjectPool<Texture>, files: map<Path, seq<byte>>)
      requires |speeds| == SPAWN_COUNT
      requires Owns(wpool, rpool) && tpool.Sound() && Separate(wpool, rpool, tpool)
      modifies this, wpool, wpool.available, rpool, rpool.available, tpool, tpool.available
      ensures Owns(wpool, rpool) && tpool.Sound()
      ensures levelNumber == old(levelNumber) && background == old(background)
      ensures gameTime == 0.0 && !autoSaved
      ensures stage == First ==>
        && Records(warriors) == old(Records(warriors)) + SpawnedWarriors(speeds)
        && warriors[..|old(warriors)|] == old(warriors)
        && (forall k :: |old(warriors)| <= k < |warriors| ==> warriors[k] !in old(wpool.outstanding))
      ensures stage == Second ==>
        && warriors == old(warriors) && Records(warriors) == old(Records(warriors))
        && RockRecords(rocks) == old(RockRecords(rocks)) + SpawnedRocks(speeds)
        && rocks[..|old(rocks)|] == old(rocks)
        && (forall k :: |old(rocks)| <= k < |rocks| ==> rocks[k] !in old(rpool.outstanding))
    {
      if stage == First {
        SpawnWarriors(speeds, wpool, tpool, files);
      } else {
        SpawnRocks(speeds, rpool, tpool, files);
      }
      gameTime := 0.0;
      autoSaved := false;
    }

    /** The warrior loop of `Level1::Initialize`. */
    method SpawnWarriors(speeds: seq<real>, wpool: ObjectPool<Warrior>,
                         tpool: ObjectPool<Texture>, files: map<Path, seq<byte>>)
      requires wpool.Sound() && tpool.Sound() && wpool as object != tpool
      requires Distinct(warriors) && forall x :: x in warriors ==> x in wpool.outstanding
      modifies this, wpool, wpool.available, tpool, tpool.available
      ensures wpool.Sound() && tpool.Sound()
      ensures Header() == old(Header()) && rocks == old(rocks)
      ensures Distinct(warriors) && forall x :: x in warriors ==> x in wpool.outstanding
      ensures Records(warriors) == old(Records(warriors)) + SpawnedWarriors(speeds)
      ensures |warriors| == |old(warriors)| + |speeds| && warriors[..|old(warriors)|] == old(warriors)
      ensures forall k :: |old(warriors)| <= k < |warriors| ==> warriors[k] !in old(wpool.outstanding)
      ensures Suffix(wpool.available, old(wpool.available)) && Suffix(tpool.available, old(tpool.available))
    {
      for k := 0 to |speeds|
        invariant wpool.Sound() && tpool.Sound()
        invariant Header() == old(Header()) && rocks == old(rocks)
        invariant Distinct(warriors) && forall x :: x in warriors ==> x in wpool.outstanding
        invariant old(wpool.outstanding) <= wpool.outstanding
        invariant Records(warriors) == old(Records(warriors)) + SpawnedWarriors(speeds)[..k]
        invariant |warriors| == |old(warriors)| + k && warriors[..|old(warriors)|] == old(warriors)
        invariant forall n :: |old(warriors)| <= n < |warriors| ==> warriors[n] !in old(wpool.outstanding)
        invariant Suffix(wpool.available, old(wpool.available)) && Suffix(tpool.available, old(tpool.available))
      {
        ghost var avail, tavail := wpool.available, tpool.available;
        SpawnWarrior(k, speeds[k], wpool, tpool, files);
        SuffixTransitive(wpool.available, avail, old(wpool.available));
        SuffixTransitive(tpool.available, tavail, old(tpool.available));
        assert SpawnedWarriors(speeds)[..k + 1] == SpawnedWarriors(speeds)[..k] + [SpawnedWarrior(k, speeds[k])];
      }
      assert SpawnedWarriors(speeds)[..|speeds|] == SpawnedWarriors(speeds);
    }

    /** One turn of the loop above: warrior `i`, from the pool, at its
        spawn point. */
    method SpawnWarrior(i: nat, speed: real, wpool: ObjectPool<Warrior>,
                        tpool: ObjectPool<Texture>, files: map<Path, seq<byte>>)
      requires wpool.Sound() && tpool.Sound() && wpool as object != tpool
      requires forall x :: x in warriors ==> x in wpool.outstanding
      modifies this, wpool, wpool.available, tpool, tpool.available
      ensures wpool.Sound() && tpool.Sound()
      ensures Header() == old(Header()) && rocks == old(rocks)
      ensures |warriors| == |old(warriors)| + 1 && warriors == old(warriors) + [warriors[|old(warriors)|]]
      ensures warriors[|old(warriors)|] !in old(wpool.outstanding)
      ensures wpool.outstanding == old(wpool.outstanding) + {warriors[|old(warriors)|]}
      ensures Records(warriors) == old(Records(warriors)) + [SpawnedWarrior(i, speed)]
      ensures Suffix(wpool.available, old(wpool.available)) && Suffix(tpool.available, old(tpool.available))
    {
      ghost var before := Records(warriors);
      var warrior := SpawnPooledWarrior(i, speed, wpool, tpool, files);
      assert Records(warriors) == before;
      warriors := warriors + [warrior];
      assert Records(warriors) == before + [warrior.Record()];
    }

    /** The rock loop of `Level2::Initialize`. */
    method SpawnRocks(speeds: seq<real>, rpool: ObjectPool<Rock>,
                      tpool: ObjectPool<Texture>, files: map<Path, seq<byte>>)
      requires rpool.Sound() && tpool.Sound() && rpool as object != tpool
      requires Distinct(rocks) && forall x :: x in rocks ==> x in rpool.outstanding
      modifies this, rpool, rpool.available, tpool, tpool.available
      ensures rpool.Sound() && tpool.Sound()
      ensures Header() == old(Header()) && warriors == old(warriors)
      ensures Distinct(rocks) && forall x :: x in rocks ==> x in rpool.outstanding
      ensures RockRecords(rocks) == old(RockRecords(rocks)) + SpawnedRocks(speeds)
      ensures |rocks| == |old(rocks)| + |speeds| && rocks[..|old(rocks)|] == old(rocks)
      ensures forall k :: |old(rocks)| <= k < |rocks| ==> rocks[k] !in old(rpool.outstanding)
      ensures Suffix(rpool.available, old(rpool.available)) && Suffix(tpool.available, old(tpool.available))
    {
      for k := 0 to |speeds|
        invariant rpool.Sound() && tpool.Sound()
        invariant Header() == old(Header()) && warriors == old(warriors)
        invariant Distinct(rocks) && forall x :: x in rocks ==> x in rpool.outstanding
        invariant old(rpool.outstanding) <= rpool.outstanding
        invariant RockRecords(rocks) == old(RockRecords(rocks)) + SpawnedRocks(speeds)[..k]
        invariant |rocks| == |old(rocks)| + k && rocks[..|old(rocks)|] == old(rocks)
        invariant forall n :: |old(rocks)| <= n < |rocks| ==> rocks[n] !in old(rpool.outstanding)
        invariant Suffix(rpool.available, old(rpool.available)) && Suffix(tpool.available, old(tpool.available))
      {
        ghost var avail, tavail := rpool.available, tpool.available;
        SpawnRock(k, speeds[k], rpool, tpool, files);
        SuffixTransitive(rpool.available, avail, old(rpool.available));
        SuffixTransitive(tpool.available, tavail, old(tpool.available));
        assert SpawnedRocks(speeds)[..k + 1] == SpawnedRocks(speeds)[..k] + [SpawnedRock(k, speeds[k])];
      }
      assert SpawnedRocks(speeds)[..|speeds|] == SpawnedRocks(speeds);
    }

    /** One turn of the loop above: rock `j`, from the pool, at its spawn
        point. */
    method SpawnRock(j: nat, speed: real, rpool: ObjectPool<Rock>,
                     tpool: ObjectPool<Texture>, files: map<Path, seq<byte>>)
      requires rpool.Sound() && tpool.Sound() && rpool as object != tpool
      requires forall x :: x in rocks ==> x in rpool.outstanding
      modifies this, rpool, rpool.available, tpool, tpool.available
      ensures rpool.Sound() && tpool.Sound()
      ensures Header() == old(Header()) && warriors == old(warriors)
      ensures |rocks| == |old(rocks)| + 1 && rocks == old(rocks) + [rocks[|old(rocks)|]]
      ensures rocks[|old(rocks)|] !in old(rpool.outstanding)
      ensures rpool.outstanding == old(rpool.outstanding) + {rocks[|old(rocks)|]}
      ensures RockRecords(rocks) == old(RockRecords(rocks)) + [SpawnedRock(j, speed)]
      ensures Suffix(rpool.available, old(rpool.available)) && Suffix(tpool.available, old(tpool.available))
    {
      ghost var before := RockRecords(rocks);
      var rock := SpawnPooledRock(j, speed, rpool, tpool, files);
      assert RockRecords(rocks) == before;
      rocks := rocks + [rock];
      assert RockRecords(rocks) == before + [rock.Record()];
    }

    /** The warrior loop of `Update`: each warrior advances by `dt`. */
    method UpdateWarriors(dt: real)
      requires Distinct(warriors)
      modifies warriors
      ensures Records(warriors) == UpdateAll(old(Records(warriors)), dt)
    {
      ghost var ws := Records(warriors);
      for i := 0 to |warriors|
        invariant forall k :: 0 <= k < i ==> warriors[k].Record() == Updated(ws[k], dt)
        invariant forall k :: i <= k < |warriors| ==> warriors[k].Record() == ws[k]
      {
        warriors[i].Update(dt);
      }
    }

    /** The rock loop of `Level2::Update`: each rock falls for `dt`. */
    method UpdateRocks(dt: real)
      requires Distinct(rocks)
      modifies rocks
      ensures RockRecords(rocks) == FallAll(old(RockRecords(rocks)), dt)
    {
      ghost var rs := RockRecords(rocks);
      for j := 0 to |rocks|
        invariant forall k :: 0 <= k < j ==> rocks[k].Record() == Fallen(rs[k], dt)
        invariant forall k :: j <= k < |rocks| ==> rocks[k].Record() == rs[k]
      {
        rocks[j].Update(dt);
      }
    }

    /** `Level2::CheckCollisions`: the rocks take their turns in list
        order, each killing at most the first running warrior it
        overlaps. */
    method CheckCollisions()
      requires Distinct(warriors) && Distinct(rocks)
      modifies warriors, rocks
      ensures (Records(warriors), RockRecords(rocks)) ==
        Collisions(old(Records(warriors)), old(RockRecords(rocks)))
    {
      ghost var ws, rs := Records(warriors), RockRecords(rocks);
      for j := 0 to |rocks|
        invariant Records(warriors) == Collisions(ws, rs[..j]).0
        invariant RockRecords(rocks) == Collisions(ws, rs[..j]).1 + rs[j..]
      {
        CollisionStep(j, ws, rs);
      }
      assert rs[..|rocks|] == rs && rs[|rocks|..] == [];
      ghost var (ws', rs') := Collisions(ws, rs);
      assert rs' + [] == rs';
    }

    /** Rock `j`'s turn, seen against the whole run: after the turns of
        rocks `0..j` the lists are those `Collisions` gives for them. */
    method CollisionStep(j: nat, ghost ws: seq<WarriorRecord>, ghost rs: seq<RockRecord>)
      requires Distinct(warriors) && Distinct(rocks) && j < |rocks| == |rs|
      requires Records(warriors) == Collisions(ws, rs[..j]).0
      requires RockRecords(rocks) == Collisions(ws, rs[..j]).1 + rs[j..]
      modifies warriors, rocks[j]
      ensures Records(warriors) == Collisions(ws, rs[..j + 1]).0
      ensures RockRecords(rocks) == Collisions(ws, rs[..j + 1]).1 + rs[j + 1..]
    {
      ghost var c := Collisions(ws, rs[..j]);
      assert (c.1 + rs[j..])[j] == rs[j];
      RockTurn(j);
      CollisionsSnoc(ws, rs, j);
      ghost var r := Strike(c.0, rs[j]).1;
      assert (c.1 + rs[j..])[j := r] == (c.1 + [r]) + rs[j + 1..];
    }

    /** One pass of the inner loop, for rock `j`: an inactive rock is
        skipped; an active one kills the first running warrior it overlaps,
        if any, and is spent. The other rocks are untouched. */
    method RockTurn(j: nat)
      requires Distinct(warriors) && Distinct(rocks) && j < |rocks|
      modifies warriors, rocks[j]
      ensures Records(warriors) == Strike(old(Records(warriors)), old(rocks[j].Record())).0
      ensures RockRecords(rocks) ==
        old(RockRecords(rocks))[j := Strike(old(Records(warriors)), old(rocks[j].Record())).1]
    {
      ghost var rs := RockRecords(rocks);
      var rock := rocks[j];
      if !rock.IsActive() {
        return;
      }
      ghost var ws := Records(warriors);
      var i := 0;
      while i < |warriors|
        invariant 0 <= i <= |warriors| && Records(warriors) == ws
        invariant forall k :: 0 <= k < i ==> !Strikes(ws[k], rock.Record())
      {
        if warriors[i].IsAlive() && CheckAABBCollision(warriors[i], rock) {
          assert FirstHit(ws, rock.Record()) == Some(i);
          warriors[i].StartDeathAnimation();
          rock.SetActive(false);
          assert Records(warriors) == ws[i := Killed(ws[i])];
          assert forall k :: 0 <= k < |rocks| && k != j ==> rocks[k].Record() == rs[k];
          assert RockRecords(rocks) == rs[j := rock.Record()];
          return;
        }
        i := i + 1;
      }
    }

    /** `erase(remove_if(...))` on the rocks: the inactive ones leave the
        list, the others keep their order. */
    method PruneRocks()
      modifies this
      ensures rocks == Filter(ActiveMask(RockRecords(old(rocks))), old(rocks))
      ensures RockRecords(rocks) == Filter(ActiveMask(old(RockRecords(rocks))), old(RockRecords(rocks)))
      ensures forall r :: r in rocks ==> r in old(rocks) && r.active
      ensures Distinct(old(rocks)) ==> Distinct(rocks)
      ensures Header() == old(Header()) && warriors == old(warriors)
      ensures Records(warriors) == old(Records(warriors))
    {
      var kept := ActiveRocks();
      ghost var records := RockRecords(kept);
      rocks := kept;
      assert RockRecords(rocks) == records;
    }

    /** The rocks `remove_if` keeps, in order: the active ones. */
    method ActiveRocks() returns (kept: seq<Rock>)
      ensures kept == Filter(ActiveMask(RockRecords(rocks)), rocks)
      ensures RockRecords(kept) == Filter(ActiveMask(RockRecords(rocks)), RockRecords(rocks))
      ensures forall r :: r in kept ==> r in rocks && r.active
      ensures Distinct(rocks) ==> Distinct(kept)
    {
      ghost var mask := ActiveMask(RockRecords(rocks));
      kept := [];
      for j := 0 to |rocks|
        invariant kept == Filter(mask[..j], rocks[..j])
      {
        assert mask[..j + 1][..j] == mask[..j] && rocks[..j + 1][..j] == rocks[..j];
        if rocks[j].IsActive() {
          kept := kept + [rocks[j]];
        }
      }
      assert mask[..|rocks|] == mask && rocks[..|rocks|] == rocks;
      RockRecordsFilter(mask, rocks);
      forall r | r in kept
        ensures r in rocks && r.active
      {
        FilterKeepsFlagged(mask, rocks, r);
      }
      if Distinct(rocks) {
        FilterDistinct(mask, rocks);
      }
    }

    /** `erase(remove_if(...))` on the warriors: the dead ones leave the
        list, the others keep their order. */
    method PruneWarriors()
      modifies this
      ensures warriors == Filter(UndeadMask(Records(old(warriors))), old(warriors))
      ensures Records(warriors) == Filter(UndeadMask(old(Records(warriors))), old(Records(warriors)))
      ensures forall w :: w in warriors ==> w in old(warriors) && !w.IsDead()
      ensures Distinct(old(warriors)) ==> Distinct(warriors)
      ensures Header() == old(Header()) && rocks == old(rocks)
      ensures RockRecords(rocks) == old(RockRecords(rocks))
    {
      var kept := UndeadWarriors();
      ghost var records := Records(kept);
      warriors := kept;
      assert Records(warriors) == records;
    }

    /** The warriors `remove_if` keeps, in order: all but the dead. */
    method UndeadWarriors() returns (kept: seq<Warrior>)
      ensures kept == Filter(UndeadMask(Records(warriors)), warriors)
      ensures Records(kept) == Filter(UndeadMask(Records(warriors)), Records(warriors))
      ensures forall w :: w in kept ==> w in warriors && !w.IsDead()
      ensures Distinct(warriors) ==> Distinct(kept)
    {
      ghost var mask := UndeadMask(Records(warriors));
      kept := [];
      for i := 0 to |warriors|
        invariant kept == Filter(mask[..i], warriors[..i])
      {
        assert mask[..i + 1][..i] == mask[..i] && warriors[..i + 1][..i] == warriors[..i];
        if !warriors[i].IsDead() {
          kept := kept + [warriors[i]];
        }
      }
      assert mask[..|warriors|] == mask && warriors[..|warriors|] == warriors;
      RecordsFilter(mask, warriors);
      forall w | w in kept
        ensures w in warriors && !w.IsDead()
      {
        FilterKeepsFlagged(mask, warriors, w);
      }
      if Distinct(warriors) {
        FilterDistinct(mask, warriors);
      }
    }

    /** `Update(deltaTime)`, dispatched on the level. */
    method Update(dt: real, fs: FileSystem, fc: FloatCodec, wpool: ObjectPool<Warrior>, rpool: ObjectPool<Rock>,
                  tpool: ObjectPool<Texture>, files: map<Path, seq<byte>>)
      requires Owns(wpool, rpool) && tpool.Sound() && Separate(wpool, rpool, tpool)
      modifies this, warriors, rocks, fs, wpool, wpool.available, rpool, rpool.available, tpool, tpool.available
      ensures Owns(wpool, rpool) && tpool.Sound()
      ensures levelNumber == old(levelNumber) && background == old(background)
      ensures stage == First ==>
        forall w :: w in warriors ==> w in old(warriors) || w !in old(wpool.outstanding)
      ensures stage == First && (old(gameTime) + dt < AUTOSAVE_TIME || old(autoSaved)) ==>
        warriors == old(warriors) && Snapshot() == Moved(old(Snapshot()), dt) && fs.files == old(fs.files)
      ensures stage == First && old(gameTime) + dt >= AUTOSAVE_TIME && !old(autoSaved) ==>
        SavedAndReloaded(fs, fc, old(fs.files), Moved(old(Snapshot()), dt), old(warriors))
      ensures stage == Second ==>
        forall w :: w in warriors ==> w in old(warriors)
      ensures stage == Second ==>
        (Records(warriors), RockRecords(rocks)) == SecondFrame(old(Records(warriors)), old(RockRecords(rocks)), dt)
      ensures stage == Second ==> gameTime == old(gameTime) + dt
      ensures stage == Second ==>
        var due := old(gameTime) + dt >= AUTOSAVE_TIME && !old(autoSaved);
        && (!due ==> autoSaved == old(autoSaved) && fs.files == old(fs.files))
        && (due ==> autoSaved == (LEVEL2_FILE in fs.files))
        && (due && LEVEL2_FILE in fs.writable ==>
              fs.files == old(fs.files)[LEVEL2_FILE := EncodeLevel(fc, Second, Snapshot().(autoSaved := false))])
        && (due && LEVEL2_FILE !in fs.writable ==> fs.files == old(fs.files))
    {
      if stage == First {
        UpdateFirst(dt, fs, fc, wpool, rpool, tpool, files);
      } else {
        UpdateSecond(dt, fs, fc, wpool, rpool);
      }
    }

    /** `Level1::Update`: the clock advances, every warrior moves, then the
        level saves (and reloads) itself if it is due. With `moved` the
        level as it stands before the auto-save, a due save writes `moved`
        and, when its values are exactly representable in the file, the
        reload gives the same warriors and clock back. */
    method UpdateFirst(dt: real, fs: FileSystem, fc: FloatCodec, wpool: ObjectPool<Warrior>, rpool: ObjectPool<Rock>,
                       tpool: ObjectPool<Texture>, files: map<Path, seq<byte>>)
      requires stage == First && Owns(wpool, rpool) && tpool.Sound() && Separate(wpool, rpool, tpool)
      modifies this, warriors, fs, wpool, wpool.available, rpool, rpool.available, tpool, tpool.available
      ensures Owns(wpool, rpool) && tpool.Sound()
      ensures levelNumber == old(levelNumber) && background == old(background)
      ensures forall w :: w in warriors ==> w in old(warriors) || w !in old(wpool.outstanding)
      ensures old(gameTime) + dt < AUTOSAVE_TIME || old(autoSaved) ==>
        warriors == old(warriors) && Snapshot() == Moved(old(Snapshot()), dt) && fs.files == old(fs.files)
      ensures old(gameTime) + dt >= AUTOSAVE_TIME && !old(autoSaved) ==>
        SavedAndReloaded(fs, fc, old(fs.files), Moved(old(Snapshot()), dt), old(warriors))
    {
      ghost var moved := Moved(Snapshot(), dt);
      MoveWarriors(dt, wpool, rpool);
      assert Snapshot() == moved;
      CheckAutoSaveFirst(fs, fc, wpool, rpool, tpool, files);
    }

    /** The clock advances and every warrior moves; the lists stay. */
    method MoveWarriors(dt: real, wpool: ObjectPool<Warrior>, rpool: ObjectPool<Rock>)
      requires Owns(wpool, rpool)
      modifies this, warriors
      ensures Owns(wpool, rpool) && warriors == old(warriors) && rocks == old(rocks)
      ensures Header() == old(Header()).(gameTime := old(gameTime) + dt)
      ensures Records(warriors) == UpdateAll(old(Records(warriors)), dt)
      ensures forall r :: r in rocks ==> r.Record() == old(r.Record())
    {
      gameTime := gameTime + dt;
      UpdateWarriors(dt);
    }

    /** `Level2::Update`: the clock advances, everything moves, the rocks
        strike, spent rocks and dead warriors are dropped, then the level
        saves itself if it is due; what it saves is the pruned level. */
    method UpdateSecond(dt: real, fs: FileSystem, fc: FloatCodec, wpool: ObjectPool<Warrior>, rpool: ObjectPool<Rock>)
      requires stage == Second && Owns(wpool, rpool)
      modifies this, warriors, rocks, fs
      ensures Owns(wpool, rpool)
      ensures levelNumber == old(levelNumber) && background == old(background)
      ensures forall w :: w in warriors ==> w in old(warriors)
      ensures (Records(warriors), RockRecords(rocks)) == SecondFrame(old(Records(warriors)), old(RockRecords(rocks)), dt)
      ensures gameTime == old(gameTime) + dt
      ensures var due := old(gameTime) + dt >= AUTOSAVE_TIME && !old(autoSaved);
        && (!due ==> autoSaved == old(autoSaved) && fs.files == old(fs.files))
        && (due ==> autoSaved == (LEVEL2_FILE in fs.files))
        && (due && LEVEL2_FILE in fs.writable ==>
              fs.files == old(fs.files)[LEVEL2_FILE := EncodeLevel(fc, Second, Snapshot().(autoSaved := false))])
        && (due && LEVEL2_FILE !in fs.writable ==> fs.files == old(fs.files))
    {
      MoveSecond(dt, wpool, rpool);
      CheckAutoSaveSecond(fs, fc);
    }

    /** The moves of `Level2::Update` before its auto-save check. */
    method MoveSecond(dt: real, wpool: ObjectPool<Warrior>, rpool: ObjectPool<Rock>)
      requires stage == Second && Owns(wpool, rpool)
      modifies this, warriors, rocks
      ensures Owns(wpool, rpool) && Header() == old(Header()).(gameTime := old(gameTime) + dt)
      ensures forall w :: w in warriors ==> w in old(warriors)
      ensures (Records(warriors), RockRecords(rocks)) == SecondFrame(old(Records(warriors)), old(RockRecords(rocks)), dt)
    {
      ghost var ws, rs := Records(warriors), RockRecords(rocks);
      MoveWarriors(dt, wpool, rpool);
      assert RockRecords(rocks) == rs;
      AdvanceSecond(dt, wpool, rpool);
    }

    /** The second level's share of an update after the warriors moved:
        the rocks fall and strike, then the spent and the dead leave. */
    method AdvanceSecond(dt: real, wpool: ObjectPool<Warrior>, rpool: ObjectPool<Rock>)
      requires stage == Second && Owns(wpool, rpool)
      modifies this, warriors, rocks
      ensures Owns(wpool, rpool) && Header() == old(Header())
      ensures forall w :: w in warriors ==> w in old(warriors)
      ensures (Records(warriors), RockRecords(rocks)) ==
        Pruned(Collisions(old(Records(warriors)), FallAll(old(RockRecords(rocks)), dt)))
    {
      StrikeAll(dt);
      PruneBoth();
    }

    /** Spent rocks leave, then dead warriors. */
    method PruneBoth()
      requires Distinct(warriors) && Distinct(rocks)
      modifies this
      ensures Header() == old(Header()) && Distinct(warriors) && Distinct(rocks)
      ensures (forall w :: w in warriors ==> w in old(warriors)) && (forall r :: r in rocks ==> r in old(rocks))
      ensures (Records(warriors), RockRecords(rocks)) == Pruned((old(Records(warriors)), old(RockRecords(rocks))))
    {
      ghost var ws1, rs1 := Records(warriors), RockRecords(rocks);
      PruneRocks();
      ghost var rs2 := RockRecords(rocks);
      assert rs2 == Filter(ActiveMask(rs1), rs1);
      PruneWarriors();
      assert Records(warriors) == Filter(UndeadMask(ws1), ws1);
      assert RockRecords(rocks) == rs2;
    }

    /** The rocks fall, then strike. */
    method StrikeAll(dt: real)
      requires Distinct(warriors) && Distinct(rocks)
      modifies warriors, rocks
      ensures (Records(warriors), RockRecords(rocks)) ==
        Collisions(old(Records(warriors)), FallAll(old(RockRecords(rocks)), dt))
    {
      UpdateRocks(dt);
      CheckCollisions();
    }

    /** `Level1::CheckAutoSave`: once the clock reaches five seconds and
        the level has not been saved, it saves and reloads itself. */
    method CheckAutoSaveFirst(fs: FileSystem, fc: FloatCodec, wpool: ObjectPool<Warrior>, rpool: ObjectPool<Rock>,
                              tpool: ObjectPool<Texture>, files: map<Path, seq<byte>>)
      requires stage == First && Owns(wpool, rpool) && tpool.Sound() && Separate(wpool, rpool, tpool)
      modifies this, fs, wpool, wpool.available, rpool, rpool.available, tpool, tpool.available
      ensures Owns(wpool, rpool) && tpool.Sound()
      ensures levelNumber == old(levelNumber) && background == old(background) && rocks == old(rocks)
      ensures forall w :: w in warriors ==> w in old(warriors) || w !in old(wpool.outstanding)
      ensures !(old(gameTime) >= AUTOSAVE_TIME && !old(autoSaved)) ==>
        fs.files == old(fs.files) && warriors == old(warriors) && Snapshot() == old(Snapshot())
      ensures old(gameTime) >= AUTOSAVE_TIME && !old(autoSaved) ==>
        SavedAndReloaded(fs, fc, old(fs.files), old(Snapshot()), old(warriors))
    {
      if gameTime >= AUTOSAVE_TIME && !autoSaved {
        SaveAndReload(fs, fc, wpool, rpool, tpool, files);
      }
    }

    /** What the save-and-reload of the first level leaves behind, given
        the files and the level before it: the level was written to its
        file if that could be opened; it counts as saved exactly when the
        file exists; if the file exists, the warriors are replaced by
        new pool warriors holding what was read from it, and if it is
        missing nothing else changed; when the write
        succeeded from exactly representable values, the warriors and clock
        came back unchanged. */
    ghost predicate SavedAndReloaded(fs: FileSystem, fc: FloatCodec, files0: map<Path, seq<byte>>,
                                     before: LevelRecord, warriors0: seq<Warrior>)
      reads this, fs, warriors
      ensures SavedAndReloaded(fs, fc, files0, before, warriors0) && LEVEL1_FILE in fs.writable ==>
        autoSaved && LEVEL1_FILE in fs.files && fs.files[LEVEL1_FILE] == EncodeLevel(fc, First, before)
      ensures SavedAndReloaded(fs, fc, files0, before, warriors0) && LEVEL1_FILE !in files0 &&
              LEVEL1_FILE !in fs.writable ==>
        !autoSaved && warriors == warriors0 && gameTime == before.gameTime
    {
      && autoSaved == (LEVEL1_FILE in fs.files)
      && (LEVEL1_FILE in fs.writable ==> fs.files == files0[LEVEL1_FILE := EncodeLevel(fc, First, before)])
      && (LEVEL1_FILE !in fs.writable ==> fs.files == files0)
      && (LEVEL1_FILE !in fs.files ==>
            warriors == warriors0 && Records(warriors) == before.warriors && gameTime == before.gameTime)
      && (LEVEL1_FILE in fs.files && DecodeLevel(fc, First, fs.files[LEVEL1_FILE]).Some? ==>
            Records(warriors) == DecodeLevel(fc, First, fs.files[LEVEL1_FILE]).value.0.warriors &&
            gameTime == DecodeLevel(fc, First, fs.files[LEVEL1_FILE]).value.0.gameTime)
      && (LEVEL1_FILE in fs.writable && LevelCodec.Persistable(fc, First, before) ==>
            Records(warriors) == before.warriors && gameTime == before.gameTime)
    }

    /** The body of `Level1::CheckAutoSave` once it is due: save, then
        reload if the file opens. */
    method SaveAndReload(fs: FileSystem, fc: FloatCodec, wpool: ObjectPool<Warrior>, rpool: ObjectPool<Rock>,
                         tpool: ObjectPool<Texture>, files: map<Path, seq<byte>>)
      requires stage == First && !autoSaved && Owns(wpool, rpool) && tpool.Sound() && Separate(wpool, rpool, tpool)
      modifies this, fs, wpool, wpool.available, rpool, rpool.available, tpool, tpool.available
      ensures Owns(wpool, rpool) && tpool.Sound()
      ensures levelNumber == old(levelNumber) && background == old(background) && rocks == old(rocks)
      ensures forall w :: w in warriors ==> w in old(warriors) || w !in old(wpool.outstanding)
      ensures SavedAndReloaded(fs, fc, old(fs.files), old(Snapshot()), old(warriors))
    {
      ghost var snapshot := Snapshot();
      SaveToFile(LEVEL1_FILE, fs, fc);
      if LEVEL1_FILE in fs.files {
        Reload(fs, fc, wpool, rpool, tpool, files);
        if LEVEL1_FILE in fs.writable && LevelCodec.Persistable(fc, First, snapshot) {
          LevelRoundTrip(fc, First, snapshot, []);
          assert EncodeLevel(fc, First, snapshot) + [] == fs.files[LEVEL1_FILE];
        }
      } else {
        assert Snapshot() == snapshot;
      }
    }

    /** `Level2::CheckAutoSave`: once due, the level writes itself to its
        file and counts as saved if the file then opens; nothing is read
        back. */
    method CheckAutoSaveSecond(fs: FileSystem, fc: FloatCodec)
      requires stage == Second
      modifies this, fs
      ensures warriors == old(warriors) && rocks == old(rocks)
      ensures var due := old(gameTime) >= AUTOSAVE_TIME && !old(autoSaved);
        && (!due ==> Header() == old(Header()) && fs.files == old(fs.files))
        && (due ==> Header() == old(Header()).(autoSaved := LEVEL2_FILE in fs.files))
        && (due && LEVEL2_FILE in fs.writable ==>
              fs.files == old(fs.files)[LEVEL2_FILE := EncodeLevel(fc, Second, old(Snapshot()))])
        && (due && LEVEL2_FILE !in fs.writable ==> fs.files == old(fs.files))
    {
      if gameTime >= AUTOSAVE_TIME && !autoSaved {
        SaveToFile(LEVEL2_FILE, fs, fc);
        if LEVEL2_FILE in fs.files {
          autoSaved := true;
        }
      }
    }

    /** The reload of `Level1::CheckAutoSave`: a new first level reads the
        file, and its warriors (new acquisitions from the pool) and clock
        replace this level's; the old warriors are not returned. */
    method Reload(fs: FileSystem, fc: FloatCodec, wpool: ObjectPool<Warrior>, rpool: ObjectPool<Rock>,
                  tpool: ObjectPool<Texture>, files: map<Path, seq<byte>>)
      requires stage == First && LEVEL1_FILE in fs.files
      requires Owns(wpool, rpool) && tpool.Sound() && Separate(wpool, rpool, tpool)
      modifies this, wpool, wpool.available, rpool, rpool.available, tpool, tpool.available
      ensures Owns(wpool, rpool) && tpool.Sound() && autoSaved
      ensures levelNumber == old(levelNumber) && background == old(background) && rocks == old(rocks)
      ensures forall w :: w in warriors ==> w !in old(wpool.outstanding)
      ensures DecodeLevel(fc, First, fs.files[LEVEL1_FILE]).Some? ==>
        Records(warriors) == DecodeLevel(fc, First, fs.files[LEVEL1_FILE]).value.0.warriors &&
        gameTime == DecodeLevel(fc, First, fs.files[LEVEL1_FILE]).value.0.gameTime
    {
      var ws, t := ReadBack(fs.files[LEVEL1_FILE], fc, wpool, rpool, tpool, files);
      warriors, gameTime, autoSaved := ws, t, true;
    }

    /** A new first level deserialised from `contents`: its warriors and
        its clock. */
    static method ReadBack(contents: seq<byte>, fc: FloatCodec, wpool: ObjectPool<Warrior>, rpool: ObjectPool<Rock>,
                           tpool: ObjectPool<Texture>, files: map<Path, seq<byte>>)
      returns (ws: seq<Warrior>, t: real)
      requires wpool.Sound() && rpool.Sound() && tpool.Sound() && Separate(wpool, rpool, tpool)
      modifies wpool, wpool.available, rpool, rpool.available, tpool, tpool.available
      ensures wpool.Sound() && rpool.Sound() && tpool.Sound()
      ensures Distinct(ws) && forall w :: w in ws ==> w in wpool.outstanding && w !in old(wpool.outstanding)
      ensures DecodeLevel(fc, First, contents).Some? ==>
        Records(ws) == DecodeLevel(fc, First, contents).value.0.warriors &&
        t == DecodeLevel(fc, First, contents).value.0.gameTime
    {
      var reloaded := new Level.Level1();
      var src := new InStream(contents);
      reloaded.Deserialize(src, fc, wpool, rpool, tpool, files);
      ws, t := reloaded.warriors, reloaded.gameTime;
    }

    /** Opens `name` for output and writes the level into it; if the file
        cannot be opened nothing is written. */
    method SaveToFile(name: Path, fs: FileSystem, fc: FloatCodec)
      modifies fs
      ensures name in fs.writable ==> fs.files == old(fs.files)[name := EncodeLevel(fc, stage, Snapshot())]
      ensures name !in fs.writable ==> fs.files == old(fs.files)
    {
      if name !in fs.writable {
        return;
      }
      var out := new OutStream();
      Serialize(out, fc);
      ghost var snapshot := Snapshot();
      var _ := fs.Save(name, out.bytes);
      assert Snapshot() == snapshot;
      assert out.bytes == EncodeLevel(fc, stage, snapshot);
    }

    /** `LoadFromFile(name, levelNumber)` builds no level, whether or not
        the file opens. */
    static method LoadFromFile(name: Path, levelNumber: int, fs: FileSystem) returns (l: Level?)
      ensures l == null
    {
      if name !in fs.files {
        return null;
      }
      return null;
    }
  }
}
