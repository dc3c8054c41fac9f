/** The save-file layout of a level: a 13-byte header, the counted warrior
    records, and, for the second level only, the counted rock records. */
module LevelCodec {
  import opened Wire
  import opened Warriors
  import opened Rocks
  import Resources

  /** Which concrete level a `Level` object is. */
  datatype Stage = First | Second

  /** `SDL_Color`: four bytes, in memory order. */
  datatype Color = Color(r: byte, g: byte, b: byte, a: byte)

  const BLACK: Color := Color(0, 0, 0, 255)
  const GREY: Color := Color(128, 128, 128, 255)
  const GREEN: Color := Color(0, 128, 0, 255)

  const COLOR_SIZE: nat := 4
  /** The level number, the game time, the saved flag and the background. */
  const HEADER_SIZE: nat := INT_SIZE + FLOAT_SIZE + BOOL_SIZE + COLOR_SIZE

  /** The persisted state of a level; `rocks` is empty for the first. */
  datatype LevelRecord = LevelRecord(
    levelNumber: int, gameTime: real, autoSaved: bool, background: Color,
    warriors: seq<WarriorRecord>, rocks: seq<RockRecord>)

  function EncodeColor(c: Color): (b: seq<byte>)
    ensures |b| == COLOR_SIZE
  {
    [c.r, c.g, c.b, c.a]
  }

  function DecodeColor(b: seq<byte>): Color
    requires |b| == COLOR_SIZE
  {
    Color(b[0], b[1], b[2], b[3])
  }

  function WarriorEncoder(fc: FloatCodec): WarriorRecord -> seq<byte>
  {
    w => EncodeWarrior(fc, w)
  }

  function WarriorDecoder(fc: FloatCodec): seq<byte> -> Option<(WarriorRecord, seq<byte>)>
  {
    s => DecodeWarrior(fc, s)
  }

  function RockEncoder(fc: FloatCodec): RockRecord -> seq<byte>
  {
    r => EncodeRock(fc, r)
  }

  function RockDecoder(fc: FloatCodec): seq<byte> -> Option<(RockRecord, seq<byte>)>
  {
    s => DecodeRock(fc, s)
  }

  function EncodeHeader(fc: FloatCodec, l: LevelRecord): (b: seq<byte>)
    ensures |b| == HEADER_SIZE
  {
    EncodeInt32(l.levelNumber) + fc.bits(l.gameTime) + EncodeBool(l.autoSaved) + EncodeColor(l.background)
  }

  /** `Level::Serialize`, followed for the second level by the rock count
      and the rock records. */
  function EncodeLevel(fc: FloatCodec, stage: Stage, l: LevelRecord): (e: seq<byte>)
    ensures |e| == HEADER_SIZE + SIZE_T_SIZE + Warriors.RECORD_SIZE * |l.warriors| +
      (if stage == Second then SIZE_T_SIZE + Rocks.RECORD_SIZE * |l.rocks| else 0)
    ensures e[..HEADER_SIZE] == EncodeHeader(fc, l)
  {
    Resources.EncodeEachFixed(WarriorEncoder(fc), l.warriors, Warriors.RECORD_SIZE);
    Resources.EncodeEachFixed(RockEncoder(fc), l.rocks, Rocks.RECORD_SIZE);
    EncodeHeader(fc, l) + Resources.EncodeCounted(WarriorEncoder(fc), l.warriors) +
    (if stage == Second then Resources.EncodeCounted(RockEncoder(fc), l.rocks) else [])
  }

  /** The header fields as the reader sees them, and what follows. */
  function DecodeHeader(fc: FloatCodec, s: seq<byte>): (r: Option<(LevelRecord, seq<byte>)>)
    ensures r.Some? <==> |s| >= HEADER_SIZE
    ensures r.Some? ==> r.value.0.warriors == [] && r.value.0.rocks == [] && r.value.1 == s[HEADER_SIZE..]
  {
    if |s| < HEADER_SIZE then None
    else
      Some((LevelRecord(DecodeInt32(s[0..4]), fc.value(s[4..8]), DecodeBool(s[8..9]),
                        DecodeColor(s[9..13]), [], []), s[HEADER_SIZE..]))
  }

  /** Reads what `EncodeLevel` writes, in the same order. */
  function DecodeLevel(fc: FloatCodec, stage: Stage, s: seq<byte>): (r: Option<(LevelRecord, seq<byte>)>)
    ensures |s| < HEADER_SIZE + SIZE_T_SIZE ==> r.None?
    ensures r.Some? ==>
      DecodeHeader(fc, s).Some? &&
      r.value.0.(warriors := [], rocks := []) == DecodeHeader(fc, s).value.0
    ensures r.Some? && stage == First ==> r.value.0.rocks == []
  {
    match DecodeHeader(fc, s)
    case None => None
    case Some((h, s1)) =>
      match Resources.DecodeCounted(WarriorDecoder(fc), s1)
      case None => None
      case Some((ws, s2)) =>
        if stage == First then Some((h.(warriors := ws), s2))
        else
          match Resources.DecodeCounted(RockDecoder(fc), s2)
          case None => None
          case Some((rs, s3)) => Some((h.(warriors := ws, rocks := rs), s3))
  }

  /** Every field of the level survives the trip through its bytes. */
  predicate Persistable(fc: FloatCodec, stage: Stage, l: LevelRecord)
  {
    && InInt32(l.levelNumber) && Exact(fc, l.gameTime)
    && |l.warriors| < TWO_64 && |l.rocks| < TWO_64
    && (forall i :: 0 <= i < |l.warriors| ==> Warriors.Persistable(fc, l.warriors[i]))
    && (forall j :: 0 <= j < |l.rocks| ==> Rocks.Persistable(fc, l.rocks[j]))
    && (stage == First ==> l.rocks == [])
  }

  lemma HeaderRoundTrip(fc: FloatCodec, l: LevelRecord, rest: seq<byte>)
    requires InInt32(l.levelNumber) && Exact(fc, l.gameTime)
    ensures DecodeHeader(fc, EncodeHeader(fc, l) + rest) ==
      Some((l.(warriors := [], rocks := []), rest))
  {
    var s := EncodeHeader(fc, l) + rest;
    assert s[0..4] == EncodeInt32(l.levelNumber);
    assert s[4..8] == fc.bits(l.gameTime);
    assert s[8..9] == EncodeBool(l.autoSaved);
    assert s[9..13] == EncodeColor(l.background);
    assert s[HEADER_SIZE..] == rest;
    Int32RoundTrip(l.levelNumber);
  }

  /** Reading a saved level gives back its header, its warriors and (for
      the second level) its rocks, in order, and consumes exactly the save. */
  lemma LevelRoundTrip(fc: FloatCodec, stage: Stage, l: LevelRecord, rest: seq<byte>)
    requires Persistable(fc, stage, l)
    ensures DecodeLevel(fc, stage, EncodeLevel(fc, stage, l) + rest) == Some((l, rest))
  {
    var rocks := if stage == Second then Resources.EncodeCounted(RockEncoder(fc), l.rocks) else [];
    var s2 := rocks + rest;
    var s1 := Resources.EncodeCounted(WarriorEncoder(fc), l.warriors) + s2;
    assert EncodeLevel(fc, stage, l) + rest == EncodeHeader(fc, l) + s1;
    HeaderRoundTrip(fc, l, s1);
    forall i, r | 0 <= i < |l.warriors|
      ensures WarriorDecoder(fc)(WarriorEncoder(fc)(l.warriors[i]) + r) == Some((l.warriors[i], r))
    {
      WarriorRoundTrip(fc, l.warriors[i], r);
    }
    Resources.CountedRoundTrip(WarriorEncoder(fc), WarriorDecoder(fc), l.warriors, s2);
    if stage == Second {
      forall j, r | 0 <= j < |l.rocks|
        ensures RockDecoder(fc)(RockEncoder(fc)(l.rocks[j]) + r) == Some((l.rocks[j], r))
      {
        RockRoundTrip(fc, l.rocks[j], r);
      }
      Resources.CountedRoundTrip(RockEncoder(fc), RockDecoder(fc), l.rocks, rest);
    } else {
      assert s2 == rest;
    }
  }
}
