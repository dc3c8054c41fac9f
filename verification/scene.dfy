/** The rules of a scene, stated on entity records: spawning, collision
    between warriors and rocks, and pruning of spent entities. */
module Scenes {
  import opened Wire
  import opened Warriors
  import opened Rocks

  const SPAWN_COUNT: nat := 10
  const MIN_SPEED: real := 80.0
  const MAX_SPEED: real := 100.0

  /** The animation rate that goes with a walking or falling speed: 4.8
      frames per second at the slowest speed, 6.0 at the fastest. */
  function AnimSpeedFor(speed: real): (a: real)
    ensures MIN_SPEED <= speed <= MAX_SPEED ==> 4.8 <= a <= 6.0
    ensures speed == MIN_SPEED ==> a == 4.8
    ensures speed == MAX_SPEED ==> a == 6.0
  {
    4.8 + ((speed - 80.0) / 20.0) * 1.2
  }

  /** Warrior `i` of the first level: off screen to the left, in row `i`. */
  function SpawnedWarrior(i: nat, speed: real): WarriorRecord
  {
    WarriorRecord(-100.0, 10.0 + (i as real) * 100.0, speed, 1.8, AnimSpeedFor(speed), 0.0, 0, RUNNING)
  }

  /** Rock `i` of the second level: above the screen, in column `i`. */
  function SpawnedRock(i: nat, speed: real): RockRecord
  {
    RockRecord(50.0 + (i as real) * 100.0, -100.0, speed, 1.0, AnimSpeedFor(speed), 0.0, 0, true)
  }

  /** The first level's column: warrior `i` runs at `speeds[i]`. */
  function SpawnedWarriors(speeds: seq<real>): (r: seq<WarriorRecord>)
    ensures |r| == |speeds| && forall i :: 0 <= i < |speeds| ==> r[i] == SpawnedWarrior(i, speeds[i])
  {
    seq(|speeds|, i requires 0 <= i < |speeds| => SpawnedWarrior(i, speeds[i]))
  }

  /** The second level's row of rocks: rock `j` falls at `speeds[j]`. */
  function SpawnedRocks(speeds: seq<real>): (r: seq<RockRecord>)
    ensures |r| == |speeds| && forall j :: 0 <= j < |speeds| ==> r[j] == SpawnedRock(j, speeds[j])
  {
    seq(|speeds|, j requires 0 <= j < |speeds| => SpawnedRock(j, speeds[j]))
  }

  /** The warrior spawn constants: a spawned warrior runs and starts
      across the left edge, with part of its sprite already on screen. */
  lemma SpawnedWarriorInPlace(i: nat, speed: real)
    ensures SpawnedWarrior(i, speed).IsAlive() && !SpawnedWarrior(i, speed).IsOffScreen()
    ensures SpawnedWarrior(i, speed).x < 0.0 < SpawnedWarrior(i, speed).x + SpawnedWarrior(i, speed).Width()
  {
  }

  /** The rock spawn constants: a spawned rock is active, wholly above the
      screen and clear of the next column. */
  lemma SpawnedRockInPlace(i: nat, speed: real, speed': real)
    ensures SpawnedRock(i, speed).active && SpawnedRock(i, speed).y + SpawnedRock(i, speed).Height() < 0.0
    ensures SpawnedRock(i, speed).x + SpawnedRock(i, speed).Width() < SpawnedRock(i + 1, speed').x
  {
  }

  /** Two boxes collide only if they overlap on both axes; boxes that only
      share an edge do not. */
  predicate Overlap(w: WarriorRecord, r: RockRecord)
  {
    && w.x < r.x + r.Width() && w.x + w.Width() > r.x
    && w.y < r.y + r.Height() && w.y + w.Height() > r.y
  }

  lemma EdgeContactIsNoCollision(w: WarriorRecord, r: RockRecord)
    ensures w.x + w.Width() == r.x ==> !Overlap(w, r)
    ensures r.x + r.Width() == w.x ==> !Overlap(w, r)
    ensures w.y + w.Height() == r.y ==> !Overlap(w, r)
    ensures r.y + r.Height() == w.y ==> !Overlap(w, r)
  {
  }

  /** A point strictly inside a warrior's box. */
  predicate InWarriorBox(w: WarriorRecord, px: real, py: real)
  {
    w.x < px < w.x + w.Width() && w.y < py < w.y + w.Height()
  }

  /** A point strictly inside a rock's box. */
  predicate InRockBox(r: RockRecord, px: real, py: real)
  {
    r.x < px < r.x + r.Width() && r.y < py < r.y + r.Height()
  }

  /** For sprites of positive scale, the four comparisons hold exactly when
      the two boxes share a point. */
  lemma OverlapIsCommonPoint(w: WarriorRecord, r: RockRecord)
    requires w.scale > 0.0 && r.scale > 0.0
    ensures Overlap(w, r) <==> exists px, py :: InWarriorBox(w, px, py) && InRockBox(r, px, py)
  {
    if Overlap(w, r) {
      var left := if w.x < r.x then r.x else w.x;
      var right := if w.x + w.Width() < r.x + r.Width() then w.x + w.Width() else r.x + r.Width();
      var top := if w.y < r.y then r.y else w.y;
      var bottom := if w.y + w.Height() < r.y + r.Height() then w.y + w.Height() else r.y + r.Height();
      assert InWarriorBox(w, (left + right) / 2.0, (top + bottom) / 2.0);
      assert InRockBox(r, (left + right) / 2.0, (top + bottom) / 2.0);
    }
  }

  /** A rock can kill `w`: `w` is running and the boxes overlap. */
  predicate Strikes(w: WarriorRecord, r: RockRecord)
  {
    w.IsAlive() && Overlap(w, r)
  }

  /** The warrior `r` hits: the first, in list order, it can kill. */
  function FirstHit(ws: seq<WarriorRecord>, r: RockRecord): (k: Option<nat>)
    ensures k.Some? ==> k.value < |ws| && Strikes(ws[k.value], r)
    ensures k.Some? ==> forall j :: 0 <= j < k.value ==> !Strikes(ws[j], r)
    ensures k.None? ==> forall j :: 0 <= j < |ws| ==> !Strikes(ws[j], r)
    decreases |ws|
  {
    if ws == [] then None
    else if Strikes(ws[0], r) then Some(0)
    else
      match FirstHit(ws[1..], r)
      case None => None
      case Some(k) => Some(k + 1)
  }

  /** One rock's turn: an inactive rock is skipped; an active one kills the
      first warrior it can and is spent, or passes if there is none. */
  function Strike(ws: seq<WarriorRecord>, r: RockRecord): (res: (seq<WarriorRecord>, RockRecord))
    ensures !r.active ==> res == (ws, r)
    ensures res.1 == r.(active := res.1.active) && |res.0| == |ws|
    ensures r.active ==> (res.1.active <==> forall k :: 0 <= k < |ws| ==> !Strikes(ws[k], r))
    ensures res.1.active ==> res.0 == ws
    ensures r.active && !res.1.active ==>
      exists k :: 0 <= k < |ws| && Strikes(ws[k], r) && res.0 == ws[k := Killed(ws[k])]
  {
    if !r.active then (ws, r)
    else
      match FirstHit(ws, r)
      case None => (ws, r)
      case Some(k) => (ws[k := Killed(ws[k])], r.(active := false))
  }

  /** All rocks take their turns in list order, each seeing the kills of
      the rocks before it. */
  function Collisions(ws: seq<WarriorRecord>, rs: seq<RockRecord>)
    : (res: (seq<WarriorRecord>, seq<RockRecord>))
    ensures |res.0| == |ws| && |res.1| == |rs|
    decreases |rs|
  {
    if rs == [] then (ws, [])
    else
      var (ws1, rs1) := Collisions(ws, rs[..|rs| - 1]);
      var (ws2, r) := Strike(ws1, rs[|rs| - 1]);
      (ws2, rs1 + [r])
  }

  /** The rock turns of a prefix, then the next rock's turn. */
  lemma CollisionsSnoc(ws: seq<WarriorRecord>, rs: seq<RockRecord>, j: nat)
    requires j < |rs|
    ensures var (ws1, rs1) := Collisions(ws, rs[..j]);
      Collisions(ws, rs[..j + 1]) == (Strike(ws1, rs[j]).0, rs1 + [Strike(ws1, rs[j]).1])
  {
    assert rs[..j + 1][..j] == rs[..j];
  }

  function CountRunning(ws: seq<WarriorRecord>): nat
    decreases |ws|
  {
    if ws == [] then 0 else (if ws[0].IsAlive() then 1 else 0) + CountRunning(ws[1..])
  }

  function CountActive(rs: seq<RockRecord>): nat
    decreases |rs|
  {
    if rs == [] then 0 else CountActive(rs[..|rs| - 1]) + (if rs[|rs| - 1].active then 1 else 0)
  }

  lemma {:induction false} KillOneRunning(ws: seq<WarriorRecord>, k: nat)
    requires k < |ws| && ws[k].IsAlive()
    ensures CountRunning(ws[k := Killed(ws[k])]) + 1 == CountRunning(ws)
    decreases |ws|
  {
    var ws' := ws[k := Killed(ws[k])];
    if k == 0 {
      assert ws'[1..] == ws[1..];
    } else {
      assert ws'[1..] == ws[1..][k - 1 := Killed(ws[k])];
      KillOneRunning(ws[1..], k - 1);
    }
  }

  /** Every kill is paid for by exactly one rock: the warriors that stop
      running are as many as the rocks that become inactive. */
  lemma {:induction false} KillsMatchSpentRocks(ws: seq<WarriorRecord>, rs: seq<RockRecord>)
    ensures CountRunning(Collisions(ws, rs).0) + CountActive(rs) ==
            CountRunning(ws) + CountActive(Collisions(ws, rs).1)
    decreases |rs|
  {
    if rs != [] {
      var init, last := rs[..|rs| - 1], rs[|rs| - 1];
      KillsMatchSpentRocks(ws, init);
      var (ws1, rs1) := Collisions(ws, init);
      var (ws2, r) := Strike(ws1, last);
      assert Collisions(ws, rs) == (ws2, rs1 + [r]);
      assert (rs1 + [r])[..|rs1|] == rs1;
      if last.active && FirstHit(ws1, last).Some? {
        KillOneRunning(ws1, FirstHit(ws1, last).value);
      }
    }
  }

  /** Collisions only ever start a running warrior's death and spend an
      active rock; everything else is left as it was. */
  lemma {:induction false} CollisionsOnlyKill(ws: seq<WarriorRecord>, rs: seq<RockRecord>)
    ensures var (ws', rs') := Collisions(ws, rs);
      && (forall i :: 0 <= i < |ws| ==> ws'[i] == ws[i] || (ws[i].IsAlive() && ws'[i] == Killed(ws[i])))
      && (forall j :: 0 <= j < |rs| ==> rs'[j] == rs[j] || (rs[j].active && rs'[j] == rs[j].(active := false)))
    decreases |rs|
  {
    if rs != [] {
      var init, last := rs[..|rs| - 1], rs[|rs| - 1];
      CollisionsOnlyKill(ws, init);
      var (ws1, rs1) := Collisions(ws, init);
      var (ws2, r) := Strike(ws1, last);
      assert Collisions(ws, rs) == (ws2, rs1 + [r]);
      forall i | 0 <= i < |ws|
        ensures ws2[i] == ws[i] || (ws[i].IsAlive() && ws2[i] == Killed(ws[i]))
      {
        if ws2[i] != ws1[i] {
          assert ws1[i].IsAlive() && ws2[i] == Killed(ws1[i]);
          assert ws1[i] == ws[i];
        }
      }
    }
  }

  /** The elements of `xs` whose flag in `keep` is set, in their original
      order: what `erase(remove_if(...))` leaves. */
  function Filter<T>(keep: seq<bool>, xs: seq<T>): (r: seq<T>)
    requires |keep| == |xs|
    ensures |r| <= |xs|
    decreases |xs|
  {
    if xs == [] then []
    else Filter(keep[..|xs| - 1], xs[..|xs| - 1]) + (if keep[|xs| - 1] then [xs[|xs| - 1]] else [])
  }

  /** Filtering keeps exactly the flagged elements. */
  lemma {:induction false} FilterKeepsFlagged<T>(keep: seq<bool>, xs: seq<T>, x: T)
    requires |keep| == |xs|
    ensures x in Filter(keep, xs) <==> exists i :: 0 <= i < |xs| && keep[i] && xs[i] == x
    decreases |xs|
  {
    if xs != [] {
      var n := |xs| - 1;
      FilterKeepsFlagged(keep[..n], xs[..n], x);
      if x in Filter(keep, xs) && x !in Filter(keep[..n], xs[..n]) {
        assert keep[n] && xs[n] == x;
      }
      if exists i :: 0 <= i < |xs| && keep[i] && xs[i] == x {
        var i :| 0 <= i < |xs| && keep[i] && xs[i] == x;
        if i < n {
          assert keep[..n][i] && xs[..n][i] == x;
        }
      }
    }
  }

  /** Filtering works piecewise, so the survivors keep their relative
      order. */
  lemma {:induction false} FilterSplits<T>(k1: seq<bool>, a: seq<T>, k2: seq<bool>, b: seq<T>)
    requires |k1| == |a| && |k2| == |b|
    ensures Filter(k1 + k2, a + b) == Filter(k1, a) + Filter(k2, b)
    decreases |b|
  {
    if b == [] {
      assert k1 + k2 == k1 && a + b == a;
    } else {
      var n := |b| - 1;
      FilterSplits(k1, a, k2[..n], b[..n]);
      assert (k1 + k2)[..|a| + n] == k1 + k2[..n];
      assert (a + b)[..|a| + n] == a + b[..n];
    }
  }

  /** The rocks that survive pruning: the active ones. */
  function ActiveMask(rs: seq<RockRecord>): (m: seq<bool>)
    ensures |m| == |rs| && forall j :: 0 <= j < |rs| ==> m[j] == rs[j].active
  {
    seq(|rs|, j requires 0 <= j < |rs| => rs[j].active)
  }

  /** The warriors that survive pruning: all but the dead. A dying warrior
      stays until its animation is over. */
  function UndeadMask(ws: seq<WarriorRecord>): (m: seq<bool>)
    ensures |m| == |ws| && forall i :: 0 <= i < |ws| ==> m[i] == !ws[i].IsDead()
  {
    seq(|ws|, i requires 0 <= i < |ws| => !ws[i].IsDead())
  }

  /** Every warrior advanced by one frame of `dt` seconds. */
  function UpdateAll(ws: seq<WarriorRecord>, dt: real): (r: seq<WarriorRecord>)
    ensures |r| == |ws| && forall i :: 0 <= i < |ws| ==> r[i] == Updated(ws[i], dt)
  {
    seq(|ws|, i requires 0 <= i < |ws| => Updated(ws[i], dt))
  }

  /** Every rock advanced by one frame of `dt` seconds. */
  function FallAll(rs: seq<RockRecord>, dt: real): (r: seq<RockRecord>)
    ensures |r| == |rs| && forall j :: 0 <= j < |rs| ==> r[j] == Fallen(rs[j], dt)
  {
    seq(|rs|, j requires 0 <= j < |rs| => Fallen(rs[j], dt))
  }

  /** The second level ends when the lead warrior has left the screen or no
      warrior is running or dying any more (an empty list included). */
  predicate QuitCondition(ws: seq<WarriorRecord>)
    ensures (forall i :: 0 <= i < |ws| ==> ws[i].IsDead()) ==> QuitCondition(ws)
    ensures |ws| > 0 && ws[0].IsAlive() && !ws[0].IsOffScreen() ==> !QuitCondition(ws)
    ensures |ws| > 0 && ws[0].IsOffScreen() ==> QuitCondition(ws)
  {
    (|ws| > 0 && ws[0].IsOffScreen()) ||
    (forall i :: 0 <= i < |ws| ==> !ws[i].IsAlive() && !ws[i].IsDying())
  }

  /** One frame of the second level, before auto-saving: everything moves,
      the rocks strike, then spent rocks and dead warriors are dropped. */
  function SecondFrame(ws: seq<WarriorRecord>, rs: seq<RockRecord>, dt: real)
    : (r: (seq<WarriorRecord>, seq<RockRecord>))
    ensures |r.0| <= |ws| && |r.1| <= |rs|
    ensures forall w :: w in r.0 ==> !w.IsDead()
    ensures forall x :: x in r.1 ==> x.active
  {
    Pruned(Collisions(UpdateAll(ws, dt), FallAll(rs, dt)))
  }

  /** The lists with spent rocks and dead warriors dropped. */
  function Pruned(p: (seq<WarriorRecord>, seq<RockRecord>)): (r: (seq<WarriorRecord>, seq<RockRecord>))
    ensures |r.0| <= |p.0| && |r.1| <= |p.1|
    ensures forall w :: w in r.0 <==> w in p.0 && !w.IsDead()
    ensures forall x :: x in r.1 <==> x in p.1 && x.active
  {
    PruneKeepsLive(p.0, p.1);
    (Filter(UndeadMask(p.0), p.0), Filter(ActiveMask(p.1), p.1))
  }

  /** A pruned warrior list holds exactly the undead warriors, and a pruned
      rock list exactly the active rocks. */
  lemma PruneKeepsLive(ws: seq<WarriorRecord>, rs: seq<RockRecord>)
    ensures forall w :: w in Filter(UndeadMask(ws), ws) <==> w in ws && !w.IsDead()
    ensures forall x :: x in Filter(ActiveMask(rs), rs) <==> x in rs && x.active
  {
    forall w
      ensures w in Filter(UndeadMask(ws), ws) <==> w in ws && !w.IsDead()
    {
      FilterKeepsFlagged(UndeadMask(ws), ws, w);
    }
    forall x
      ensures x in Filter(ActiveMask(rs), rs) <==> x in rs && x.active
    {
      FilterKeepsFlagged(ActiveMask(rs), rs, x);
    }
  }

  /** After a frame of the second level every rock left is active and no
      warrior left is dead; a warrior or rock survives only if it was
      there before the prune. */
  lemma FrameKeepsOnlyLive(ws: seq<WarriorRecord>, rs: seq<RockRecord>, dt: real)
    ensures var (ws', rs') := SecondFrame(ws, rs, dt);
      && (forall w :: w in ws' ==> !w.IsDead() && w in Collisions(UpdateAll(ws, dt), FallAll(rs, dt)).0)
      && (forall r :: r in rs' ==> r.active && r in Collisions(UpdateAll(ws, dt), FallAll(rs, dt)).1)
  {
    var (ws2, rs2) := Collisions(UpdateAll(ws, dt), FallAll(rs, dt));
    forall w | w in Filter(UndeadMask(ws2), ws2)
      ensures !w.IsDead() && w in ws2
    {
      FilterKeepsFlagged(UndeadMask(ws2), ws2, w);
    }
    forall r | r in Filter(ActiveMask(rs2), rs2)
      ensures r.active && r in rs2
    {
      FilterKeepsFlagged(ActiveMask(rs2), rs2, r);
    }
  }
}
