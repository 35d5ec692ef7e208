/**
 * A ship's projectile slots, as values: firing into the lowest free slot,
 * straight-line flight, and hit resolution against the opposing ship.
 */
module Shots {
  import opened Board

  /** One slot of a ship's projectile array (struct Projectile). */
  datatype Projectile = Projectile(x: int, y: int, dx: int, dy: int, active: bool)

  /** The slot InitProjectile writes: parked at (-1, -1), still, inactive. */
  const IDLE: Projectile := Projectile(-1, -1, 0, 0, false)

  /** Number of active slots. */
  function ActiveCount(shots: seq<Projectile>): (n: nat)
    ensures n <= |shots|
  {
    if shots == [] then 0
    else (if shots[0].active then 1 else 0) + ActiveCount(shots[1..])
  }

  /** The count is 0 exactly when no slot is active, and full exactly when all are. */
  lemma {:induction false} ActiveCountExtremes(shots: seq<Projectile>)
    ensures ActiveCount(shots) == 0 <==> forall k :: 0 <= k < |shots| ==> !shots[k].active
    ensures ActiveCount(shots) == |shots| <==> forall k :: 0 <= k < |shots| ==> shots[k].active
  {
    if shots != [] {
      ActiveCountExtremes(shots[1..]);
      assert forall k :: 1 <= k < |shots| ==> shots[k] == shots[1..][k - 1];
    }
  }

  lemma {:induction false} ActiveCountUpdate(shots: seq<Projectile>, i: nat, p: Projectile)
    requires i < |shots|
    ensures ActiveCount(shots[i := p])
         == ActiveCount(shots) - (if shots[i].active then 1 else 0) + (if p.active then 1 else 0)
  {
    if i == 0 {
      assert shots[i := p][1..] == shots[1..];
    } else {
      assert shots[i := p][1..] == shots[1..][i - 1 := p];
      ActiveCountUpdate(shots[1..], i - 1, p);
    }
  }

  /** Turning slots off, and nothing else, never raises the active count. */
  lemma {:induction false} ActiveCountMonotone(before: seq<Projectile>, after: seq<Projectile>)
    requires |after| == |before|
    requires forall k :: 0 <= k < |after| && after[k].active ==> before[k].active
    ensures ActiveCount(after) <= ActiveCount(before)
  {
    if before != [] {
      ActiveCountMonotone(before[1..], after[1..]);
    }
  }

  /**
   * Index of the lowest inactive slot, or |shots| when all are active:
   * where the firing loop stops.
   */
  function FirstFree(shots: seq<Projectile>): (i: nat)
    ensures i <= |shots|
    ensures forall k :: 0 <= k < i ==> shots[k].active
    ensures i < |shots| ==> !shots[i].active
  {
    if shots == [] || !shots[0].active then 0
    else 1 + FirstFree(shots[1..])
  }

  /** Direction of a new projectile: the ship's velocity, or straight up if it stands still. */
  function Aim(vx: int, vy: int): (d: (int, int))
    ensures d != (0, 0)
    ensures (vx, vy) != (0, 0) ==> d == (vx, vy)
    ensures (vx, vy) == (0, 0) ==> d == (0, -1)
  {
    if vx == 0 && vy == 0 then (0, -1) else (vx, vy)
  }

  /** The slots after a fire request by a ship at (x, y) moving with (vx, vy). */
  function Launch(shots: seq<Projectile>, x: int, y: int, vx: int, vy: int): (r: seq<Projectile>)
    ensures |r| == |shots|
  {
    var i := FirstFree(shots);
    if i == |shots| then shots
    else shots[i := Projectile(x, y, Aim(vx, vy).0, Aim(vx, vy).1, true)]
  }

  /**
   * With a free slot, firing activates exactly the lowest-index inactive
   * slot with the ship's position and aim, leaves every other slot alone and
   * raises the active count by one.
   */
  lemma LaunchFillsLowestFree(shots: seq<Projectile>, x: int, y: int, vx: int, vy: int)
    requires exists k :: 0 <= k < |shots| && !shots[k].active
    ensures var r := Launch(shots, x, y, vx, vy);
      exists i :: 0 <= i < |shots| && !shots[i].active
        && (forall k :: 0 <= k < i ==> shots[k].active)
        && r[i] == Projectile(x, y, Aim(vx, vy).0, Aim(vx, vy).1, true)
        && (forall k :: 0 <= k < |shots| && k != i ==> r[k] == shots[k])
    ensures ActiveCount(Launch(shots, x, y, vx, vy)) == ActiveCount(shots) + 1
  {
    var i := FirstFree(shots);
    var p := Projectile(x, y, Aim(vx, vy).0, Aim(vx, vy).1, true);
    assert i < |shots|;
    assert Launch(shots, x, y, vx, vy) == shots[i := p];
    ActiveCountUpdate(shots, i, p);
  }

  /** With all slots active the fire request is dropped. */
  lemma LaunchWhenFull(shots: seq<Projectile>, x: int, y: int, vx: int, vy: int)
    requires forall k :: 0 <= k < |shots| ==> shots[k].active
    ensures Launch(shots, x, y, vx, vy) == shots
    ensures ActiveCount(Launch(shots, x, y, vx, vy)) == ActiveCount(shots)
  {
  }

  /** Every active slot after firing was active before, or sits on the firing ship's cell. */
  lemma LaunchPlacement(shots: seq<Projectile>, x: int, y: int, vx: int, vy: int)
    ensures var r := Launch(shots, x, y, vx, vy);
      forall k :: 0 <= k < |r| && r[k].active ==> r[k] == shots[k] || (r[k].x == x && r[k].y == y)
  {
  }

  /** One frame of flight for a single slot. */
  function Advance(p: Projectile): (q: Projectile)
  {
    if !p.active then p
    else if Blocked(p.x + p.dx, p.y + p.dy) then p.(active := false)
    else p.(x := p.x + p.dx, y := p.y + p.dy)
  }

  /**
   * An inactive slot is untouched; an active one either moves by exactly
   * (dx, dy) onto an open cell or is switched off where it stands.
   */
  lemma AdvanceStep(p: Projectile)
    ensures !p.active ==> Advance(p) == p
    ensures p.active ==>
      (Advance(p) == p.(x := p.x + p.dx, y := p.y + p.dy) && !Blocked(Advance(p).x, Advance(p).y))
      || (Advance(p) == p.(active := false) && Blocked(p.x + p.dx, p.y + p.dy))
  {
  }

  /** One frame of flight for every slot of a ship. */
  function AdvanceAll(shots: seq<Projectile>): (r: seq<Projectile>)
    ensures |r| == |shots|
  {
    seq(|shots|, k requires 0 <= k < |shots| => Advance(shots[k]))
  }

  /**
   * Flight never activates a slot, keeps every active slot on an open cell
   * and never raises the active count.
   */
  lemma AdvanceAllKeepsOpen(shots: seq<Projectile>)
    ensures var r := AdvanceAll(shots);
      forall k :: 0 <= k < |r| && r[k].active ==> shots[k].active && !Blocked(r[k].x, r[k].y)
    ensures ActiveCount(AdvanceAll(shots)) <= ActiveCount(shots)
  {
    var r := AdvanceAll(shots);
    forall k | 0 <= k < |r| && r[k].active
      ensures shots[k].active && !Blocked(r[k].x, r[k].y)
    {
      AdvanceStep(shots[k]);
    }
    ActiveCountMonotone(shots, r);
  }

  /** An active projectile standing on the cell (tx, ty). */
  predicate Strikes(p: Projectile, tx: int, ty: int) {
    p.active && p.x == tx && p.y == ty
  }

  /** What remains after resolving one ship's projectiles against the other. */
  datatype Volley = Volley(shots: seq<Projectile>, hp: int, sunk: bool)

  /**
   * The hit loop of CheckHits from slot i on: the shooter's projectiles in
   * `shots` against a victim at (tx, ty) with `hp` points. A striking slot is
   * switched off and costs the victim one point; the loop stops (sunk) at the
   * first hit that leaves the victim at 0 or below.
   */
  function Resolve(shots: seq<Projectile>, i: nat, tx: int, ty: int, hp: int): Volley
    requires i <= |shots|
    decreases |shots| - i
  {
    if i == |shots| then Volley(shots, hp, false)
    else if Strikes(shots[i], tx, ty) then
      var off := shots[i := shots[i].(active := false)];
      if hp - 1 <= 0 then Volley(off, hp - 1, true)
      else Resolve(off, i + 1, tx, ty, hp - 1)
    else Resolve(shots, i + 1, tx, ty, hp)
  }

  /**
   * A hit loop from slot i on changes only slots that stood active on the
   * target's cell, and each of those only by switching it off.
   */
  lemma {:induction false} ResolvePairs(shots: seq<Projectile>, i: nat, tx: int, ty: int, hp: int)
    requires i <= |shots|
    decreases |shots| - i
    ensures var v := Resolve(shots, i, tx, ty, hp);
      |v.shots| == |shots|
      && forall k :: 0 <= k < |shots| ==>
           v.shots[k] == shots[k]
           || (i <= k && Strikes(shots[k], tx, ty) && v.shots[k] == shots[k].(active := false))
  {
    if i < |shots| {
      if Strikes(shots[i], tx, ty) {
        if hp - 1 > 0 {
          ResolvePairs(shots[i := shots[i].(active := false)], i + 1, tx, ty, hp - 1);
        }
      } else {
        ResolvePairs(shots, i + 1, tx, ty, hp);
      }
    }
  }

  /** The target loses exactly as many points as attacking slots were switched off. */
  lemma {:induction false} ResolveCount(shots: seq<Projectile>, i: nat, tx: int, ty: int, hp: int)
    requires i <= |shots|
    decreases |shots| - i
    ensures var v := Resolve(shots, i, tx, ty, hp);
      |v.shots| == |shots| && ActiveCount(shots) - ActiveCount(v.shots) == hp - v.hp
  {
    if i < |shots| {
      if Strikes(shots[i], tx, ty) {
        var off := shots[i := shots[i].(active := false)];
        ActiveCountUpdate(shots, i, shots[i].(active := false));
        if hp - 1 > 0 {
          ResolveCount(off, i + 1, tx, ty, hp - 1);
        }
      } else {
        ResolveCount(shots, i + 1, tx, ty, hp);
      }
    }
  }

  /**
   * The loop stops (sunk) at the first point that leaves the target at 0 or
   * below, so a target that had health left ends at exactly 0; when it does
   * not stop, the target either lost nothing or is still afloat, and no slot
   * from i on still stands on its cell.
   */
  lemma {:induction false} ResolveStops(shots: seq<Projectile>, i: nat, tx: int, ty: int, hp: int)
    requires i <= |shots|
    decreases |shots| - i
    ensures var v := Resolve(shots, i, tx, ty, hp);
      v.hp <= hp
      && (v.sunk ==> v.hp == (if hp > 0 then 0 else hp - 1))
      && (!v.sunk ==> v.hp == hp || v.hp > 0)
      && (!v.sunk ==> |v.shots| == |shots| && forall k :: i <= k < |shots| ==> !Strikes(v.shots[k], tx, ty))
  {
    if i < |shots| {
      if Strikes(shots[i], tx, ty) {
        var off := shots[i := shots[i].(active := false)];
        if hp - 1 > 0 {
          ResolveStops(off, i + 1, tx, ty, hp - 1);
          ResolvePairs(off, i + 1, tx, ty, hp - 1);
        }
      } else {
        ResolveStops(shots, i + 1, tx, ty, hp);
        ResolvePairs(shots, i + 1, tx, ty, hp);
      }
    }
  }
}
