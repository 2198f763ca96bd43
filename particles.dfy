/**
 * The particle system: spawning near hand keypoints under a population cap,
 * removal of spent particles, an Euler step with gravity, and the drawing of
 * the survivors as filled circles that shrink and fade with remaining life.
 */
module Particles {
  import opened Imaging
  import opened Gesture

  const MaxParticles := 200
  const InitialLife := 60
  const Gravity := 0.1
  const Jitter := 20

  /** One particle; position and velocity are exact reals. */
  datatype Particle = Particle(x: real, y: real, vx: real, vy: real, life: int, color: Color)

  /** The random numbers one spawn consumes: the position jitter, the
      velocity and the colour. They are drawn by the caller. */
  datatype SpawnDraw = SpawnDraw(dx: int, dy: int, vx: real, vy: real, color: Color)

  /** The ranges of Python's `randint(-20, 20)`, `uniform(-2, 2)` and `randint(100, 255)`. */
  predicate ValidDraw(d: SpawnDraw)
  {
    -Jitter <= d.dx <= Jitter && -Jitter <= d.dy <= Jitter &&
    -2.0 <= d.vx <= 2.0 && -2.0 <= d.vy <= 2.0 &&
    100 <= d.color.b <= 255 && 100 <= d.color.g <= 255 && 100 <= d.color.r <= 255
  }

  /** The invariant the system keeps: at most 200 particles, every life in
      0..59 and every colour in byte range. */
  predicate ParticlesValid(ps: seq<Particle>)
  {
    |ps| <= MaxParticles &&
    forall i :: 0 <= i < |ps| ==> 0 <= ps[i].life < InitialLife && IsByteColor(ps[i].color)
  }

  /** A spawned particle at the keypoint's pixel position, jittered. */
  function NewParticle(lm: Landmark, width: nat, height: nat, d: SpawnDraw): (p: Particle)
    ensures p.life == InitialLife && p.color == d.color && p.vx == d.vx && p.vy == d.vy
    ensures ValidDraw(d) ==>
      lm.x * width as real - Jitter as real - 1.0 < p.x < lm.x * width as real + Jitter as real + 1.0 &&
      lm.y * height as real - Jitter as real - 1.0 < p.y < lm.y * height as real + Jitter as real + 1.0
    ensures ValidDraw(d) && 0.0 <= lm.x && 0.0 <= lm.y ==> -(Jitter as real) <= p.x && -(Jitter as real) <= p.y
  {
    Particle((Trunc(lm.x * width as real) + d.dx) as real, (Trunc(lm.y * height as real) + d.dy) as real,
             d.vx, d.vy, InitialLife, d.color)
  }

  /** How many of the indices i, i + 2, i + 4, ... lie below n. */
  function StrideCount(n: nat, i: nat): nat
  {
    if i >= n then 0 else (n - i + 1) / 2
  }

  /** The spawn loop over `landmarks[::2]` from index i on; k counts the draws used so far. */
  function SpawnFrom(ps: seq<Particle>, lms: seq<Landmark>, i: nat, k: nat,
                     width: nat, height: nat, draws: seq<SpawnDraw>): seq<Particle>
    requires k + StrideCount(|lms|, i) <= |draws|
    decreases |lms| - i
  {
    if i >= |lms| then ps
    else if |ps| < MaxParticles then
      SpawnFrom(ps + [NewParticle(lms[i], width, height, draws[k])], lms, i + 2, k + 1, width, height, draws)
    else
      SpawnFrom(ps, lms, i + 2, k, width, height, draws)
  }

  /** Enough random draws for every keypoint the spawn loop visits. */
  predicate EnoughDraws(landmarks: Option<seq<Landmark>>, draws: seq<SpawnDraw>)
  {
    HasHand(landmarks) ==> StrideCount(|landmarks.value|, 0) <= |draws|
  }

  /** The spawn phase: only when a hand is present. */
  function SpawnPhase(ps: seq<Particle>, width: nat, height: nat,
                      landmarks: Option<seq<Landmark>>, draws: seq<SpawnDraw>): seq<Particle>
    requires EnoughDraws(landmarks, draws)
  {
    if HasHand(landmarks) then SpawnFrom(ps, landmarks.value, 0, 0, width, height, draws) else ps
  }

  /** The filter `[p for p in particles if p['life'] > 0]`. */
  function Survivors(ps: seq<Particle>): (r: seq<Particle>)
    ensures |r| <= |ps|
  {
    if ps == [] then [] else (if ps[0].life > 0 then [ps[0]] else []) + Survivors(ps[1..])
  }

  /** The filter keeps exactly the particles with positive life, and keeps
      the whole list when every life is positive. */
  lemma {:induction false} SurvivorsMembers(ps: seq<Particle>)
    ensures forall p :: p in Survivors(ps) ==> p in ps && p.life > 0
    ensures forall p :: p in ps && p.life > 0 ==> p in Survivors(ps)
    ensures (forall i :: 0 <= i < |ps| ==> ps[i].life > 0) ==> Survivors(ps) == ps
  {
    if ps != [] {
      SurvivorsMembers(ps[1..]);
      assert ps == [ps[0]] + ps[1..];
    }
  }

  /** One Euler step of the body of the update loop. */
  function Integrate(p: Particle): Particle
  {
    p.(x := p.x + p.vx, y := p.y + p.vy, life := p.life - 1, vy := p.vy + Gravity)
  }

  /** A particle that survives n consecutive updates. */
  function Steps(p: Particle, n: nat): Particle
  {
    if n == 0 then p else Integrate(Steps(p, n - 1))
  }

  /** The trajectory the step order gives: the position moves by the velocity
      before gravity is added, so after n steps x has moved n * vx and y has
      moved n * vy plus gravity times n(n - 1)/2 (not n(n + 1)/2), while vx,
      the colour and the loss of one life per step are exact. */
  lemma {:induction false} Trajectory(p: Particle, n: nat)
    ensures var q := Steps(p, n);
      q.x == p.x + n as real * p.vx &&
      q.y == p.y + n as real * p.vy + Gravity * (n as real * (n as real - 1.0) / 2.0) &&
      q.vx == p.vx && q.vy == p.vy + n as real * Gravity &&
      q.life == p.life - n && q.color == p.color
  {
    if n > 0 {
      Trajectory(p, n - 1);
      var m := (n - 1) as real;
      assert n as real == m + 1.0;
      assert m * (m - 1.0) / 2.0 + m == (m + 1.0) * m / 2.0;
    }
  }

  function Integrated(ps: seq<Particle>): seq<Particle>
  {
    seq(|ps|, i requires 0 <= i < |ps| => Integrate(ps[i]))
  }

  /** The whole of `update_particles`: spawn, then filter, then integrate. */
  function AfterUpdate(ps: seq<Particle>, width: nat, height: nat,
                       landmarks: Option<seq<Landmark>>, draws: seq<SpawnDraw>): seq<Particle>
    requires EnoughDraws(landmarks, draws)
  {
    Integrated(Survivors(SpawnPhase(ps, width, height, landmarks, draws)))
  }

  /** The spawn loop from index i on grows the list by one particle per
      visited keypoint until the cap is reached; what was there stays in front. */
  lemma {:induction false} SpawnFromLength(ps: seq<Particle>, lms: seq<Landmark>, i: nat, k: nat,
                                           width: nat, height: nat, draws: seq<SpawnDraw>)
    requires k + StrideCount(|lms|, i) <= |draws|
    ensures var r := SpawnFrom(ps, lms, i, k, width, height, draws);
      |r| == |ps| + Min(StrideCount(|lms|, i), Max(0, MaxParticles - |ps|)) && r[..|ps|] == ps
    decreases |lms| - i
  {
    if i < |lms| {
      if |ps| < MaxParticles {
        var q := ps + [NewParticle(lms[i], width, height, draws[k])];
        SpawnFromLength(q, lms, i + 2, k + 1, width, height, draws);
        var r := SpawnFrom(q, lms, i + 2, k + 1, width, height, draws);
        assert r[..|ps|] == r[..|q|][..|ps|];
      } else {
        SpawnFromLength(ps, lms, i + 2, k, width, height, draws);
      }
    }
  }

  /** The state of the spawn loop: from index i on, the j-th new particle
      comes from keypoint i + 2j and draw k + j. */
  lemma {:induction false} SpawnFromShape(ps: seq<Particle>, lms: seq<Landmark>, i: nat, k: nat,
                                          width: nat, height: nat, draws: seq<SpawnDraw>)
    requires k + StrideCount(|lms|, i) <= |draws|
    ensures var r := SpawnFrom(ps, lms, i, k, width, height, draws);
      var n := Min(StrideCount(|lms|, i), Max(0, MaxParticles - |ps|));
      |r| == |ps| + n && r[..|ps|] == ps &&
      forall j :: 0 <= j < n ==> r[|ps| + j] == NewParticle(lms[i + 2 * j], width, height, draws[k + j])
    decreases |lms| - i
  {
    SpawnFromLength(ps, lms, i, k, width, height, draws);
    if i < |lms| {
      if |ps| < MaxParticles {
        var p := NewParticle(lms[i], width, height, draws[k]);
        var q := ps + [p];
        SpawnFromShape(q, lms, i + 2, k + 1, width, height, draws);
        var r := SpawnFrom(ps, lms, i, k, width, height, draws);
        var n := Min(StrideCount(|lms|, i), Max(0, MaxParticles - |ps|));
        assert r[|ps|] == r[..|q|][|ps|] == p;
        forall j | 1 <= j < n ensures r[|ps| + j] == NewParticle(lms[i + 2 * j], width, height, draws[k + j]) {
          assert r[|q| + (j - 1)] == NewParticle(lms[i + 2 + 2 * (j - 1)], width, height, draws[k + 1 + (j - 1)]);
        }
      } else {
        SpawnFromShape(ps, lms, i + 2, k, width, height, draws);
      }
    }
  }

  /** The spawn phase adds exactly min(ceil(L/2), max(0, 200 - n)) particles for
      L keypoints and population n, all spawned with life 60, after the old ones;
      without a hand it adds nothing. */
  lemma SpawnCount(ps: seq<Particle>, width: nat, height: nat,
                   landmarks: Option<seq<Landmark>>, draws: seq<SpawnDraw>)
    requires EnoughDraws(landmarks, draws)
    ensures var r := SpawnPhase(ps, width, height, landmarks, draws);
      var n := if HasHand(landmarks) then Min(StrideCount(|landmarks.value|, 0), Max(0, MaxParticles - |ps|)) else 0;
      |r| == |ps| + n && r[..|ps|] == ps &&
      (forall j :: |ps| <= j < |r| ==> r[j].life == InitialLife)
  {
    if HasHand(landmarks) {
      var r := SpawnPhase(ps, width, height, landmarks, draws);
      SpawnFromShape(ps, landmarks.value, 0, 0, width, height, draws);
      forall j | |ps| <= j < |r| ensures r[j].life == InitialLife {
        assert r[|ps| + (j - |ps|)] == NewParticle(landmarks.value[2 * (j - |ps|)], width, height, draws[j - |ps|]);
      }
    }
  }

  /** A full hand of 21 keypoints spawns min(11, max(0, 200 - n)) particles. */
  lemma SpawnCountFullHand(ps: seq<Particle>, width: nat, height: nat,
                           lms: seq<Landmark>, draws: seq<SpawnDraw>)
    requires |lms| == 21 && 11 <= |draws|
    ensures |SpawnPhase(ps, width, height, Some(lms), draws)| == |ps| + Min(11, Max(0, MaxParticles - |ps|))
  {
    SpawnCount(ps, width, height, Some(lms), draws);
  }

  /** Each survivor is some particle of the input with positive life. */
  lemma SurvivorOrigin(ps: seq<Particle>, i: nat) returns (t: nat)
    requires i < |Survivors(ps)|
    ensures t < |ps| && ps[t] == Survivors(ps)[i] && ps[t].life > 0
  {
    SurvivorsMembers(ps);
    assert Survivors(ps)[i] in Survivors(ps);
    t :| t < |ps| && ps[t] == Survivors(ps)[i];
  }

  lemma {:induction false} SurvivorsAppend(a: seq<Particle>, b: seq<Particle>)
    ensures Survivors(a + b) == Survivors(a) + Survivors(b)
  {
    if a == [] {
      assert a + b == b;
    } else {
      assert (a + b)[1..] == a[1..] + b;
      SurvivorsAppend(a[1..], b);
    }
  }

  lemma IntegratedAppend(a: seq<Particle>, b: seq<Particle>)
    ensures Integrated(a + b) == Integrated(a) + Integrated(b)
  {
  }

  /** The phase order: spent particles are dropped before anything moves, so
      the old survivors come first, each one step on, followed by the particles
      spawned this frame, all aged to exactly 59. */
  lemma FreshParticlesAgeOnce(ps: seq<Particle>, width: nat, height: nat,
                              landmarks: Option<seq<Landmark>>, draws: seq<SpawnDraw>)
    requires EnoughDraws(landmarks, draws)
    ensures var r := AfterUpdate(ps, width, height, landmarks, draws);
      var m := |Survivors(ps)|;
      m <= |r| && r[..m] == Integrated(Survivors(ps)) &&
      forall j :: m <= j < |r| ==> r[j].life == InitialLife - 1
  {
    var s := SpawnPhase(ps, width, height, landmarks, draws);
    SpawnCount(ps, width, height, landmarks, draws);
    var spawned := s[|ps|..];
    assert s == ps + spawned;
    SurvivorsAppend(ps, spawned);
    assert forall i :: 0 <= i < |spawned| ==> spawned[i].life > 0 by {
      forall i | 0 <= i < |spawned| ensures spawned[i].life > 0 {
        assert spawned[i] == s[|ps| + i];
      }
    }
    SurvivorsMembers(spawned);
    IntegratedAppend(Survivors(ps), spawned);
    var r := AfterUpdate(ps, width, height, landmarks, draws);
    assert r == Integrated(Survivors(ps)) + Integrated(spawned);
    forall j | |Survivors(ps)| <= j < |r| ensures r[j].life == InitialLife - 1 {
      assert r[j] == Integrated(spawned)[j - |Survivors(ps)|];
    }
  }

  /** If the population is within 200 before an update it is within 200 after,
      and if no life exceeded 60, every life afterwards is in 0..59. */
  lemma UpdateBounds(ps: seq<Particle>, width: nat, height: nat,
                     landmarks: Option<seq<Landmark>>, draws: seq<SpawnDraw>)
    requires EnoughDraws(landmarks, draws)
    ensures |ps| <= MaxParticles ==> |AfterUpdate(ps, width, height, landmarks, draws)| <= MaxParticles
    ensures (forall i :: 0 <= i < |ps| ==> ps[i].life <= InitialLife) ==>
      var r := AfterUpdate(ps, width, height, landmarks, draws);
      forall i :: 0 <= i < |r| ==> 0 <= r[i].life < InitialLife
  {
    var s := SpawnPhase(ps, width, height, landmarks, draws);
    SpawnCount(ps, width, height, landmarks, draws);
    if forall i :: 0 <= i < |ps| ==> ps[i].life <= InitialLife {
      assert forall i :: 0 <= i < |s| ==> s[i].life <= InitialLife by {
        forall i | 0 <= i < |s| ensures s[i].life <= InitialLife {
          if i < |ps| { assert s[i] == s[..|ps|][i]; }
        }
      }
      var f := Survivors(s);
      forall i | 0 <= i < |f| ensures 0 < f[i].life <= InitialLife {
        var t := SurvivorOrigin(s, i);
      }
    }
  }

  /** The class invariant survives an update fed by valid random draws. */
  lemma UpdateKeepsValid(ps: seq<Particle>, width: nat, height: nat,
                         landmarks: Option<seq<Landmark>>, draws: seq<SpawnDraw>)
    requires EnoughDraws(landmarks, draws)
    requires forall i :: 0 <= i < |draws| ==> ValidDraw(draws[i])
    requires ParticlesValid(ps)
    ensures ParticlesValid(AfterUpdate(ps, width, height, landmarks, draws))
  {
    UpdateBounds(ps, width, height, landmarks, draws);
    var s := SpawnPhase(ps, width, height, landmarks, draws);
    SpawnCount(ps, width, height, landmarks, draws);
    if HasHand(landmarks) {
      SpawnFromShape(ps, landmarks.value, 0, 0, width, height, draws);
    }
    assert forall i :: 0 <= i < |s| ==> IsByteColor(s[i].color) by {
      forall i | 0 <= i < |s| ensures IsByteColor(s[i].color) {
        if i < |ps| {
          assert s[i] == s[..|ps|][i];
        } else {
          assert s[|ps| + (i - |ps|)] == NewParticle(landmarks.value[2 * (i - |ps|)], width, height, draws[i - |ps|]);
        }
      }
    }
    var f := Survivors(s);
    forall i | 0 <= i < |f| ensures IsByteColor(f[i].color) {
      var t := SurvivorOrigin(s, i);
    }
  }

  /** Repeated updates without a hand. */
  function Idle(ps: seq<Particle>, width: nat, height: nat, frames: nat): seq<Particle>
    decreases frames
  {
    if frames == 0 then ps else Idle(AfterUpdate(ps, width, height, None, []), width, height, frames - 1)
  }

  /** Every life in the list is at most m. */
  predicate LivesAtMost(ps: seq<Particle>, m: int)
  {
    forall i :: 0 <= i < |ps| ==> ps[i].life <= m
  }

  /** One idle update: lives that were at most m are now at most m - 1, and
      none is negative; when m is 0 the list is empty. */
  lemma IdleStep(ps: seq<Particle>, width: nat, height: nat, m: nat) returns (next: seq<Particle>)
    requires LivesAtMost(ps, m)
    ensures Idle(ps, width, height, m + 1) == Idle(next, width, height, m)
    ensures LivesAtMost(next, m - 1) && forall i :: 0 <= i < |next| ==> 0 <= next[i].life
    ensures m == 0 ==> next == []
  {
    var f := Survivors(ps);
    assert SpawnPhase(ps, width, height, None, []) == ps;
    next := Integrated(f);
    forall i | 0 <= i < |next| ensures 0 <= next[i].life <= m - 1 {
      var t := SurvivorOrigin(ps, i);
    }
    if m == 0 {
      NoneAliveNoSurvivors(ps);
    }
  }

  /** When no life is positive the filter leaves nothing. */
  lemma {:induction false} NoneAliveNoSurvivors(ps: seq<Particle>)
    requires LivesAtMost(ps, 0)
    ensures Survivors(ps) == []
  {
    if ps != [] {
      NoneAliveNoSurvivors(ps[1..]);
    }
  }

  /** Without a hand nothing is spawned and every life runs down: particles
      whose lives are at most m are all gone after m + 1 updates. */
  lemma {:induction false} IdleDrains(ps: seq<Particle>, width: nat, height: nat, m: nat)
    requires LivesAtMost(ps, m)
    ensures Idle(ps, width, height, m + 1) == []
    decreases m
  {
    var next := IdleStep(ps, width, height, m);
    if m > 0 {
      IdleDrains(next, width, height, m - 1);
    }
  }

  /** Whether the particle lies inside the frame and is drawn. */
  predicate InFrame(p: Particle, width: nat, height: nat)
  {
    0.0 <= p.x < width as real && 0.0 <= p.y < height as real
  }

  /** The circle drawn for a particle: centre truncated to pixels, radius and
      colour scaled by the life fraction life / 60. */
  function CircleOf(p: Particle): (c: Circle)
    ensures 0 <= p.life < InitialLife ==> 1 <= c.radius <= 3
    ensures p.life == 0 ==> c.radius == 1 && c.color == Black
    ensures 0 <= p.life <= InitialLife && IsByteColor(p.color) ==>
      IsByteColor(c.color) && c.color.b <= p.color.b && c.color.g <= p.color.g && c.color.r <= p.color.r
  {
    var alpha := p.life as real / 60.0;
    Circle(Trunc(p.x), Trunc(p.y), Max(1, Trunc(alpha * 4.0)),
           Color(FadeChannel(p.color.b, p.life), FadeChannel(p.color.g, p.life), FadeChannel(p.color.r, p.life)))
  }

  /** `int(c * alpha)` for one colour channel: 0 at life 0, and between 0
      and the channel itself while life is in 0..60. */
  function FadeChannel(c: int, life: int): (r: int)
    ensures life == 0 ==> r == 0
    ensures 0 <= life <= InitialLife && IsByte(c) ==> 0 <= r <= c
  {
    var alpha := life as real / 60.0;
    var v := c as real * alpha;
    assert life == 0 ==> v == 0.0;
    assert 0 <= life <= InitialLife && IsByte(c) ==> 0.0 <= v <= c as real by {
      if 0 <= life <= InitialLife && IsByte(c) {
        assert 0.0 <= alpha <= 1.0;
        NonNegativeProduct(c as real, alpha);
        NonNegativeProduct(c as real, 1.0 - alpha);
        assert c as real * (1.0 - alpha) == c as real - v;
      }
    }
    Trunc(v)
  }

  lemma NonNegativeProduct(a: real, b: real)
    requires 0.0 <= a && 0.0 <= b
    ensures 0.0 <= a * b
  {
  }

  /** The circles the drawing loop emits, in list order. */
  function ParticleCircles(ps: seq<Particle>, width: nat, height: nat): seq<Circle>
  {
    if ps == [] then []
    else ParticleCircles(ps[..|ps| - 1], width, height) +
         (if InFrame(ps[|ps| - 1], width, height) then [CircleOf(ps[|ps| - 1])] else [])
  }

  lemma {:induction false} ParticleCirclesSound(ps: seq<Particle>, width: nat, height: nat, c: Circle)
    requires c in ParticleCircles(ps, width, height)
    ensures exists i :: 0 <= i < |ps| && InFrame(ps[i], width, height) && c == CircleOf(ps[i])
  {
    var init := ps[..|ps| - 1];
    if c in ParticleCircles(init, width, height) {
      ParticleCirclesSound(init, width, height, c);
      var i :| 0 <= i < |init| && InFrame(init[i], width, height) && c == CircleOf(init[i]);
      assert ps[i] == init[i];
    } else {
      assert InFrame(ps[|ps| - 1], width, height) && c == CircleOf(ps[|ps| - 1]);
    }
  }

  lemma {:induction false} ParticleCirclesComplete(ps: seq<Particle>, width: nat, height: nat, i: nat)
    requires i < |ps| && InFrame(ps[i], width, height)
    ensures CircleOf(ps[i]) in ParticleCircles(ps, width, height)
  {
    var init := ps[..|ps| - 1];
    if i < |init| {
      assert init[i] == ps[i];
      ParticleCirclesComplete(init, width, height, i);
    }
  }

  lemma {:induction false} ParticleCirclesLength(ps: seq<Particle>, width: nat, height: nat)
    ensures |ParticleCircles(ps, width, height)| <= |ps|
  {
    if ps != [] {
      ParticleCirclesLength(ps[..|ps| - 1], width, height);
    }
  }

  /** A circle is drawn exactly for each particle inside the frame; its centre
      is a pixel of the frame. */
  lemma ParticleCirclesMembers(ps: seq<Particle>, width: nat, height: nat, c: Circle)
    ensures c in ParticleCircles(ps, width, height) <==>
      exists i :: 0 <= i < |ps| && InFrame(ps[i], width, height) && c == CircleOf(ps[i])
    ensures c in ParticleCircles(ps, width, height) ==> 0 <= c.cx < width && 0 <= c.cy < height
    ensures |ParticleCircles(ps, width, height)| <= |ps|
  {
    ParticleCirclesLength(ps, width, height);
    if c in ParticleCircles(ps, width, height) {
      ParticleCirclesSound(ps, width, height, c);
    }
    if exists i :: 0 <= i < |ps| && InFrame(ps[i], width, height) && c == CircleOf(ps[i]) {
      var i :| 0 <= i < |ps| && InFrame(ps[i], width, height) && c == CircleOf(ps[i]);
      ParticleCirclesComplete(ps, width, height, i);
    }
  }

  lemma ParticleCirclesPrefix(ps: seq<Particle>, width: nat, height: nat, i: nat)
    requires i < |ps|
    ensures ParticleCircles(ps[..i + 1], width, height) ==
      ParticleCircles(ps[..i], width, height) + (if InFrame(ps[i], width, height) then [CircleOf(ps[i])] else [])
  {
    assert ps[..i + 1][..i] == ps[..i] && ps[..i + 1][i] == ps[i];
  }

  /** The particle-drawing loop of the particles effect. */
  method DrawParticles(ps: seq<Particle>, width: nat, height: nat) returns (circles: seq<Circle>)
    ensures circles == ParticleCircles(ps, width, height)
  {
    circles := [];
    var i := 0;
    while i < |ps|
      invariant 0 <= i <= |ps|
      invariant circles == ParticleCircles(ps[..i], width, height)
    {
      var p := ps[i];
      if 0.0 <= p.x < width as real && 0.0 <= p.y < height as real {
        var alpha := p.life as real / 60.0;
        var radius := Max(1, Trunc(alpha * 4.0));
        var color := Color(FadeChannel(p.color.b, p.life), FadeChannel(p.color.g, p.life), FadeChannel(p.color.r, p.life));
        circles := circles + [Circle(Trunc(p.x), Trunc(p.y), radius, color)];
      }
      ParticleCirclesPrefix(ps, width, height, i);
      i := i + 1;
    }
    assert ps[..|ps|] == ps;
  }
}
