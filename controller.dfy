/**
 * The application object: the current visual mode, latched from recognised
 * gestures, and the particle list, which persists across frames and which
 * only the particles effect updates. Each frame, the hand (if any) may change
 * the mode, then the mode selects the effect that renders the stylised half.
 */
module MirrorClone {
  import opened Imaging
  import opened Gesture
  import opened Particles
  import Dots
  import Lines
  import Ascii

  const DotsMode := 0
  const LinesMode := 1
  const AsciiMode := 2
  const ParticlesMode := 3

  /** What `process_frame` returns for the stylised half, as the drawing
      calls made on a black canvas (dots, glyphs, particles), the canvas
      itself (lines), or the input frame unchanged. */
  datatype Rendered =
    | DotsArt(circles: seq<Circle>)
    | LinesArt(canvas: array2<Color>)
    | AsciiArt(glyphs: seq<Ascii.Text>)
    | ParticleArt(circles: seq<Circle>)
    | PassThrough

  /** Every draw in the sequence is in the ranges of the random calls. */
  predicate ValidDraws(draws: seq<SpawnDraw>)
  {
    forall i :: 0 <= i < |draws| ==> ValidDraw(draws[i])
  }

  class MirrorCloneFX {
    var currentMode: int
    var particles: seq<Particle>

    /** The object invariant: a known mode and a well-formed particle list. */
    ghost predicate Valid()
      reads this
    {
      0 <= currentMode <= 3 && ParticlesValid(particles)
    }

    /** The state `__init__` sets up: the dots mode and no particles. */
    constructor ()
      ensures Valid()
      ensures currentMode == DotsMode && particles == []
    {
      currentMode := DotsMode;
      particles := [];
    }

    /** The mode latch of the frame loop: classify the hand and, when a
        gesture is recognised, switch to its mode. */
    method ObserveHand(landmarks: Option<seq<Landmark>>)
      requires Indexable(landmarks)
      modifies this
      ensures currentMode == Latch(old(currentMode), landmarks)
      ensures particles == old(particles)
      ensures old(Valid()) ==> Valid()
    {
      var gesture := DetectHandGesture(landmarks);
      if gesture.Some? {
        currentMode := gesture.value;
      }
    }

    /** `update_particles`: spawn near every other keypoint while under the
        cap, drop the spent particles, then move the rest one step. Each
        spawn takes the next entry of `draws`. */
    method UpdateParticles(width: nat, height: nat, landmarks: Option<seq<Landmark>>, draws: seq<SpawnDraw>)
      requires EnoughDraws(landmarks, draws)
      modifies this
      ensures particles == AfterUpdate(old(particles), width, height, landmarks, draws)
      ensures currentMode == old(currentMode)
      ensures old(ParticlesValid(particles)) && ValidDraws(draws) ==> ParticlesValid(particles)
    {
      ghost var before := particles;
      if HasHand(landmarks) {
        var lms := landmarks.value;
        var i: nat := 0;
        var k: nat := 0;
        while i < |lms|
          invariant currentMode == old(currentMode)
          invariant k + StrideCount(|lms|, i) <= |draws|
          invariant SpawnFrom(particles, lms, i, k, width, height, draws) == SpawnFrom(before, lms, 0, 0, width, height, draws)
          decreases |lms| - i
        {
          if |particles| < MaxParticles {
            var x := Trunc(lms[i].x * width as real);
            var y := Trunc(lms[i].y * height as real);
            var d := draws[k];
            var p := Particle((x + d.dx) as real, (y + d.dy) as real, d.vx, d.vy, InitialLife, d.color);
            particles := particles + [p];
            k := k + 1;
          }
          i := i + 2;
        }
      }
      assert particles == SpawnPhase(before, width, height, landmarks, draws);
      particles := Survivors(particles);
      ghost var alive := particles;
      var j := 0;
      while j < |particles|
        invariant currentMode == old(currentMode)
        invariant 0 <= j <= |particles| == |alive|
        invariant forall n :: 0 <= n < j ==> particles[n] == Integrate(alive[n])
        invariant forall n :: j <= n < |particles| ==> particles[n] == alive[n]
      {
        var p := particles[j];
        particles := particles[j := p.(x := p.x + p.vx, y := p.y + p.vy, life := p.life - 1, vy := p.vy + Gravity)];
        j := j + 1;
      }
      assert particles == Integrated(alive);
      if ParticlesValid(before) && ValidDraws(draws) {
        UpdateKeepsValid(before, width, height, landmarks, draws);
      }
    }

    /** `create_particles_effect`: update the system, then draw every
        particle inside the frame. */
    method CreateParticlesEffect(width: nat, height: nat, landmarks: Option<seq<Landmark>>, draws: seq<SpawnDraw>)
      returns (circles: seq<Circle>)
      requires EnoughDraws(landmarks, draws)
      modifies this
      ensures particles == AfterUpdate(old(particles), width, height, landmarks, draws)
      ensures currentMode == old(currentMode)
      ensures old(ParticlesValid(particles)) && ValidDraws(draws) ==> ParticlesValid(particles)
      ensures circles == ParticleCircles(particles, width, height)
    {
      UpdateParticles(width, height, landmarks, draws);
      circles := DrawParticles(particles, width, height);
    }

    /** `process_frame`: the effect of the current mode; an unknown mode
        returns the frame as it is. Only the particles effect changes state. */
    method ProcessFrame(frame: seq<seq<Color>>, gray: seq<seq<int>>, edges: seq<seq<int>>, h: nat, w: nat,
                        landmarks: Option<seq<Landmark>>, draws: seq<SpawnDraw>)
      returns (out: Rendered)
      requires IsFrame(frame, h, w) && IsGray(gray, h, w) && IsGray(edges, h, w)
      requires EnoughDraws(landmarks, draws)
      modifies this
      ensures currentMode == old(currentMode)
      ensures currentMode == DotsMode ==> out == DotsArt(Dots.Dots(frame, gray, h, w))
      ensures currentMode == LinesMode ==>
        out.LinesArt? && fresh(out.canvas) && out.canvas.Length0 == h && out.canvas.Length1 == w &&
        forall y, x :: 0 <= y < h && 0 <= x < w ==> out.canvas[y, x] == Lines.LinesPixel(frame, edges, h, w, y, x)
      ensures currentMode == AsciiMode ==> out == AsciiArt(Ascii.AsciiArt(gray, h, w))
      ensures currentMode == ParticlesMode ==>
        particles == AfterUpdate(old(particles), w, h, landmarks, draws) &&
        out == ParticleArt(ParticleCircles(particles, w, h))
      ensures currentMode != ParticlesMode ==> particles == old(particles)
      ensures out.PassThrough? <==> !(0 <= currentMode <= 3)
      ensures old(ParticlesValid(particles)) && ValidDraws(draws) ==> ParticlesValid(particles)
    {
      if currentMode == DotsMode {
        var circles := Dots.CreateDotsEffect(frame, gray, h, w);
        out := DotsArt(circles);
      } else if currentMode == LinesMode {
        var canvas := Lines.CreateLinesEffect(frame, edges, h, w);
        out := LinesArt(canvas);
      } else if currentMode == AsciiMode {
        var glyphs := Ascii.CreateAsciiEffect(gray, h, w);
        out := AsciiArt(glyphs);
      } else if currentMode == ParticlesMode {
        var circles := CreateParticlesEffect(w, h, landmarks, draws);
        out := ParticleArt(circles);
      } else {
        out := PassThrough;
      }
    }

    /** One pass of the frame loop after hand detection: latch the mode from
        the hand, then render with the mode just latched. The frame and the
        images derived from it are the camera frame after the hand skeleton
        has been drawn onto it. On a valid object fed valid draws the object
        stays valid and the frame is never passed through unstylised. */
    method HandleFrame(frame: seq<seq<Color>>, gray: seq<seq<int>>, edges: seq<seq<int>>, h: nat, w: nat,
                       landmarks: Option<seq<Landmark>>, draws: seq<SpawnDraw>)
      returns (out: Rendered)
      requires IsFrame(frame, h, w) && IsGray(gray, h, w) && IsGray(edges, h, w)
      requires Indexable(landmarks) && EnoughDraws(landmarks, draws)
      modifies this
      ensures currentMode == Latch(old(currentMode), landmarks)
      ensures currentMode == DotsMode ==> out == DotsArt(Dots.Dots(frame, gray, h, w))
      ensures currentMode == LinesMode ==>
        out.LinesArt? && fresh(out.canvas) && out.canvas.Length0 == h && out.canvas.Length1 == w &&
        forall y, x :: 0 <= y < h && 0 <= x < w ==> out.canvas[y, x] == Lines.LinesPixel(frame, edges, h, w, y, x)
      ensures currentMode == AsciiMode ==> out == AsciiArt(Ascii.AsciiArt(gray, h, w))
      ensures currentMode == ParticlesMode ==>
        particles == AfterUpdate(old(particles), w, h, landmarks, draws) &&
        out == ParticleArt(ParticleCircles(particles, w, h))
      ensures currentMode != ParticlesMode ==> particles == old(particles)
      ensures out.PassThrough? <==> !(0 <= currentMode <= 3)
      ensures old(Valid()) && ValidDraws(draws) ==> Valid() && !out.PassThrough?
    {
      ObserveHand(landmarks);
      out := ProcessFrame(frame, gray, edges, h, w, landmarks, draws);
    }
  }
}
