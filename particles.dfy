/**
 * The particle background's sizing: the canvas takes its parent's size (or
 * the viewport's when the parent has none), and the batch size grows with the
 * canvas area, one particle per 15000 square pixels, capped at 60.
 */
module Particles {

  const MaxParticles: nat := 60
  const AreaPerParticle: nat := 15000

  /** `parent.offsetWidth || window.innerWidth` (and the same for the height). */
  function SurfaceSide(parent: nat, viewport: nat): (side: nat)
    ensures parent > 0 ==> side == parent
    ensures parent == 0 ==> side == viewport
  {
    if parent == 0 then viewport else parent
  }

  /** `Math.min(60, Math.floor((w * h) / 15000))` */
  function ParticleCount(w: nat, h: nat): (count: nat)
    ensures count <= MaxParticles
    // one particle for every whole 15000 square pixels ...
    ensures count * AreaPerParticle <= w * h
    // ... as many as fit, unless the cap is reached
    ensures count == MaxParticles || w * h < (count + 1) * AreaPerParticle
  {
    var byArea := (w * h) / AreaPerParticle;
    if byArea < MaxParticles then byArea else MaxParticles
  }

  /** A larger canvas never gets fewer particles. */
  lemma CountMonotonic(w: nat, h: nat, w': nat, h': nat)
    requires w <= w' && h <= h'
    ensures ParticleCount(w, h) <= ParticleCount(w', h')
  {
    assert w * h <= w' * h by {
      MulLe(w, w', h);
    }
    assert w' * h <= w' * h' by {
      MulLe(h, h', w');
    }
  }

  lemma MulLe(a: nat, b: nat, k: nat)
    requires a <= b
    ensures a * k <= b * k
  {
    if k > 0 {
      MulLe(a, b, k - 1);
      assert a * k == a * (k - 1) + a;
      assert b * k == b * (k - 1) + b;
    }
  }
}
