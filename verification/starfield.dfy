/**
 The starfield's particle budget. On every resize (and once at start-up)
 the field is rebuilt with a number of particles that grows with the
 viewport's area, one per 12000 square CSS pixels, but never above 160.
 */
module Starfield {

  const MaxParticles := 160
  const AreaPerParticle := 12000

  /** The particle count for a viewport of `innerWidth` by `innerHeight`
      CSS pixels: the largest count, at most the cap, whose share of area
      fits in the viewport. */
  function ParticleCount(innerWidth: nat, innerHeight: nat): (count: nat)
    ensures count <= MaxParticles
    ensures count * AreaPerParticle <= innerWidth * innerHeight
    ensures count == MaxParticles || innerWidth * innerHeight < (count + 1) * AreaPerParticle
  {
    var perArea := (innerWidth * innerHeight) / AreaPerParticle;
    if perArea < MaxParticles then perArea else MaxParticles
  }

  /** A larger viewport never gets fewer particles. */
  lemma ParticleCountMonotone(w1: nat, h1: nat, w2: nat, h2: nat)
    requires w1 * h1 <= w2 * h2
    ensures ParticleCount(w1, h1) <= ParticleCount(w2, h2)
  {
  }

  /** A viewport gets no particles exactly when its area is below one
      particle's share. */
  lemma NoParticlesIff(w: nat, h: nat)
    ensures ParticleCount(w, h) == 0 <==> w * h < AreaPerParticle
  {
  }

  /** The cap is reached exactly from 160 shares of area upwards. */
  lemma CapReachedIff(w: nat, h: nat)
    ensures ParticleCount(w, h) == MaxParticles <==> w * h >= MaxParticles * AreaPerParticle
  {
  }
}
