/**
 Powers of the 1024th root of unity that turns clockwise, to twelve decimals, and how far the sine table of
 ExtLibs/FFT/fft.c:44-141 is from them.
 */
module FftRootTable {
  import opened FftSchedule
  import opened Sinewave
  import opened FftFixed
  import opened Complex
  import opened FftBounds

  /** Selects one of eight numbers. */
  function Pick8(c: int, a0: real, a1: real, a2: real, a3: real, a4: real, a5: real, a6: real, a7: real): real {
    if c < 4 then
      if c < 2 then if c < 1 then a0 else a1 else if c < 3 then a2 else a3
    else
      if c < 6 then if c < 5 then a4 else a5 else if c < 7 then a6 else a7
  }

  /** Cosine of b/1024 of a turn, for b up to 32. */
  function FineRe(b: nat): real {
    if b < 8 then
      Pick8(b, 1.0, 0.999981175282, 0.999924701839, 0.999830581795,
            0.999698818696, 0.999529417501, 0.999322384588, 0.999077727752)
    else if b < 16 then
      Pick8(b - 8, 0.998795456205, 0.998475580573, 0.998118112900, 0.997723066644,
            0.997290456678, 0.996820299291, 0.996312612182, 0.995767414467)
    else if b < 24 then
      Pick8(b - 16, 0.995184726672, 0.994564570734, 0.993906970002, 0.993211949234,
            0.992479534598, 0.991709753669, 0.990902635427, 0.990058210262)
    else if b < 32 then
      Pick8(b - 24, 0.989176509964, 0.988257567730, 0.987301418157, 0.986308097244,
            0.985277642388, 0.984210092386, 0.983105487431, 0.981963869109)
    else 0.980785280403
  }

  /** Minus the sine. */
  function FineIm(b: nat): real {
    if b < 8 then
      Pick8(b, 0.0, -0.006135884649, -0.012271538285, -0.018406729905,
            -0.024541228522, -0.030674803176, -0.036807222941, -0.042938256934)
    else if b < 16 then
      Pick8(b - 8, -0.049067674327, -0.055195244349, -0.061320736302, -0.067443919563,
            -0.073564563599, -0.079682437971, -0.085797312344, -0.091908956497)
    else if b < 24 then
      Pick8(b - 16, -0.098017140329, -0.104121633872, -0.110222207293, -0.116318630911,
            -0.122410675199, -0.128498110793, -0.134580708507, -0.140658239332)
    else if b < 32 then
      Pick8(b - 24, -0.146730474455, -0.152797185258, -0.158858143333, -0.164913120489,
            -0.170961888760, -0.177004220412, -0.183039887955, -0.189068664149)
    else -0.195090322016
  }

  /** Cosine of b/32 of a turn, for b up to 8. */
  function CoarseRe(b: nat): real {
    if b < 8 then
      Pick8(b, 1.0, 0.980785280403, 0.923879532511, 0.831469612302,
            0.707106781186, 0.555570233019, 0.382683432365, 0.195090322016)
    else 0.0
  }

  /** Minus the sine. */
  function CoarseIm(b: nat): real {
    if b < 8 then
      Pick8(b, 0.0, -0.195090322016, -0.382683432365, -0.555570233019,
            -0.707106781186, -0.831469612302, -0.923879532511, -0.980785280403)
    else -1.0
  }

  function Fine(b: nat): C {
    Cx(FineRe(b), FineIm(b))
  }

  function Coarse(a: nat): C {
    Cx(CoarseRe(a), CoarseIm(a))
  }

  predicate Tiny(e: C) {
    -0.000000000005 <= e.re <= 0.000000000005 && -0.000000000005 <= e.im <= 0.000000000005
  }

  lemma FineStep(b: nat)
    requires b < 32
    ensures Tiny(Sub(Mul(Fine(1), Fine(b)), Fine(b + 1)))
  {
  }

  lemma CoarseStep(a: nat)
    requires a < 8
    ensures Tiny(Sub(Mul(Fine(32), Coarse(a)), Coarse(a + 1)))
  {
  }

  predicate InSquare(z: C) {
    -1.0 <= z.re <= 1.0 && -1.0 <= z.im <= 1.0
  }

  lemma FineInSquare(b: nat)
    ensures InSquare(Fine(b))
  {
  }

  lemma CoarseInSquare(a: nat)
    ensures InSquare(Coarse(a))
  {
  }

  // ----- the table

  /** n is 32767 x, truncated. */
  predicate Truncates(n: int, x: real) {
    -0.99 <= n as real - 32767.0 * x <= 0.01
  }

  /** n is -32767 x, truncated. */
  predicate TruncatesMinus(n: int, x: real) {
    -0.99 <= n as real + 32767.0 * x <= 0.01
  }

  /** The power 32a + b. */
  function Approx(a: nat, b: nat): C {
    Mul(Coarse(a), Fine(b))
  }

  /** Every entry of the first quarter wave is 32767 times the sine of its angle, truncated. */
  lemma SineTruncates(a: nat, b: nat)
    requires a < 8 && b < 32
    ensures TruncatesMinus(Quarter(32 * a + b), Approx(a, b).im)
  {
    match a
    case 0 =>
    case 1 =>
    case 2 =>
    case 3 =>
    case 4 =>
    case 5 =>
    case 6 =>
    case _ =>
  }

  /** Read backwards, it holds the cosines. */
  lemma CosineTruncates(a: nat, b: nat)
    requires a < 8 && b < 32
    ensures Truncates(Quarter(256 - (32 * a + b)), Approx(a, b).re)
  {
    match a
    case 0 =>
    case 1 =>
    case 2 =>
    case 3 =>
    case 4 =>
    case 5 =>
    case 6 =>
    case _ =>
  }
}
