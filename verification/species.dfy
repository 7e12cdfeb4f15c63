/**
 * `Species<T>` of `graph_walker`: one value per species (red, blue).
 * The source instantiates `T` with `f32`; here `T` is `int`, so the
 * arithmetic is exact.
 */
module SpeciesPair {

  datatype Species = Species(red: int, blue: int)

  /** `Species::new`: both components stored as given. */
  function New(red: int, blue: int): (p: Species)
    ensures p.red == red && p.blue == blue
  {
    Species(red, blue)
  }

  /** `set_red`: replaces red, keeps blue. */
  function SetRed(p: Species, amount: int): (q: Species)
    ensures q.red == amount && q.blue == p.blue
  {
    p.(red := amount)
  }

  /** `set_blue`: replaces blue, keeps red. */
  function SetBlue(p: Species, amount: int): (q: Species)
    ensures q.blue == amount && q.red == p.red
  {
    p.(blue := amount)
  }

  /** `add_red`: red grows by `amount`, blue is untouched. */
  function AddRed(p: Species, amount: int): (q: Species)
    ensures q.red - p.red == amount && q.blue == p.blue
  {
    p.(red := p.red + amount)
  }

  /** `add_blue`: blue grows by `amount`, red is untouched. */
  function AddBlue(p: Species, amount: int): (q: Species)
    ensures q.blue - p.blue == amount && q.red == p.red
  {
    p.(blue := p.blue + amount)
  }

  /** `mult_all`: both components scaled by the same factor. */
  function MultAll(p: Species, amount: int): (q: Species)
    ensures q.red == amount * p.red && q.blue == amount * p.blue
  {
    Species(p.red * amount, p.blue * amount)
  }

  /** Setting the same value twice is the same as setting it once; the last set wins. */
  lemma SetIdempotent(p: Species, v: int, w: int)
    ensures SetRed(SetRed(p, v), v) == SetRed(p, v)
    ensures SetBlue(SetBlue(p, v), v) == SetBlue(p, v)
    ensures SetRed(SetRed(p, w), v) == SetRed(p, v)
    ensures SetBlue(SetBlue(p, w), v) == SetBlue(p, v)
  {
  }

  /** Additions accumulate, adding zero changes nothing, and the two species do not interfere. */
  lemma AddsAccumulate(p: Species, a: int, b: int)
    ensures AddRed(AddRed(p, a), b) == AddRed(p, a + b)
    ensures AddBlue(AddBlue(p, a), b) == AddBlue(p, a + b)
    ensures AddRed(p, 0) == p && AddBlue(p, 0) == p
    ensures AddRed(AddBlue(p, b), a) == AddBlue(AddRed(p, a), b)
  {
  }

  /** Scaling twice is scaling by the product; scaling by one changes nothing. */
  lemma MultComposes(p: Species, a: int, b: int)
    ensures MultAll(MultAll(p, a), b) == MultAll(p, a * b)
    ensures MultAll(p, 1) == p
  {
    assert p.red * a * b == p.red * (a * b);
    assert p.blue * a * b == p.blue * (a * b);
  }
}
