/** The per-node link parameters and their random values (includes/wf_markov.h:7-45, includes/wf_markov.c:319-358). */
module WireValues {
  import opened Packets

  datatype Algorithm = Uniform | GaussNormal

  datatype WireValue = WireValue(value: real, plus: real, algorithm: Algorithm)

  const TAGS: nat := 9
  type Tag = t: nat | t < TAGS
  const DELAY: Tag := 0
  const DUP: Tag := 1
  const LOSS: Tag := 2
  const BURSTYLOSS: Tag := 3
  const MTU: Tag := 4
  const CHANBUFSIZE: Tag := 5
  const BANDWIDTH: Tag := 6
  const SPEED: Tag := 7

  /** Node-wide values, by tag and direction. */
  type MarkovNode = v: seq<PerDirection<WireValue>> | |v| == TAGS witness ZERO_VALUES

  const ZERO_VALUE := WireValue(0.0, 0.0, Uniform)

  /** What calloc gives a new node. */
  const ZERO_VALUES: seq<PerDirection<WireValue>> := seq(TAGS, _ => PerDirection(ZERO_VALUE, ZERO_VALUE))

  const SIGMA: real := 1.0 / 3.0

  /** The randomness of one `computeWireValue`: a drand48 result, or a standard normal sample. */
  datatype Draw = Draw(uniform: real, normal: real)

  function MaxWireValue(node: MarkovNode, tag: Tag, d: Direction): real {
    node[tag].Get(d).value + node[tag].Get(d).plus
  }

  function MinWireValue(node: MarkovNode, tag: Tag, d: Direction): real {
    node[tag].Get(d).value - node[tag].Get(d).plus
  }

  function ComputeWireValue(node: MarkovNode, tag: Tag, d: Direction, draw: Draw): real {
    var wv := node[tag].Get(d);
    if wv.plus == 0.0 then wv.value
    else match wv.algorithm
      case Uniform => wv.value + wv.plus * (draw.uniform * 2.0 - 1.0)
      case GaussNormal => wv.value + wv.plus * SIGMA * draw.normal
  }

  /** The value has a uniform variation, or none. */
  predicate VariesUniformly(node: MarkovNode, tag: Tag, d: Direction) {
    var wv := node[tag].Get(d);
    wv.plus >= 0.0 && (wv.plus == 0.0 || wv.algorithm == Uniform)
  }

  /** drand48 */
  predicate Drawn(draw: Draw) {
    0.0 <= draw.uniform < 1.0
  }

  /** Without a Gaussian variation the computed value lies between the minimum and the maximum. */
  lemma UniformStaysInRange(node: MarkovNode, tag: Tag, d: Direction, draw: Draw)
    requires Drawn(draw) && VariesUniformly(node, tag, d)
    ensures MinWireValue(node, tag, d) <= ComputeWireValue(node, tag, d, draw) <= MaxWireValue(node, tag, d)
  {
    var wv := node[tag].Get(d);
    var x := draw.uniform * 2.0 - 1.0;
    NonNegative(wv.plus, 1.0 - x);
    NonNegative(wv.plus, x + 1.0);
  }

  /** The draws map onto the whole range between minimum and maximum, linearly. */
  lemma UniformIsLinear(node: MarkovNode, tag: Tag, d: Direction, a: Draw, b: Draw)
    requires VariesUniformly(node, tag, d)
    ensures ComputeWireValue(node, tag, d, a) - ComputeWireValue(node, tag, d, b)
         == (MaxWireValue(node, tag, d) - MinWireValue(node, tag, d)) * (a.uniform - b.uniform)
  {
    var p := node[tag].Get(d).plus;
    assert p * (a.uniform * 2.0 - 1.0) - p * (b.uniform * 2.0 - 1.0) == (2.0 * p) * (a.uniform - b.uniform);
  }

  lemma UniformReachesRange(node: MarkovNode, tag: Tag, d: Direction, x: real) returns (draw: Draw)
    requires VariesUniformly(node, tag, d) && MinWireValue(node, tag, d) <= x < MaxWireValue(node, tag, d)
    ensures Drawn(draw) && ComputeWireValue(node, tag, d, draw) == x
  {
    var p, y := node[tag].Get(d).plus, x - MinWireValue(node, tag, d);
    assert 0.0 < p && 0.0 <= y < 2.0 * p;
    var u := y / (2.0 * p);
    assert u * (2.0 * p) == y;
    Fraction(u, 2.0 * p, y);
    draw := Draw(u, 0.0);
    assert p * (u * 2.0 - 1.0) == u * (2.0 * p) - p;
  }

  lemma Fraction(u: real, whole: real, part: real)
    requires u * whole == part && 0.0 <= part < whole
    ensures 0.0 <= u < 1.0
  {
    assert (1.0 - u) * whole == whole - part;
    SignOfFactor(1.0 - u, whole);
    if part > 0.0 {
      SignOfFactor(u, whole);
    } else {
      assert u == 0.0;
    }
  }

  lemma SignOfFactor(a: real, b: real)
    requires b > 0.0 && a * b > 0.0
    ensures a > 0.0
  {
  }

  /** A normal variation has its minimum and maximum three standard deviations from the value. */
  lemma GaussianScale(node: MarkovNode, tag: Tag, d: Direction, draw: Draw)
    requires node[tag].Get(d).algorithm == GaussNormal
    ensures ComputeWireValue(node, tag, d, draw) == node[tag].Get(d).value + node[tag].Get(d).plus * (draw.normal / 3.0)
    ensures draw.normal == 3.0 ==> ComputeWireValue(node, tag, d, draw) == MaxWireValue(node, tag, d)
    ensures draw.normal == -3.0 ==> ComputeWireValue(node, tag, d, draw) == MinWireValue(node, tag, d)
  {
    ComputedFromCell(node, tag, d, draw);
  }

  /** What a cell says: value + plus * x, with x uniform in [-1, 1), or normal with standard deviation 1/3. */
  function CellValue(wv: WireValue, draw: Draw): real {
    wv.value + wv.plus * (if wv.algorithm == Uniform then 2.0 * draw.uniform - 1.0 else draw.normal / 3.0)
  }

  lemma ConstantCell(wv: WireValue, draw: Draw)
    requires wv.plus == 0.0
    ensures CellValue(wv, draw) == wv.value
  {
  }

  lemma ComputedFromCell(node: MarkovNode, tag: Tag, d: Direction, draw: Draw)
    ensures ComputeWireValue(node, tag, d, draw) == CellValue(node[tag].Get(d), draw)
    ensures MaxWireValue(node, tag, d) == node[tag].Get(d).value + node[tag].Get(d).plus
    ensures MinWireValue(node, tag, d) == node[tag].Get(d).value - node[tag].Get(d).plus
  {
    var p, z := node[tag].Get(d).plus, draw.normal;
    assert p * (1.0 / 3.0) * z == p * (z / 3.0);
  }

  lemma NonNegative(a: real, b: real)
    requires a >= 0.0 && b >= 0.0
    ensures a * b >= 0.0
  {
  }
}
