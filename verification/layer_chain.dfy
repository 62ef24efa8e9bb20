/** `TBanetteServiceChain`: layers are collected in order and `Build` wraps
    the base service with them, the first layer added ending up outermost.
    A layer's `Wrap` is abstract here: the wrapped service is recorded as the
    layer around its inner service. */
module LayerChain {

  datatype Service<L, B> = Base(base: B) | Wrapped(layer: L, inner: Service<L, B>)

  datatype Chain<L> = Chain(layers: seq<L>)

  /** `Layer`: appends and hands back the chain for further calls. */
  function AddLayer<L>(c: Chain<L>, l: L): (r: Chain<L>)
    ensures |r.layers| == |c.layers| + 1
    ensures r.layers[..|c.layers|] == c.layers && r.layers[|c.layers|] == l
  {
    Chain(c.layers + [l])
  }

  /** Reference for `Build`: `L0.Wrap(L1.Wrap(… Ln-1.Wrap(base)))`. */
  function Nest<L, B>(layers: seq<L>, s: Service<L, B>): (r: Service<L, B>)
    ensures |layers| == 0 ==> r == s
    ensures |layers| > 0 ==> r.Wrapped? && r.layer == layers[0]
  {
    if |layers| == 0 then s else Wrapped(layers[0], Nest(layers[1..], s))
  }

  /** `Build`: from the last layer to the first, each wraps the service built
      so far. The chain itself is left as it was. */
  method Build<L, B>(c: Chain<L>, base: Service<L, B>) returns (current: Service<L, B>)
    ensures current == Nest(c.layers, base)
  {
    current := base;
    var i := |c.layers|;
    assert c.layers[i..] == [];
    while i > 0
      invariant 0 <= i <= |c.layers|
      invariant current == Nest(c.layers[i..], base)
    {
      assert c.layers[i - 1..][1..] == c.layers[i..];
      current := Wrapped(c.layers[i - 1], current);
      i := i - 1;
    }
    assert c.layers[0..] == c.layers;
  }

  /** The layers of a service, outermost first. */
  function Stack<L, B>(s: Service<L, B>): (r: seq<L>)
  {
    match s
    case Base(_) => []
    case Wrapped(l, inner) => [l] + Stack(inner)
  }

  /** The service underneath every layer. */
  function Bottom<L, B>(s: Service<L, B>): (r: B)
  {
    match s
    case Base(b) => b
    case Wrapped(_, inner) => Bottom(inner)
  }

  /** Building over a bare base service gives back the layers, in the order
      they were added, around that base. */
  lemma {:induction false} StackOfNest<L, B>(layers: seq<L>, b: B)
    ensures Stack(Nest(layers, Base(b))) == layers
    ensures Bottom(Nest(layers, Base(b))) == b
  {
    if |layers| > 0 {
      StackOfNest(layers[1..], b);
    }
  }

  /** A layer added last sits directly around the base service. */
  lemma {:induction false} NestSnoc<L, B>(layers: seq<L>, l: L, s: Service<L, B>)
    ensures Nest(layers + [l], s) == Nest(layers, Wrapped(l, s))
  {
    if |layers| > 0 {
      assert (layers + [l])[1..] == layers[1..] + [l];
      NestSnoc(layers[1..], l, s);
    } else {
      assert layers + [l] == [l];
    }
  }

  /** Adding a layer to a chain and building equals building the old chain
      over the new layer wrapped around the base. */
  lemma AddLayerBuild<L, B>(c: Chain<L>, l: L, base: Service<L, B>)
    ensures Nest(AddLayer(c, l).layers, base) == Nest(c.layers, Wrapped(l, base))
  {
    NestSnoc(c.layers, l, base);
  }

  /** Two layers added in order: the first is outermost. */
  lemma TwoLayers<L, B>(a: L, b: L, base: B)
    ensures Nest(AddLayer(AddLayer(Chain([]), a), b).layers, Base(base)) == Wrapped(a, Wrapped(b, Base(base)))
  {
    var ls := AddLayer(AddLayer(Chain([]), a), b).layers;
    assert ls == [a, b] && ls[1..] == [b] && ls[1..][1..] == [];
  }
}
