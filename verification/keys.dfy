/** Labels, attribute records, the ways a caller can name a cell, and the
    normalisation of those names into canonical keys. */
module Keys {

  /** A node label. Labels are opaque hashable values; `int` stands in for them. */
  type Label = int

  /** An attribute value. */
  datatype Value = IntVal(i: int) | StrVal(s: string)

  /** An attribute record: attribute name to value. The views only hand records back. */
  type Attr = map<string, Value>

  /** The ways a caller names a cell. Which Python collections `Collection`
      stands for depends on the view: a list or tuple for `CellView`,
      `PathView` and `ColoredHyperEdgeView`, a list or set for `NodeView`, and
      a list, tuple or set for `HyperEdgeView` and `SimplexView`. `E` is the element type of a cell object:
      `set<Label>` for hyperedges, simplices and nodes, `seq<Label>` for paths
      and cells. */
  datatype Item<E> =
    | Atomic(atom: Label)          // a bare hashable label
    | Collection(items: seq<Label>) // a list, tuple or set of labels, as each view admits
    | CellObj(elements: E)          // a HyperEdge, Simplex, Node, Path or Cell object

  /** The distinct labels of a collection: Python's `frozenset(items)`. */
  function Elements(xs: seq<Label>): (s: set<Label>)
    ensures forall l :: l in s <==> l in xs
    ensures s == {} <==> xs == []
  {
    if xs == [] then {} else assert xs[0] in xs; set l | l in xs
  }

  /** `HyperEdgeView._to_frozen_set`: the set-key an input names. */
  function ToFrozenSet(x: Item<set<Label>>): (k: set<Label>)
    ensures x.Atomic? ==> k == {x.atom}
    ensures x.CellObj? ==> k == x.elements
    ensures x.Collection? ==> forall l :: l in k <==> l in x.items
  {
    match x
    case CellObj(e) => e
    case Collection(xs) => Elements(xs)
    case Atomic(l) => {l}
  }

  /** The sequence-key an input names for the order-sensitive views:
      `tuple(path)`, a path's elements, or `(label,)`. */
  function ToTuple(x: Item<seq<Label>>): (t: seq<Label>)
    ensures x.Atomic? ==> t == [x.atom]
    ensures x.CellObj? ==> t == x.elements
    ensures x.Collection? ==> t == x.items
  {
    match x
    case CellObj(e) => e
    case Collection(xs) => xs
    case Atomic(l) => [l]
  }

  /** Normalisation ignores order and repetition: two collections with the
      same labels name the same set-key, whatever their order or duplicates. */
  lemma NormaliseIgnoresOrder(a: seq<Label>, b: seq<Label>)
    requires forall l :: l in a <==> l in b
    ensures ToFrozenSet(Collection(a)) == ToFrozenSet(Collection(b))
    ensures ToFrozenSet(Collection(a + b)) == ToFrozenSet(Collection(b + a))
    ensures ToFrozenSet(Collection(a + a)) == ToFrozenSet(Collection(a))
  {
    assert forall l :: l in Elements(a) <==> l in Elements(b);
    assert Elements(a) == Elements(b);
    assert Elements(a + b) == Elements(b + a);
    assert Elements(a + a) == Elements(a);
  }

  /** The three ways of naming one cell agree: a bare label, a one-element
      collection and a cell object holding that label give the same key; and
      normalising is idempotent: passing a key back in, as any iterable
      enumerating its labels, gives the same key. */
  lemma NormaliseShapesAgree(l: Label, k: set<Label>)
    ensures ToFrozenSet(Atomic(l)) == ToFrozenSet(Collection([l])) == ToFrozenSet(CellObj({l}))
    ensures forall ys :: (forall m :: m in ys <==> m in k) ==> ToFrozenSet(Collection(ys)) == k
  {
    forall ys | forall m :: m in ys <==> m in k
      ensures ToFrozenSet(Collection(ys)) == k
    {
      assert forall m :: m in Elements(ys) <==> m in k;
    }
  }

  /** Sequence-keys keep order: two distinct labels in either order name two
      different paths, while the set-keys of the same collections coincide. */
  lemma SequenceKeysKeepOrder(a: Label, b: Label)
    requires a != b
    ensures ToTuple(Collection([a, b])) != ToTuple(Collection([b, a]))
    ensures ToFrozenSet(Collection([a, b])) == ToFrozenSet(Collection([b, a]))
  {
    assert ToTuple(Collection([a, b]))[0] == a;
  }
}
