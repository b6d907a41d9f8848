/** `NodeView`: the rank-0 cells of a complex, keyed by singleton label sets.
    A colored view stores each node's records one level deeper, under
    multiplicity key 0, and unwraps that level on retrieval. */
module Nodes {
  import opened Results
  import opened Keys
  import opened Collections

  /** The value stored for a node: an attribute record, or (in a colored
      complex) a map from multiplicity key to record. */
  datatype NodeEntry = Record(attr: Attr) | Colored(byKey: map<int, Attr>)

  /** `nodes` (rank 0 of the owning complex's registry) and `colored_nodes`. */
  datatype NodeView = NodeView(nodes: map<set<Label>, NodeEntry>, colored: bool)

  /** The invariant of a colored complex: every node holds a record under
      multiplicity key 0. */
  ghost predicate WellColored(v: NodeView) {
    v.colored ==> forall k :: k in v.nodes ==> v.nodes[k].Colored? && 0 in v.nodes[k].byKey
  }

  /** `__contains__`. A bare label is a node when its singleton is stored; a
      cell object when its elements are; a list or set only when it holds
      exactly one item, whose singleton is stored (any other length gives
      Python's falsy `None`). A tuple is hashable, so Python treats it as a
      bare label rather than a collection; `Collection` here stands for a
      list or set only. */
  function Contains(v: NodeView, x: Item<set<Label>>): (r: bool)
    ensures x.Atomic? ==> (r <==> {x.atom} in v.nodes)
    ensures x.CellObj? ==> (r <==> x.elements in v.nodes)
    ensures x.Collection? ==> (r <==> |x.items| == 1 && {x.items[0]} in v.nodes)
  {
    match x
    case Atomic(l) => {l} in v.nodes
    case CellObj(e) => e in v.nodes
    case Collection(xs) =>
      assert |xs| == 1 ==> Elements(xs) == {xs[0]};
      |xs| == 1 && Elements(xs) in v.nodes
  }

  /** The colored unwrap `nodes[cell][0]`: a colored view hands back the
      record under multiplicity key 0 (KeyError when there is none); a plain
      view hands back the stored value as it is. */
  function Unwrap(v: NodeView, e: NodeEntry): (r: Result<NodeEntry>)
    ensures !v.colored ==> r == Ok(e)
    ensures v.colored ==> (r.Ok? <==> e.Colored? && 0 in e.byKey)
    ensures v.colored && r.Ok? ==> r.value == Record(e.byKey[0])
    ensures r.Err? ==> r.error == KeyError
  {
    if !v.colored then Ok(e)
    else match e
      case Colored(m) => if 0 in m then Ok(Record(m[0])) else Err(KeyError)
      case Record(_) => Err(KeyError)
  }

  /** `__getitem__`. A cell object returns its stored value as it is, or
      nothing when absent. A list or set is normalised to a set: when stored,
      its value is unwrapped; when absent, KeyError. A bare label returns its
      node's unwrapped value when `__contains__` finds it, and nothing
      otherwise. */
  function GetItem(v: NodeView, x: Item<set<Label>>): (r: Result<Option<NodeEntry>>)
    ensures x.CellObj? ==> r == (if x.elements in v.nodes then Ok(Some(v.nodes[x.elements])) else Ok(None))
    ensures x.Collection? ==>
              (ToFrozenSet(x) !in v.nodes ==> r == Err(KeyError))
              && (ToFrozenSet(x) in v.nodes ==> r.Ok? == Unwrap(v, v.nodes[ToFrozenSet(x)]).Ok?)
    ensures x.Atomic? ==> ({x.atom} !in v.nodes ==> r == Ok(None))
    ensures !x.CellObj? && r.Ok? && r.value.Some? ==>
              Ok(r.value.value) == Unwrap(v, v.nodes[ToFrozenSet(x)])
    ensures !x.CellObj? && ToFrozenSet(x) in v.nodes && Unwrap(v, v.nodes[ToFrozenSet(x)]).Ok? ==>
              r == Ok(Some(Unwrap(v, v.nodes[ToFrozenSet(x)]).value))
    ensures !x.CellObj? && ToFrozenSet(x) in v.nodes && Unwrap(v, v.nodes[ToFrozenSet(x)]).Err? ==>
              r == Err(KeyError)
    ensures x.Collection? ==> r != Ok(None)
    ensures r.Err? ==> r.error == KeyError
  {
    match x
    case CellObj(e) => if e in v.nodes then Ok(Some(v.nodes[e])) else Ok(None)
    case Collection(xs) =>
      var k := Elements(xs);
      if k in v.nodes then
        (match Unwrap(v, v.nodes[k])
         case Ok(u) => Ok(Some(u))
         case Err(err) => Err(err))
      else Err(KeyError)
    case Atomic(l) =>
      if Contains(v, x) then
        (match Unwrap(v, v.nodes[{l}])
         case Ok(u) => Ok(Some(u))
         case Err(err) => Err(err))
      else Ok(None)
  }

  /** Under the colored invariant, retrieval and membership agree for every
      name a caller can use: `__getitem__` returns a value exactly when
      `__contains__` is true (for lists and sets, those of one item), and a
      colored view returns the record stored under multiplicity key 0. */
  lemma GetItemIffContains(v: NodeView, x: Item<set<Label>>)
    requires WellColored(v)
    requires x.Collection? ==> |x.items| == 1
    ensures GetItem(v, x).Ok? && GetItem(v, x).value.Some? <==> Contains(v, x)
    ensures v.colored && !x.CellObj? && Contains(v, x) ==>
              GetItem(v, x) == Ok(Some(Record(v.nodes[ToFrozenSet(x)].byKey[0])))
  {
    if x.Collection? {
      assert Elements(x.items) == {x.items[0]};
    }
  }

  /** `__len__`: the number of stored nodes. */
  function Len(v: NodeView): nat {
    |v.nodes|
  }

  /** The labels of a set of keys. */
  ghost function LabelsOf(ks: set<set<Label>>): set<Label> {
    set k, l | k in ks && l in k :: l
  }

  lemma Singleton(k: set<Label>, l: Label)
    requires |k| == 1 && l in k
    ensures k == {l}
  {
    assert |k - {l}| == 0;
  }

  lemma {:induction false} SingletonLabels(ks: set<set<Label>>)
    requires forall k :: k in ks ==> |k| == 1
    ensures |LabelsOf(ks)| == |ks|
    decreases |ks|
  {
    if ks != {} {
      var k := Pick(ks);
      var rest := ks - {k};
      SingletonLabels(rest);
      var l := Pick(k);
      Singleton(k, l);
      forall k' | k' in rest ensures l !in k' {
        if l in k' {
          Singleton(k', l);
        }
      }
      assert LabelsOf(ks) == LabelsOf(rest) + {l};
    }
  }

  /** When every key is a singleton, as the owning complex keeps it,
      `__len__` counts the labels `__contains__` accepts: the labels of the
      stored keys are exactly the contained labels, and there are `len(view)`
      of them. */
  lemma LenCountsLabels(v: NodeView)
    requires forall k :: k in v.nodes ==> |k| == 1
    ensures forall l :: l in LabelsOf(v.nodes.Keys) <==> Contains(v, Atomic(l))
    ensures Len(v) == |LabelsOf(v.nodes.Keys)|
  {
    forall l | l in LabelsOf(v.nodes.Keys) ensures {l} in v.nodes {
      var k :| k in v.nodes && l in k;
      Singleton(k, l);
    }
    forall l | {l} in v.nodes ensures l in LabelsOf(v.nodes.Keys) {
      assert l in {l};
    }
    SingletonLabels(v.nodes.Keys);
    assert |v.nodes.Keys| == |v.nodes|;
  }
}
