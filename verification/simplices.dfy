/** `SimplexView`: the simplices of a simplicial complex, one layer per
    dimension; a simplex is keyed by the set of its vertices and its
    dimension is one less than that set's size. */
module Simplices {
  import opened Results
  import opened Keys
  import Graded

  /** `faces_dict` (layer `i` holds the simplices of dimension `i`) and
      `max_dim`. */
  datatype SimplexView = SimplexView(faces: seq<map<set<Label>, Attr>>, maxDim: int)

  /** The owning complex keeps one layer per dimension up to `max_dim`. */
  predicate Sized(v: SimplexView) {
    |v.faces| == v.maxDim + 1
  }

  /** Every simplex sits in the layer of its dimension. */
  ghost predicate WellGraded(v: SimplexView) {
    forall i, k :: 0 <= i < |v.faces| && k in v.faces[i] ==> |k| == i + 1
  }

  lemma GradedDisjoint(v: SimplexView)
    requires WellGraded(v)
    ensures Graded.Disjoint(v.faces)
  {
    forall i, j, k | 0 <= i < j < |v.faces| && k in v.faces[i] ensures k !in v.faces[j] {
      assert |k| == i + 1;
    }
  }

  /** `__contains__`. A collection or simplex object is normalised to its
      vertex set, which is looked up in the layer of its size when that size
      is between 1 and `max_dim + 1`, and is otherwise absent. A bare label is
      looked up as a singleton in layer 0, which raises IndexError on a view
      with no layers. */
  function Contains(v: SimplexView, x: Item<set<Label>>): (r: Result<bool>)
    requires Sized(v)
    ensures r.Err? <==> x.Atomic? && v.faces == []
    ensures r.Err? ==> r.error == IndexError
    ensures var k := ToFrozenSet(x);
            r.Ok? ==> (r.value <==> 0 < |k| <= |v.faces| && k in v.faces[|k| - 1])
  {
    match x
    case Atomic(l) => if |v.faces| == 0 then Err(IndexError) else Ok({l} in v.faces[0])
    case _ =>
      var k := ToFrozenSet(x);
      if !(0 < |k| <= v.maxDim + 1) then Ok(false) else Ok(k in v.faces[|k| - 1])
  }

  /** On a well-graded view membership means being stored: an answer of
      `__contains__` is true exactly when the normalised key is one of the
      keys iteration yields. */
  lemma ContainsIffStored(v: SimplexView, x: Item<set<Label>>)
    requires Sized(v) && WellGraded(v)
    ensures Contains(v, x).Ok? ==> (Contains(v, x).value <==> ToFrozenSet(x) in Graded.AllKeys(v.faces))
  {
    var k := ToFrozenSet(x);
    if k in Graded.AllKeys(v.faces) {
      var i :| 0 <= i < |v.faces| && k in v.faces[i];
      assert |k| == i + 1;
    }
  }

  /** Vertex order and repetition do not matter: two collections with the
      same vertices get the same answer. */
  lemma ContainsIgnoresOrder(v: SimplexView, a: seq<Label>, b: seq<Label>)
    requires Sized(v)
    requires forall l :: l in a <==> l in b
    ensures Contains(v, Collection(a)) == Contains(v, Collection(b))
  {
    NormaliseIgnoresOrder(a, b);
  }

  /** `__getitem__`. A simplex object or collection is looked up in layer
      `size - 1` (Python indexing: an empty key names the last layer, and a
      key longer than the number of layers raises IndexError). A stored key
      returns its record; an absent simplex object returns nothing, and an
      absent collection raises KeyError. A bare label returns the record of
      its singleton when `__contains__` finds it, and nothing otherwise. */
  function GetItem(v: SimplexView, x: Item<set<Label>>): (r: Result<Option<Attr>>)
    requires Sized(v)
    ensures x.Atomic? ==> r.Ok? && (r.value.Some? <==> v.faces != [] && {x.atom} in v.faces[0])
    ensures x.Atomic? && r.Ok? && r.value.Some? ==> r.value.value == v.faces[0][{x.atom}]
    ensures !x.Atomic? ==>
              (r == Err(IndexError) <==> |ToFrozenSet(x)| > |v.faces| || (ToFrozenSet(x) == {} && v.faces == []))
    ensures r == Err(KeyError) <==>
              x.Collection? && Graded.Slot(v.faces, |ToFrozenSet(x)|).Ok?
              && ToFrozenSet(x) !in Graded.Slot(v.faces, |ToFrozenSet(x)|).value
    ensures r.Ok? && r.value.Some? ==>
              exists i :: 0 <= i < |v.faces| && ToFrozenSet(x) in v.faces[i] && r.value.value == v.faces[i][ToFrozenSet(x)]
    ensures !x.Atomic? && Graded.Slot(v.faces, |ToFrozenSet(x)|).Ok? ==>
              var layer := Graded.Slot(v.faces, |ToFrozenSet(x)|).value;
              (ToFrozenSet(x) in layer ==> r == Ok(Some(layer[ToFrozenSet(x)])))
              && (x.CellObj? && ToFrozenSet(x) !in layer ==> r == Ok(None))
  {
    match x
    case Atomic(l) =>
      var c := Contains(v, Collection([l]));
      assert Elements([l]) == {l};
      if c == Ok(true) then Ok(Some(v.faces[0][{l}])) else Ok(None)
    case CellObj(e) =>
      (match Graded.Slot(v.faces, |e|)
       case Err(err) => Err(err)
       case Ok(layer) => if e in layer then Ok(Some(layer[e])) else Ok(None))
    case Collection(xs) =>
      var k := Elements(xs);
      match Graded.Slot(v.faces, |k|)
      case Err(err) => Err(err)
      case Ok(layer) => if k in layer then Ok(Some(layer[k])) else Err(KeyError)
  }

  /** On a well-graded view retrieval and membership agree: `__getitem__`
      returns a record exactly when `__contains__` answers true, and the record
      it returns is the one stored under the normalised key. */
  lemma GetItemIffContains(v: SimplexView, x: Item<set<Label>>)
    requires Sized(v) && WellGraded(v)
    ensures GetItem(v, x).Ok? && GetItem(v, x).value.Some? <==> Contains(v, x) == Ok(true)
    ensures forall i :: 0 <= i < |v.faces| && ToFrozenSet(x) in v.faces[i] ==>
              GetItem(v, x) == Ok(Some(v.faces[i][ToFrozenSet(x)]))
  {
    var k := ToFrozenSet(x);
    if k == {} && v.faces != [] {
      assert k !in v.faces[|v.faces| - 1];
    }
  }

  /** `shape` and `__len__` over a well-graded view: `__len__` is the sum of
      the per-dimension counts and equals the number of distinct simplices. */
  lemma LenCountsSimplices(v: SimplexView)
    requires WellGraded(v)
    ensures Graded.Len(v.faces) == |Graded.AllKeys(v.faces)|
    ensures forall i :: 0 <= i < |v.faces| ==> Graded.Shape(v.faces)[i] == |v.faces[i]|
  {
    GradedDisjoint(v);
    Graded.LenCountsKeys(v.faces);
  }
}
