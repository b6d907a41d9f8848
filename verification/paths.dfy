/** `PathView`: the paths of a path complex. It is `SimplexView` with
    sequence-keys: a path is keyed by the tuple of its vertices, so order
    matters, and its rank is one less than its length. */
module Paths {
  import opened Results
  import opened Keys
  import Graded

  /** `faces_dict` (layer `i` holds the paths of length `i + 1`) and `max_dim`. */
  datatype PathView = PathView(faces: seq<map<seq<Label>, Attr>>, maxDim: int)

  /** The owning complex keeps one layer per rank up to `max_dim`. */
  predicate Sized(v: PathView) {
    |v.faces| == v.maxDim + 1
  }

  /** Every path sits in the layer of its length. */
  ghost predicate WellGraded(v: PathView) {
    forall i, t :: 0 <= i < |v.faces| && t in v.faces[i] ==> |t| == i + 1
  }

  lemma GradedDisjoint(v: PathView)
    requires WellGraded(v)
    ensures Graded.Disjoint(v.faces)
  {
    forall i, j, t | 0 <= i < j < |v.faces| && t in v.faces[i] ensures t !in v.faces[j] {
      assert |t| == i + 1;
    }
  }

  /** `__contains__`. A sequence or path object is turned into its tuple,
      which is looked up in the layer of its length when that length is
      between 1 and `max_dim + 1`, and is otherwise absent. A bare label is
      looked up as the one-vertex path in layer 0, which raises IndexError on
      a view with no layers. */
  function Contains(v: PathView, x: Item<seq<Label>>): (r: Result<bool>)
    requires Sized(v)
    ensures r.Err? <==> x.Atomic? && v.faces == []
    ensures r.Err? ==> r.error == IndexError
    ensures var t := ToTuple(x);
            r.Ok? ==> (r.value <==> 0 < |t| <= |v.faces| && t in v.faces[|t| - 1])
  {
    match x
    case Atomic(l) => if |v.faces| == 0 then Err(IndexError) else Ok([l] in v.faces[0])
    case _ =>
      var t := ToTuple(x);
      if !(0 < |t| <= v.maxDim + 1) then Ok(false) else Ok(t in v.faces[|t| - 1])
  }

  /** On a well-graded view membership means being stored: an answer of
      `__contains__` is true exactly when the tuple is one of the keys
      iteration yields. */
  lemma ContainsIffStored(v: PathView, x: Item<seq<Label>>)
    requires Sized(v) && WellGraded(v)
    ensures Contains(v, x).Ok? ==> (Contains(v, x).value <==> ToTuple(x) in Graded.AllKeys(v.faces))
  {
    var t := ToTuple(x);
    if t in Graded.AllKeys(v.faces) {
      var i :| 0 <= i < |v.faces| && t in v.faces[i];
      assert |t| == i + 1;
    }
  }

  /** Order matters: with the path `(a, b)` stored and `(b, a)` not, the first
      is contained and the second is not, although both name the same set. */
  lemma ContainsKeepsOrder(v: PathView, a: Label, b: Label)
    requires Sized(v) && a != b
    requires |v.faces| >= 2 && [a, b] in v.faces[1] && [b, a] !in v.faces[1]
    ensures Contains(v, Collection([a, b])) == Ok(true)
    ensures Contains(v, Collection([b, a])) == Ok(false)
  {
  }

  /** `__getitem__`. A path object or sequence is looked up in layer
      `length - 1` (Python indexing: an empty path names the last layer, and a
      path longer than the number of layers raises IndexError); a stored path
      returns its record and an absent one raises KeyError. A bare label is
      looked up as the one-vertex path when `__contains__` finds it, and
      raises KeyError otherwise. */
  function GetItem(v: PathView, x: Item<seq<Label>>): (r: Result<Attr>)
    requires Sized(v)
    ensures x.Atomic? ==> (r.Ok? <==> v.faces != [] && [x.atom] in v.faces[0])
    ensures x.Atomic? && r.Err? ==> r.error == KeyError
    ensures !x.Atomic? ==>
              (r == Err(IndexError) <==> |ToTuple(x)| > |v.faces| || (ToTuple(x) == [] && v.faces == []))
    ensures !x.Atomic? ==>
              (r == Err(KeyError) <==> Graded.Slot(v.faces, |ToTuple(x)|).Ok?
                                        && ToTuple(x) !in Graded.Slot(v.faces, |ToTuple(x)|).value)
    ensures r.Ok? ==> exists i :: 0 <= i < |v.faces| && ToTuple(x) in v.faces[i] && r.value == v.faces[i][ToTuple(x)]
    ensures !x.Atomic? && Graded.Slot(v.faces, |ToTuple(x)|).Ok? && ToTuple(x) in Graded.Slot(v.faces, |ToTuple(x)|).value ==>
              r == Ok(Graded.Slot(v.faces, |ToTuple(x)|).value[ToTuple(x)])
    ensures x.Atomic? && r.Ok? ==> r.value == v.faces[0][[x.atom]]
    ensures r.Err? ==> r.error == IndexError || r.error == KeyError
  {
    match x
    case Atomic(l) =>
      if Contains(v, Collection([l])) == Ok(true) then Ok(v.faces[0][[l]]) else Err(KeyError)
    case _ =>
      var t := ToTuple(x);
      match Graded.Slot(v.faces, |t|)
      case Err(err) => Err(err)
      case Ok(layer) => if t in layer then Ok(layer[t]) else Err(KeyError)
  }

  /** On a well-graded view retrieval and membership agree: `__getitem__`
      returns a record exactly when `__contains__` answers true, and that
      record is the one stored under the tuple. */
  lemma GetItemIffContains(v: PathView, x: Item<seq<Label>>)
    requires Sized(v) && WellGraded(v)
    ensures GetItem(v, x).Ok? <==> Contains(v, x) == Ok(true)
    ensures forall i :: 0 <= i < |v.faces| && ToTuple(x) in v.faces[i] ==>
              GetItem(v, x) == Ok(v.faces[i][ToTuple(x)])
  {
    var t := ToTuple(x);
    if t == [] && v.faces != [] {
      assert t !in v.faces[|v.faces| - 1];
    }
  }

  /** `shape` and `__len__` over a well-graded view: `__len__` is the sum of
      the per-rank counts and equals the number of distinct paths. */
  lemma LenCountsPaths(v: PathView)
    requires WellGraded(v)
    ensures Graded.Len(v.faces) == |Graded.AllKeys(v.faces)|
    ensures forall i :: 0 <= i < |v.faces| ==> Graded.Shape(v.faces)[i] == |v.faces[i]|
  {
    GradedDisjoint(v);
    Graded.LenCountsKeys(v.faces);
  }
}
