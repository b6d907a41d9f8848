/** `CellView`: the cells of a cell complex. Several cells may share one
    boundary; each boundary tuple maps to the records of its cells in
    insertion order. */
module Cells {
  import opened Results
  import opened Keys
  import opened Collections

  /** `_cells`: boundary tuple to the records of the cells with that
      boundary, in insertion order. The inner integer keys only fix that
      order and are not kept. */
  datatype CellView = CellView(cells: map<seq<Label>, seq<Attr>>)

  /** What `__getitem__` returns: one record unwrapped, or the list of all. */
  datatype Lookup = Single(record: Attr) | Many(records: seq<Attr>)

  /** The records a lookup carries, in order. */
  function Records(l: Lookup): seq<Attr> {
    match l
    case Single(a) => [a]
    case Many(rs) => rs
  }

  /** `__getitem__`. A cell object, tuple or list names a boundary; an absent
      boundary raises KeyError, and any other input raises TypeError. When
      exactly one cell has the boundary its record is returned unwrapped;
      otherwise the list of all records, in insertion order. `Collection`
      here stands for a tuple or list; Python raises TypeError for a set. */
  function GetItem(v: CellView, x: Item<seq<Label>>): (r: Result<Lookup>)
    ensures x.Atomic? ==> r == Err(TypeError)
    ensures !x.Atomic? ==> (r.Ok? <==> ToTuple(x) in v.cells)
    ensures !x.Atomic? && r.Err? ==> r.error == KeyError
    ensures r.Ok? ==> Records(r.value) == v.cells[ToTuple(x)]
    ensures r.Ok? ==> (r.value.Single? <==> |v.cells[ToTuple(x)]| == 1)
  {
    match x
    case Atomic(_) => Err(TypeError)
    case _ =>
      var t := ToTuple(x);
      if t !in v.cells then Err(KeyError)
      else if |v.cells[t]| == 1 then Ok(Single(v.cells[t][0]))
      else Ok(Many(v.cells[t]))
  }

  /** The cells of the view, each as (boundary, position among the cells
      with that boundary): what `__iter__` walks over. */
  ghost function Entries(C: map<seq<Label>, seq<Attr>>): set<(seq<Label>, nat)> {
    set t, i: nat | t in C && i < |C[t]| :: (t, i)
  }

  /** The positions of one boundary's cells. */
  ghost function Positions(t: seq<Label>, n: nat): set<(seq<Label>, nat)> {
    set i: nat | i < n :: (t, i)
  }

  lemma {:induction false} PositionsCard(t: seq<Label>, n: nat)
    ensures |Positions(t, n)| == n
  {
    if n > 0 {
      PositionsCard(t, n - 1);
      assert Positions(t, n) == Positions(t, n - 1) + {(t, n - 1)};
    }
  }

  lemma EntriesSplit(C: map<seq<Label>, seq<Attr>>, t: seq<Label>)
    requires t in C
    ensures |Entries(C)| == |C[t]| + |Entries(C - {t})|
  {
    var P := Positions(t, |C[t]|);
    forall e | e in Entries(C) ensures e in Entries(C - {t}) + P {
      if e.0 != t {
        assert e.0 in C - {t};
      }
    }
    assert Entries(C) == Entries(C - {t}) + P;
    assert Entries(C - {t}) * P == {};
    PositionsCard(t, |C[t]|);
  }

  /** `__len__`: `sum(len(cells[c]) for c in cells)`. It counts every cell,
      however many share a boundary. */
  ghost function LenOf(C: map<seq<Label>, seq<Attr>>): (n: nat)
    ensures n == |Entries(C)|
    decreases |C|
  {
    if C.Keys == {} then
      assert Entries(C) == {};
      0
    else
      var t := Pick(C.Keys);
      assert (C - {t}).Keys == C.Keys - {t};
      EntriesSplit(C, t);
      |C[t]| + LenOf(C - {t})
  }

  ghost function Len(v: CellView): nat {
    LenOf(v.cells)
  }

  /** `__len__` counts what `__getitem__` returns: the cells of a stored
      boundary are exactly the positions of the records retrieved for it, so
      `len(view)` is the total number of records over all boundaries. */
  lemma LenCountsRecords(v: CellView, t: seq<Label>)
    requires t in v.cells
    ensures Len(v) == |Entries(v.cells)|
    ensures forall i: nat :: (t, i) in Entries(v.cells) <==> i < |Records(GetItem(v, Collection(t)).value)|
  {
  }
}
