/** Concrete views taken from the documented examples and the unit tests of
    the views, with the answers those examples expect. */
module Scenarios {
  import opened Results
  import opened Keys
  import opened Registry
  import HyperEdges
  import ColoredHyperEdges
  import Simplices
  import Cells
  import Collections

  function Weight(w: int): Attr {
    map["weight" := IntVal(w)]
  }

  /** The `__contains__` doctest of `SimplexView`: with the vertex 1 stored
      and `max_dim` 0, 1 is in the view and 2 is not; after adding the edge
      {1, 2} and raising `max_dim` to 1, {1, 2} is in the view while {1, 3}
      and the oversized {1, 2, 3} are not. */
  lemma SimplexContainsDoctest()
    ensures var v := Simplices.SimplexView([map[{1} := Weight(1)]], 0);
            Simplices.Contains(v, Atomic(1)) == Ok(true)
            && Simplices.Contains(v, Atomic(2)) == Ok(false)
    ensures var v := Simplices.SimplexView([map[{1} := Weight(1)], map[{1, 2} := Weight(1)]], 1);
            Simplices.Contains(v, Collection([1, 2])) == Ok(true)
            && Simplices.Contains(v, Collection([1, 3])) == Ok(false)
            && Simplices.Contains(v, Collection([1, 2, 3])) == Ok(false)
  {
    assert Elements([1, 2]) == {1, 2};
    assert Elements([1, 3]) == {1, 3};
    assert |Elements([1, 2, 3])| == 3 by {
      assert Elements([1, 2, 3]) == {1, 2, 3};
    }
  }

  function Color(c: string): Attr {
    map["color" := StrVal(c)]
  }

  /** The cell view of the unit test: three cells share the boundary
      (1, 2, 3, 4), with records red, green and square, and one cell has the
      boundary (2, 3, 4, 5). */
  function TestCells(): Cells.CellView {
    Cells.CellView(map[[1, 2, 3, 4] := [Color("red"), Color("green"), map["shape" := StrVal("square")]],
                       [2, 3, 4, 5] := [map[]]])
  }

  /** The `CellView.__getitem__` test: the shared boundary returns all three
      records in insertion order; the boundary (1, 2, 3, 8) raises KeyError
      whether named by a cell or by a tuple; a bare integer raises TypeError.
      The view holds four cells. */
  lemma CellGetItemTest()
    ensures Cells.GetItem(TestCells(), CellObj([1, 2, 3, 4]))
            == Ok(Cells.Many([Color("red"), Color("green"), map["shape" := StrVal("square")]]))
    ensures Cells.GetItem(TestCells(), CellObj([1, 2, 3, 8])) == Err(KeyError)
    ensures Cells.GetItem(TestCells(), Collection([1, 2, 3, 8])) == Err(KeyError)
    ensures Cells.GetItem(TestCells(), Atomic(1)) == Err(TypeError)
    ensures Cells.Len(TestCells()) == 4
  {
    var C := TestCells().cells;
    assert [1, 2, 3, 8] != [1, 2, 3, 4] && [1, 2, 3, 8] != [2, 3, 4, 5];
    var a: seq<Label> := [1, 2, 3, 4];
    var b: seq<Label> := [2, 3, 4, 5];
    assert a != b by { assert a[0] != b[0]; }
    assert Cells.Entries(C) == {(a, 0), (a, 1), (a, 2), (b, 0)};
  }

  /** A combinatorial complex with nodes 1 and 2 at rank 0 and the
      hyperedge {1, 2} at rank 1. */
  function SmallComplex(): HyperEdges.HyperEdgeView {
    HyperEdges.HyperEdgeView(map[0 := map[{1} := Weight(1), {2} := Weight(2)],
                                 1 := map[{1, 2} := Weight(3)]])
  }

  /** On that complex: the rank of [2, 1] is 1 and its record is found
      whatever the order; the bare label 1 is contained and sits at rank 0;
      the empty list is not contained. */
  lemma SmallComplexRanks()
    ensures AllRanks(SmallComplex().hyperedges) == [0, 1]
    ensures ScanRanks(SmallComplex().hyperedges, {1, 2}) == Some(1)
  {
    var H := SmallComplex().hyperedges;
    var k: set<Label> := {1, 2};
    assert k != {1} && k != {2} by {
      assert 2 !in {1} && 1 !in {2};
    }
    NodesThenEdge(H, k);
  }

  /** A registry with ranks 0 and 1 only, holding `k` at rank 1 but not at
      rank 0, lists its ranks as [0, 1] and resolves `k` to rank 1. */
  lemma NodesThenEdge<V>(H: Ranked<V>, k: set<Label>)
    requires H.Keys == {0, 1} && k !in H[0] && k in H[1]
    ensures AllRanks(H) == [0, 1]
    ensures ScanRanks(H, k) == Some(1)
  {
    var rs := AllRanks(H);
    assert |rs| == 2 && rs[0] in H && rs[1] in H;
    assert IsLeastRank(H, k, 1);
  }

  lemma SmallComplexLookups()
    ensures GetRank(SmallComplex().hyperedges, Collection([2, 1])) == Ok(1)
    ensures HyperEdges.GetItem(SmallComplex(), Collection([2, 1])) == Ok(Weight(3))
  {
    SmallComplexRanks();
    SmallComplexEdge();
    PairElements(1, 2);
    CollectionAtLeastRank(SmallComplex(), [2, 1], 1);
  }

  /** A non-empty list resolves to the least rank holding its labels, and
      retrieval returns the record stored there. */
  lemma CollectionAtLeastRank(v: HyperEdges.HyperEdgeView, xs: seq<Label>, q: int)
    requires xs != [] && ScanRanks(v.hyperedges, Elements(xs)) == Some(q)
    ensures GetRank(v.hyperedges, Collection(xs)) == Ok(q)
    ensures HyperEdges.GetItem(v, Collection(xs)) == Ok(v.hyperedges[q][Elements(xs)])
  {
  }

  lemma SmallComplexEdge()
    ensures SmallComplex().hyperedges[1][{1, 2}] == Weight(3)
  {
  }

  lemma SmallComplexMembership()
    ensures HyperEdges.Contains(SmallComplex(), Atomic(1)) == Ok(true)
    ensures GetRank(SmallComplex().hyperedges, Atomic(1)) == Ok(0)
    ensures HyperEdges.Contains(SmallComplex(), Collection([])) == Ok(false)
  {
    var H := SmallComplex().hyperedges;
    assert 0 in H && {1} in H[0];
  }

  lemma LevelNames()
    ensures HyperEdges.ParseLevel("down") == Some(HyperEdges.Down)
    ensures HyperEdges.ParseLevel("sideways") == None
  {
    assert "down" != "equal" && "down" != "upper" && "down" != "up" && "down" != "lower";
    assert "sideways"[0] == 's';
  }

  lemma SkeletonDown(v: HyperEdges.HyperEdgeView, rank: int)
    ensures HyperEdges.Skeleton(v, rank, "down").Ok?
    ensures forall k :: k in HyperEdges.Skeleton(v, rank, "down").value <==>
                          exists q :: q in v.hyperedges && q < rank && k in v.hyperedges[q]
  {
    LevelNames();
  }

  /** On that complex an unknown skeleton level raises ValueError, and the
      skeleton below rank 1 holds exactly the two nodes. */
  lemma SmallComplexSkeleton()
    ensures HyperEdges.Skeleton(SmallComplex(), 0, "sideways") == Err(ValueError)
    ensures HyperEdges.Skeleton(SmallComplex(), 1, "down").Ok?
    ensures forall k :: k in HyperEdges.Skeleton(SmallComplex(), 1, "down").value <==> k == {1} || k == {2}
  {
    LevelNames();
    SmallComplexNodes();
    DownOfEdgeRank(SmallComplex());
  }

  lemma SmallComplexNodes()
    ensures SmallComplex().hyperedges.Keys == {0, 1}
    ensures SmallComplex().hyperedges[0].Keys == {{1}, {2}}
  {
  }

  /** With ranks 0 and 1 only, the skeleton below rank 1 is exactly rank 0. */
  lemma DownOfEdgeRank(v: HyperEdges.HyperEdgeView)
    requires v.hyperedges.Keys == {0, 1}
    ensures HyperEdges.Skeleton(v, 1, "down").Ok?
    ensures forall k :: k in HyperEdges.Skeleton(v, 1, "down").value <==> k in v.hyperedges[0]
  {
    SkeletonDown(v, 1);
    var H := v.hyperedges;
    var down := HyperEdges.Skeleton(v, 1, "down").value;
    forall k ensures k in down <==> k in H[0] {
      if k in down {
        var q :| q in H && q < 1 && k in H[q];
        assert q == 0;
      }
      if k in H[0] {
        assert 0 in H && 0 < 1;
      }
    }
  }

  /** A colored complex with its nodes 1 and 2 at rank 0 and two hyperedges
      spanning {1, 2} at rank 1, under multiplicity keys 0 and 1. */
  function TwoColors(): ColoredHyperEdges.ColoredHyperEdgeView {
    ColoredHyperEdges.ColoredHyperEdgeView(
      map[0 := map[{1} := map[0 := map[]], {2} := map[0 := map[]]],
          1 := map[{1, 2} := map[0 := Color("red"), 1 := Color("blue")]]])
  }

  lemma TwoColorsRanks()
    ensures AllRanks(TwoColors().hyperedges) == [0, 1]
    ensures ScanRanks(TwoColors().hyperedges, {1, 2}) == Some(1)
  {
    var H := TwoColors().hyperedges;
    var k: set<Label> := {1, 2};
    assert k != {1} && k != {2} by {
      assert 2 !in {1} && 1 !in {2};
    }
    NodesThenEdge(H, k);
  }

  /** On that complex: `([1, 2], 1)` retrieves the second record, and a
      two-label list without a key raises KeyError. */
  lemma TwoColorsLookups()
    ensures ColoredHyperEdges.GetItem(TwoColors(), ColoredHyperEdges.Pair(Collection([1, 2]), 1)) == Ok(Color("blue"))
    ensures ColoredHyperEdges.GetItem(TwoColors(), ColoredHyperEdges.Plain(Collection([1, 2]))) == Err(KeyError)
  {
    TwoColorsRanks();
    TwoColorsEdgeKeys();
    PairElements(1, 2);
  }

  /** On that complex: `([2, 1], 0)` is contained and `([1, 2], 5)` is not. */
  lemma TwoColorsMembership()
    ensures ColoredHyperEdges.Contains(TwoColors(), ColoredHyperEdges.Pair(Collection([2, 1]), 0))
    ensures !ColoredHyperEdges.Contains(TwoColors(), ColoredHyperEdges.Pair(Collection([1, 2]), 5))
  {
    TwoColorsRanks();
    TwoColorsEdgeKeys();
    PairElements(1, 2);
    PairAtLeastRank(TwoColors(), [2, 1], 0, 1);
    PairAtLeastRank(TwoColors(), [1, 2], 5, 1);
  }

  lemma TwoColorsEdgeKeys()
    ensures TwoColors().hyperedges[1][{1, 2}].Keys == {0, 1}
    ensures TwoColors().hyperedges[1][{1, 2}][1] == Color("blue")
  {
  }

  /** Both orders of a two-label list normalise to the same pair. */
  lemma PairElements(a: Label, b: Label)
    ensures Elements([a, b]) == {a, b} && Elements([b, a]) == {a, b}
  {
  }

  /** An `(elements, key)` pair is contained exactly when the least rank
      holding the elements stores `key` for them. */
  lemma PairAtLeastRank(v: ColoredHyperEdges.ColoredHyperEdgeView, xs: seq<Label>, key: int, q: int)
    requires xs != [] && ScanRanks(v.hyperedges, Elements(xs)) == Some(q)
    ensures ColoredHyperEdges.Contains(v, ColoredHyperEdges.Pair(Collection(xs), key))
            <==> key in v.hyperedges[q][Elements(xs)]
  {
  }

  /** That colored complex holds two hyperedges off rank 0: `__len__` as
      written and the corrected length agree on it, since rank 0 is present. */
  lemma TwoColorsLen()
    ensures ColoredHyperEdges.Len(TwoColors()) == 2
    ensures ColoredHyperEdges.LenAsWritten(TwoColors()) == 2
  {
    TwoColorsRanks();
    TwoColorsTopCount();
    LenOverNodeRank(TwoColors());
  }

  /** On a colored view with ranks 0 and 1 only, both lengths count rank 1. */
  lemma LenOverNodeRank(v: ColoredHyperEdges.ColoredHyperEdgeView)
    requires AllRanks(v.hyperedges) == [0, 1]
    ensures ColoredHyperEdges.Len(v) == |ColoredHyperEdges.Entries(v.hyperedges[1])|
    ensures ColoredHyperEdges.LenAsWritten(v) == |ColoredHyperEdges.Entries(v.hyperedges[1])|
  {
    var H := v.hyperedges;
    var rs: seq<int> := [0, 1];
    assert rs[1..] == [1];
    assert ColoredHyperEdges.WithoutZero(rs) == [1];
    var shape := ColoredHyperEdges.Counts(rs, H);
    var one := ColoredHyperEdges.Counts([1], H);
    SumSingle(shape[1..]);
    SumSingle(one);
  }

  lemma SumSingle(s: seq<nat>)
    requires |s| == 1
    ensures Collections.Sum(s) == s[0]
  {
    assert s[1..] == [];
  }

  lemma TwoColorsTopCount()
    ensures |ColoredHyperEdges.Entries(TwoColors().hyperedges[1])| == 2
  {
    var H := TwoColors().hyperedges;
    assert ColoredHyperEdges.Entries(H[1]) == {({1, 2}, 0), ({1, 2}, 1)};
  }
}
