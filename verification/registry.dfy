/** The rank-assigned registry shared by `HyperEdgeView` and
    `ColoredHyperEdgeView` (`hyperedge_dict`): rank to (set-key to stored
    value), with the rank of a key found by an ascending scan. */
module Registry {
  import opened Results
  import opened Keys
  import opened Collections

  /** Rank to (set-key to stored value). The plain view stores one attribute
      record per key; the colored view a map from multiplicity key to record. */
  type Ranked<V> = map<int, map<set<Label>, V>>

  ghost predicate Increasing(rs: seq<int>) {
    forall i, j :: 0 <= i < j < |rs| ==> rs[i] < rs[j]
  }

  /** The invariant the owning complex keeps: a key sits at one rank only. */
  ghost predicate SingleRank<V>(H: Ranked<V>) {
    forall q1, q2, k :: q1 in H && q2 in H && k in H[q1] && k in H[q2] ==> q1 == q2
  }

  /** Some rank holds `k`. */
  ghost predicate Stored<V>(H: Ranked<V>, k: set<Label>) {
    exists q :: q in H && k in H[q]
  }

  /** `q` is the least rank whose collection holds `k`. */
  ghost predicate IsLeastRank<V>(H: Ranked<V>, k: set<Label>, q: int) {
    q in H && k in H[q] && forall q' :: q' in H && k in H[q'] ==> q <= q'
  }

  /** Under the single-rank invariant the least rank is the only one. */
  lemma LeastRankUnique<V>(H: Ranked<V>, k: set<Label>, q: int)
    requires SingleRank(H) && q in H && k in H[q]
    ensures IsLeastRank(H, k, q)
  {
  }

  /** `m` is the least element of `s`. */
  predicate IsMin(m: int, s: set<int>) {
    m in s && forall y :: y in s ==> m <= y
  }

  lemma MinExists(s: set<int>)
    requires s != {}
    ensures exists m :: IsMin(m, s)
    decreases |s|
  {
    var x := Pick(s);
    if s == {x} {
      assert IsMin(x, s);
    } else {
      MinExists(s - {x});
      var m :| IsMin(m, s - {x});
      var least := if x < m then x else m;
      forall y | y in s ensures least <= y {
        if y != x { assert y in s - {x}; }
      }
      assert IsMin(least, s);
    }
  }

  lemma SortedCons(m: int, rest: seq<int>, s: set<int>)
    requires IsMin(m, s)
    requires Increasing(rest) && |rest| == |s - {m}|
    requires forall q :: q in rest <==> q in s - {m}
    ensures Increasing([m] + rest)
    ensures forall q :: q in [m] + rest <==> q in s
    ensures |[m] + rest| == |s|
  {
    forall j | 0 <= j < |rest| ensures m < rest[j] {
      assert rest[j] in rest;
    }
  }

  /** Python's `sorted` over a set of ranks. */
  function SortedRanks(s: set<int>): (rs: seq<int>)
    ensures Increasing(rs)
    ensures forall q :: q in rs <==> q in s
    ensures |rs| == |s|
    decreases |s|
  {
    if s == {} then []
    else
      MinExists(s);
      var m :| IsMin(m, s);
      var rest := SortedRanks(s - {m});
      SortedCons(m, rest, s);
      [m] + rest
  }

  /** `allranks`: the stored ranks, ascending. */
  function AllRanks<V>(H: Ranked<V>): (rs: seq<int>)
    ensures Increasing(rs)
    ensures forall q :: q in rs <==> q in H
    ensures forall i :: 0 <= i < |rs| ==> rs[i] in H
    ensures |rs| == |H|
  {
    var rs := SortedRanks(H.Keys);
    assert forall i :: 0 <= i < |rs| ==> rs[i] in rs;
    rs
  }

  /** The loop `for i in allranks: if key in hyperedge_dict[i]: ...`: the
      position in `rs` of the first rank whose collection holds `k`. */
  function FirstIndex<V>(rs: seq<int>, H: Ranked<V>, k: set<Label>): (r: Option<nat>)
    requires forall i :: 0 <= i < |rs| ==> rs[i] in H
    ensures r.None? <==> forall i :: 0 <= i < |rs| ==> k !in H[rs[i]]
    ensures r.Some? ==> r.value < |rs| && k in H[rs[r.value]]
    ensures r.Some? ==> forall j :: 0 <= j < r.value ==> k !in H[rs[j]]
  {
    if rs == [] then None
    else if k in H[rs[0]] then Some(0)
    else
      match FirstIndex(rs[1..], H, k)
      case None => None
      case Some(i) => Some(i + 1)
  }

  /** The ascending scan over `allranks` finds the least rank holding `k`,
      and finds one exactly when some rank holds it. */
  function ScanRanks<V>(H: Ranked<V>, k: set<Label>): (r: Option<int>)
    ensures r.Some? <==> Stored(H, k)
    ensures r.Some? ==> IsLeastRank(H, k, r.value)
  {
    var rs := AllRanks(H);
    var i := FirstIndex(rs, H, k);
    FirstIndexIsLeast(rs, H, k, i);
    if i.Some? then Some(rs[i.value]) else None
  }

  lemma FirstIndexIsLeast<V>(rs: seq<int>, H: Ranked<V>, k: set<Label>, i: Option<nat>)
    requires Increasing(rs)
    requires forall q :: q in rs <==> q in H
    requires forall j :: 0 <= j < |rs| ==> rs[j] in H
    requires i == FirstIndex(rs, H, k)
    ensures i.Some? <==> Stored(H, k)
    ensures i.Some? ==> IsLeastRank(H, k, rs[i.value])
  {
    if i.Some? {
      forall q' | q' in H && k in H[q'] ensures rs[i.value] <= q' {
        assert q' in rs;
        var j :| 0 <= j < |rs| && rs[j] == q';
        assert !(j < i.value);
      }
    } else {
      forall q | q in H ensures k !in H[q] {
        assert q in rs;
        var j :| 0 <= j < |rs| && rs[j] == q;
      }
    }
  }

  /** `get_rank` on an already normalised key: an empty key has rank 0;
      otherwise the least rank holding the key; KeyError when none does. */
  function RankOf<V>(H: Ranked<V>, k: set<Label>): (r: Result<int>)
    ensures k == {} ==> r == Ok(0)
    ensures k != {} ==> (r.Ok? <==> Stored(H, k))
    ensures k != {} && r.Ok? ==> IsLeastRank(H, k, r.value)
    ensures r.Err? ==> r.error == KeyError
  {
    if |k| == 0 then Ok(0)
    else match ScanRanks(H, k)
      case Some(q) => Ok(q)
      case None => Err(KeyError)
  }

  /** `get_rank`: a bare label is looked up at rank 0 only; a cell object or
      a collection by the ascending scan, with an empty one at rank 0. */
  function GetRank<V>(H: Ranked<V>, x: Item<set<Label>>): (r: Result<int>)
    ensures x.Atomic? ==> (r.Ok? <==> 0 in H && {x.atom} in H[0])
    ensures x.Atomic? && r.Ok? ==> r.value == 0
    ensures !x.Atomic? && ToFrozenSet(x) == {} ==> r == Ok(0)
    ensures !x.Atomic? && ToFrozenSet(x) != {} ==> (r.Ok? <==> Stored(H, ToFrozenSet(x)))
    ensures !x.Atomic? && ToFrozenSet(x) != {} && r.Ok? ==> IsLeastRank(H, ToFrozenSet(x), r.value)
    ensures r.Err? ==> r.error == KeyError
  {
    match x
    case CellObj(e) => RankOf(H, e)
    case Atomic(l) => if 0 in H && {l} in H[0] then Ok(0) else Err(KeyError)
    case Collection(xs) => RankOf(H, Elements(xs))
  }

  /** The ranks stored next to `rank`: `p` is the greatest stored rank below it. */
  ghost predicate IsPredecessor<V>(H: Ranked<V>, p: int, rank: int) {
    p in H && p < rank && forall q :: q in H && q < rank ==> q <= p
  }

  /** `s` is the least stored rank above `rank`. */
  ghost predicate IsSuccessor<V>(H: Ranked<V>, s: int, rank: int) {
    s in H && rank < s && forall q :: q in H && rank < q ==> s <= q
  }

  /** Some stored rank lies strictly below `rank`. */
  ghost predicate HasBelow<V>(H: Ranked<V>, rank: int) {
    exists q :: q in H && q < rank
  }

  /** Some stored rank lies strictly above `rank`. */
  ghost predicate HasAbove<V>(H: Ranked<V>, rank: int) {
    exists q :: q in H && rank < q
  }

  /** The first and last entries of `allranks` bound every stored rank. */
  lemma RangeBounds<V>(H: Ranked<V>, rank: int)
    ensures var rs := AllRanks(H);
            |rs| > 0 ==> (HasBelow(H, rank) <==> rs[0] < rank)
                         && (HasAbove(H, rank) <==> rank < rs[|rs| - 1])
    ensures |AllRanks(H)| == 0 ==> !HasBelow(H, rank) && !HasAbove(H, rank)
  {
    var rs := AllRanks(H);
    if |rs| > 0 {
      forall q | q in H ensures rs[0] <= q <= rs[|rs| - 1] {
        assert q in rs;
        var j :| 0 <= j < |rs| && rs[j] == q;
      }
      assert rs[0] in H && rs[|rs| - 1] in H;
    }
  }

  /** The neighbours of a stored rank in `allranks` are its predecessor and
      successor among the stored ranks. */
  lemma Neighbours<V>(H: Ranked<V>, i: int)
    requires 0 <= i < |AllRanks(H)|
    ensures 0 < i ==> IsPredecessor(H, AllRanks(H)[i - 1], AllRanks(H)[i])
    ensures i + 1 < |AllRanks(H)| ==> IsSuccessor(H, AllRanks(H)[i + 1], AllRanks(H)[i])
  {
    var rs := AllRanks(H);
    SortedNeighbours(rs, i);
  }

  /** In an increasing sequence the entry before `rs[i]` is the greatest
      element below it and the entry after is the least element above it. */
  lemma SortedNeighbours(rs: seq<int>, i: int)
    requires Increasing(rs) && 0 <= i < |rs|
    ensures i > 0 ==> forall q :: q in rs && q < rs[i] ==> q <= rs[i - 1]
    ensures i + 1 < |rs| ==> forall q :: q in rs && rs[i] < q ==> rs[i + 1] <= q
  {
    forall q | q in rs
      ensures i > 0 && q < rs[i] ==> q <= rs[i - 1]
      ensures i + 1 < |rs| && rs[i] < q ==> rs[i + 1] <= q
    {
      var j :| 0 <= j < |rs| && rs[j] == q;
    }
  }
}
