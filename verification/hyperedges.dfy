/** `HyperEdgeView`: the hyperedges of a combinatorial complex, partitioned by
    an externally assigned rank, one attribute record per hyperedge key. */
module HyperEdges {
  import opened Results
  import opened Keys
  import opened Collections
  import opened Registry

  /** `hyperedge_dict`: rank to (hyperedge key to attribute record). */
  datatype HyperEdgeView = HyperEdgeView(hyperedges: Ranked<Attr>)

  /** `__contains__`. An empty view holds nothing; a bare label is checked at
      rank 0 only (KeyError when the view has no rank 0); a cell object or a
      collection holds when it is non-empty and some rank stores its key. */
  function Contains(v: HyperEdgeView, x: Item<set<Label>>): (r: Result<bool>)
    ensures r.Err? <==> |v.hyperedges| > 0 && x.Atomic? && 0 !in v.hyperedges
    ensures r.Err? ==> r.error == KeyError
    ensures x.Atomic? && r.Ok? ==> (r.value <==> 0 in v.hyperedges && {x.atom} in v.hyperedges[0])
    ensures !x.Atomic? ==> r.Ok? && (r.value <==> ToFrozenSet(x) != {} && Stored(v.hyperedges, ToFrozenSet(x)))
  {
    var H := v.hyperedges;
    if |H| == 0 then Ok(false)
    else match x
      case CellObj(e) => Ok(|e| != 0 && ScanRanks(H, e).Some?)
      case Collection(xs) => Ok(|xs| != 0 && ScanRanks(H, Elements(xs)).Some?)
      case Atomic(l) => if 0 in H then Ok({l} in H[0]) else Err(KeyError)
  }

  /** Membership and rank resolution agree: a non-empty input is contained
      exactly when `get_rank` resolves it; an empty collection is never
      contained although `get_rank` gives it rank 0. */
  lemma ContainsIffRankResolves(v: HyperEdgeView, x: Item<set<Label>>)
    ensures x.Atomic? || ToFrozenSet(x) != {} ==>
              (Contains(v, x) == Ok(true) <==> GetRank(v.hyperedges, x).Ok?)
    ensures !x.Atomic? && ToFrozenSet(x) == {} ==>
              Contains(v, x) == Ok(false) && GetRank(v.hyperedges, x) == Ok(0)
  {
  }

  /** `__getitem__`: normalise the input, resolve its rank by the scan (an
      empty key resolves to rank 0), and return the record stored there: for
      a non-empty key, the record at the least rank holding it. */
  function GetItem(v: HyperEdgeView, x: Item<set<Label>>): (r: Result<Attr>)
    ensures var k := ToFrozenSet(x);
            k != {} ==> (r.Ok? <==> Stored(v.hyperedges, k))
    ensures var k := ToFrozenSet(x);
            k == {} ==> (r.Ok? <==> 0 in v.hyperedges && k in v.hyperedges[0])
    ensures r.Ok? ==> exists q :: q in v.hyperedges && ToFrozenSet(x) in v.hyperedges[q]
                                  && r.value == v.hyperedges[q][ToFrozenSet(x)]
    ensures SingleRank(v.hyperedges) && ToFrozenSet(x) != {} ==>
              forall q :: q in v.hyperedges && ToFrozenSet(x) in v.hyperedges[q] ==>
                r == Ok(v.hyperedges[q][ToFrozenSet(x)])
    ensures ToFrozenSet(x) != {} ==>
              forall q :: IsLeastRank(v.hyperedges, ToFrozenSet(x), q) ==> r == Ok(v.hyperedges[q][ToFrozenSet(x)])
    ensures ToFrozenSet(x) == {} && r.Ok? ==> r.value == v.hyperedges[0][{}]
    ensures r.Err? ==> r.error == KeyError
  {
    var H := v.hyperedges;
    var k := ToFrozenSet(x);
    match RankOf(H, k)
    case Err(e) => Err(e)
    case Ok(q) => if q in H && k in H[q] then Ok(H[q][k]) else Err(KeyError)
  }

  /** The relative-rank selections of `skeleton`. */
  datatype Relation = Equal | Up | Down | UpEq | DownEq

  /** The `level` strings `skeleton` accepts, long aliases included. */
  function ParseLevel(level: string): Option<Relation> {
    if level == "equal" then Some(Equal)
    else if level == "upper" || level == "up" then Some(Up)
    else if level == "lower" || level == "down" then Some(Down)
    else if level == "uppereq" || level == "upeq" then Some(UpEq)
    else if level == "lowereq" || level == "downeq" then Some(DownEq)
    else None
  }

  /** Which strings select which relation, and which are refused. */
  lemma ParseLevelCases(level: string)
    ensures ParseLevel(level) == Some(Equal) <==> level == "equal"
    ensures ParseLevel(level) == Some(Up) <==> level == "upper" || level == "up"
    ensures ParseLevel(level) == Some(Down) <==> level == "lower" || level == "down"
    ensures ParseLevel(level) == Some(UpEq) <==> level == "uppereq" || level == "upeq"
    ensures ParseLevel(level) == Some(DownEq) <==> level == "lowereq" || level == "downeq"
    ensures ParseLevel(level).None? <==>
              level !in ["equal", "upper", "up", "lower", "down", "uppereq", "upeq", "lowereq", "downeq"]
  {
  }

  /** Rank `q` stands in `rel` to `rank`. */
  predicate Holds(rel: Relation, q: int, rank: int) {
    match rel
    case Equal => q == rank
    case Up => q > rank
    case Down => q < rank
    case UpEq => q >= rank
    case DownEq => q <= rank
  }

  /** Some rank standing in `rel` to `rank` stores `k`. */
  ghost predicate SelectedBy(H: Ranked<Attr>, rel: Relation, rank: int, k: set<Label>) {
    exists q :: q in H && Holds(rel, q, rank) && k in H[q]
  }

  /** The loop `for rank_i in allranks: if <rel>: elements = elements + keys`:
      the keys of the selected ranks of `rs`, rank by rank. */
  ghost function Collect(rs: seq<int>, H: Ranked<Attr>, rel: Relation, rank: int): (ks: seq<set<Label>>)
    requires forall i :: 0 <= i < |rs| ==> rs[i] in H
    ensures forall k :: k in ks <==> exists i :: 0 <= i < |rs| && Holds(rel, rs[i], rank) && k in H[rs[i]]
  {
    if rs == [] then []
    else
      var head := if Holds(rel, rs[0], rank) then Enumerate(H[rs[0]].Keys) else [];
      var tail := Collect(rs[1..], H, rel, rank);
      CollectStep(rs, H, rel, rank, head, tail);
      head + tail
  }

  lemma CollectStep(rs: seq<int>, H: Ranked<Attr>, rel: Relation, rank: int,
                    head: seq<set<Label>>, tail: seq<set<Label>>)
    requires rs != [] && forall i :: 0 <= i < |rs| ==> rs[i] in H
    requires forall k :: k in head <==> Holds(rel, rs[0], rank) && k in H[rs[0]]
    requires forall k :: k in tail <==> exists i :: 0 <= i < |rs[1..]| && Holds(rel, rs[1..][i], rank) && k in H[rs[1..][i]]
    ensures forall k :: k in head + tail <==> exists i :: 0 <= i < |rs| && Holds(rel, rs[i], rank) && k in H[rs[i]]
  {
    forall k | k in head + tail
      ensures exists i :: 0 <= i < |rs| && Holds(rel, rs[i], rank) && k in H[rs[i]]
    {
      if k !in head {
        var i :| 0 <= i < |rs[1..]| && Holds(rel, rs[1..][i], rank) && k in H[rs[1..][i]];
        assert rs[i + 1] == rs[1..][i];
      }
    }
    forall k | exists i :: 0 <= i < |rs| && Holds(rel, rs[i], rank) && k in H[rs[i]]
      ensures k in head + tail
    {
      var i :| 0 <= i < |rs| && Holds(rel, rs[i], rank) && k in H[rs[i]];
      if i > 0 {
        assert rs[1..][i - 1] == rs[i];
      }
    }
  }

  /** Under the single-rank invariant, collecting over distinct ranks never
      repeats a key. */
  lemma {:induction false} CollectNoDups(rs: seq<int>, H: Ranked<Attr>, rel: Relation, rank: int)
    requires forall i :: 0 <= i < |rs| ==> rs[i] in H
    requires SingleRank(H) && NoDups(rs)
    ensures NoDups(Collect(rs, H, rel, rank))
  {
    if rs != [] {
      var head := if Holds(rel, rs[0], rank) then Enumerate(H[rs[0]].Keys) else [];
      var tail := Collect(rs[1..], H, rel, rank);
      NoDupsTail(rs);
      CollectNoDups(rs[1..], H, rel, rank);
      forall k | k in head ensures k !in tail {
        forall i | 0 <= i < |rs[1..]| ensures k !in H[rs[1..][i]] {
          assert rs[1..][i] == rs[i + 1] && rs[0] != rs[i + 1];
        }
      }
      NoDupsConcat(head, tail);
    }
  }

  /** Every stored rank is either at-or-above `rank` or strictly below it, so
      the two selections together count every stored entry once. */
  lemma {:induction false} CollectSplit(rs: seq<int>, H: Ranked<Attr>, rank: int)
    requires forall i :: 0 <= i < |rs| ==> rs[i] in H
    ensures |Collect(rs, H, UpEq, rank)| + |Collect(rs, H, Down, rank)| == Sum(Sizes(rs, H))
  {
    if rs != [] {
      CollectSplit(rs[1..], H, rank);
      assert Sizes(rs, H)[1..] == Sizes(rs[1..], H);
    }
  }

  /** `skeleton(rank, level)`. "equal" returns the keys stored at `rank`, or
      nothing when that rank is absent; "up"/"upper", "down"/"lower",
      "upeq"/"uppereq" and "downeq"/"lowereq" collect the keys of every rank
      strictly above, strictly below, at-or-above and at-or-below `rank`; any
      other level raises ValueError. Under the single-rank invariant no key is
      listed twice. */
  ghost function Skeleton(v: HyperEdgeView, rank: int, level: string): (r: Result<seq<set<Label>>>)
    ensures r.Err? <==> level !in ["equal", "upper", "up", "lower", "down", "uppereq", "upeq", "lowereq", "downeq"]
    ensures r.Err? ==> r.error == ValueError
    ensures r.Ok? && level == "equal" ==>
              forall k :: k in r.value <==> rank in v.hyperedges && k in v.hyperedges[rank]
    ensures r.Ok? && (level == "up" || level == "upper") ==>
              forall k :: k in r.value <==> exists q :: q in v.hyperedges && q > rank && k in v.hyperedges[q]
    ensures r.Ok? && (level == "down" || level == "lower") ==>
              forall k :: k in r.value <==> exists q :: q in v.hyperedges && q < rank && k in v.hyperedges[q]
    ensures r.Ok? && (level == "upeq" || level == "uppereq") ==>
              forall k :: k in r.value <==> exists q :: q in v.hyperedges && q >= rank && k in v.hyperedges[q]
    ensures r.Ok? && (level == "downeq" || level == "lowereq") ==>
              forall k :: k in r.value <==> exists q :: q in v.hyperedges && q <= rank && k in v.hyperedges[q]
    ensures r.Ok? && SingleRank(v.hyperedges) ==> NoDups(r.value)
  {
    var H := v.hyperedges;
    ParseLevelCases(level);
    match ParseLevel(level)
    case None => Err(ValueError)
    case Some(Equal) => Ok(if rank in H then Enumerate(H[rank].Keys) else [])
    case Some(rel) =>
      var rs := AllRanks(H);
      var ks := Collect(rs, H, rel, rank);
      SkeletonMembers(H, rs, rel, rank, ks);
      CollectNoDupsIfSingle(rs, H, rel, rank);
      Ok(ks)
  }

  lemma SkeletonMembers(H: Ranked<Attr>, rs: seq<int>, rel: Relation, rank: int, ks: seq<set<Label>>)
    requires rs == AllRanks(H) && ks == Collect(rs, H, rel, rank)
    ensures forall k :: k in ks <==> SelectedBy(H, rel, rank, k)
  {
    forall k | SelectedBy(H, rel, rank, k) ensures k in ks {
      var q :| q in H && Holds(rel, q, rank) && k in H[q];
      assert q in rs;
      var i :| 0 <= i < |rs| && rs[i] == q;
    }
  }

  lemma CollectNoDupsIfSingle(rs: seq<int>, H: Ranked<Attr>, rel: Relation, rank: int)
    requires rs == AllRanks(H)
    ensures SingleRank(H) ==> NoDups(Collect(rs, H, rel, rank))
  {
    if SingleRank(H) {
      CollectNoDups(rs, H, rel, rank);
    }
  }

  /** The number of keys stored at each rank of `rs`. */
  function Sizes(rs: seq<int>, H: Ranked<Attr>): (s: seq<nat>)
    requires forall i :: 0 <= i < |rs| ==> rs[i] in H
    ensures |s| == |rs|
    ensures forall i :: 0 <= i < |rs| ==> s[i] == |H[rs[i]]|
  {
    if rs == [] then [] else [|H[rs[0]]|] + Sizes(rs[1..], H)
  }

  /** `shape`: the number of hyperedges at each stored rank, ascending. */
  function Shape(v: HyperEdgeView): seq<nat> {
    Sizes(AllRanks(v.hyperedges), v.hyperedges)
  }

  /** `__len__`: the sum of `shape`. */
  function Len(v: HyperEdgeView): nat {
    Sum(Shape(v))
  }

  /** `shape` counts what `skeleton` lists: its i-th entry is the length of
      the "equal" skeleton at the i-th smallest rank. */
  lemma ShapeCountsSkeleton(v: HyperEdgeView, i: int)
    requires 0 <= i < |v.hyperedges|
    ensures Skeleton(v, AllRanks(v.hyperedges)[i], "equal").Ok?
    ensures |Skeleton(v, AllRanks(v.hyperedges)[i], "equal").value| == Shape(v)[i]
  {
    var rs := AllRanks(v.hyperedges);
    assert |v.hyperedges[rs[i]].Keys| == |v.hyperedges[rs[i]]|;
  }

  /** Under the single-rank invariant, `skeleton(rank, "upeq")` and
      `skeleton(rank, "down")` partition the stored hyperedges: they share no
      key, neither repeats one, together they hold every stored key, and their
      lengths add up to `__len__`. */
  lemma SkeletonPartition(v: HyperEdgeView, rank: int)
    requires SingleRank(v.hyperedges)
    ensures Skeleton(v, rank, "upeq").Ok? && Skeleton(v, rank, "down").Ok?
    ensures var up := Skeleton(v, rank, "upeq").value;
            var down := Skeleton(v, rank, "down").value;
            && NoDups(up) && NoDups(down)
            && (forall k :: !(k in up && k in down))
            && (forall k :: k in up || k in down <==> Stored(v.hyperedges, k))
            && |up| + |down| == Len(v)
  {
    var H := v.hyperedges;
    var up := Skeleton(v, rank, "upeq").value;
    var down := Skeleton(v, rank, "down").value;
    forall k | k in up ensures k !in down {
      var q1 :| q1 in H && q1 >= rank && k in H[q1];
      assert forall q :: q in H && k in H[q] ==> q == q1;
    }
    forall k | Stored(H, k) ensures k in up || k in down {
      var q :| q in H && k in H[q];
      assert q >= rank || q < rank;
    }
    CollectSplit(AllRanks(H), H, rank);
  }

  /** `_get_lower_rank`, as written: -1 on an empty view or when `rank` is at
      or below the least stored rank or at or above the greatest; otherwise the
      stored rank before `rank` in `allranks`, and ValueError (from
      `list.index`) when `rank` itself is not stored. */
  function LowerRankAsWritten(v: HyperEdgeView, rank: int): (r: Result<int>)
    ensures var H := v.hyperedges;
            r.Err? <==> rank !in H && HasBelow(H, rank) && HasAbove(H, rank)
    ensures r.Err? ==> r.error == ValueError
    ensures !(HasBelow(v.hyperedges, rank) && HasAbove(v.hyperedges, rank)) ==> r == Ok(-1)
    ensures var H := v.hyperedges;
            rank in H && HasBelow(H, rank) && HasAbove(H, rank) ==> r.Ok? && IsPredecessor(H, r.value, rank)
  {
    var H := v.hyperedges;
    var rs := AllRanks(H);
    RangeBounds(H, rank);
    if |rs| == 0 || rank <= rs[0] || rank >= rs[|rs| - 1] then Ok(-1)
    else if rank !in H then Err(ValueError)
    else
      var i := IndexOf(rs, rank);
      Neighbours(H, i);
      Ok(rs[i - 1])
  }

  /** `_get_higher_rank`, as written: -1 on an empty view or when `rank` is at
      or below the least stored rank or at or above the greatest; otherwise the
      stored rank after `rank` in `allranks`, and ValueError (from
      `list.index`) when `rank` itself is not stored. */
  function HigherRankAsWritten(v: HyperEdgeView, rank: int): (r: Result<int>)
    ensures var H := v.hyperedges;
            r.Err? <==> rank !in H && HasBelow(H, rank) && HasAbove(H, rank)
    ensures r.Err? ==> r.error == ValueError
    ensures !(HasBelow(v.hyperedges, rank) && HasAbove(v.hyperedges, rank)) ==> r == Ok(-1)
    ensures var H := v.hyperedges;
            rank in H && HasBelow(H, rank) && HasAbove(H, rank) ==> r.Ok? && IsSuccessor(H, r.value, rank)
  {
    var H := v.hyperedges;
    var rs := AllRanks(H);
    RangeBounds(H, rank);
    if |rs| == 0 || rank <= rs[0] || rank >= rs[|rs| - 1] then Ok(-1)
    else if rank !in H then Err(ValueError)
    else
      var i := IndexOf(rs, rank);
      Neighbours(H, i);
      Ok(rs[i + 1])
  }

  lemma ThreeRanks(H: Ranked<Attr>)
    requires H.Keys == {0, 1, 2}
    ensures AllRanks(H) == [0, 1, 2]
  {
    var rs := AllRanks(H);
    assert rs[0] in H && rs[1] in H && rs[2] in H;
  }

  /** The as-written `_get_lower_rank` misses the greatest rank: with ranks
      0, 1 and 2 stored, the rank below 2 is 1, yet the call returns -1. */
  lemma LowerRankAsWrittenMissesTop()
    ensures var v := HyperEdgeView(map[0 := map[], 1 := map[], 2 := map[]]);
            LowerRankAsWritten(v, 2) == Ok(-1) && IsPredecessor(v.hyperedges, 1, 2)
  {
    var v := HyperEdgeView(map[0 := map[], 1 := map[], 2 := map[]]);
    ThreeRanks(v.hyperedges);
  }

  /** The as-written `_get_higher_rank` misses the least rank: with ranks
      0, 1 and 2 stored, the rank above 0 is 1, yet the call returns -1. */
  lemma HigherRankAsWrittenMissesBottom()
    ensures var v := HyperEdgeView(map[0 := map[], 1 := map[], 2 := map[]]);
            HigherRankAsWritten(v, 0) == Ok(-1) && IsSuccessor(v.hyperedges, 1, 0)
  {
    var v := HyperEdgeView(map[0 := map[], 1 := map[], 2 := map[]]);
    ThreeRanks(v.hyperedges);
  }

  /** `_get_lower_rank` as evidently intended: for a stored rank, the greatest
      stored rank below it, or -1 when there is none (the greatest stored rank
      included); for an unstored rank, ValueError when it lies inside the
      stored range and -1 otherwise. */
  function LowerRank(v: HyperEdgeView, rank: int): (r: Result<int>)
    ensures var H := v.hyperedges;
            rank in H ==> r.Ok? && (HasBelow(H, rank) ==> IsPredecessor(H, r.value, rank))
                                && (!HasBelow(H, rank) ==> r.value == -1)
    ensures var H := v.hyperedges;
            rank !in H ==> (r.Err? <==> HasBelow(H, rank) && HasAbove(H, rank))
    ensures rank !in v.hyperedges && r.Ok? ==> r.value == -1
    ensures r.Err? ==> r.error == ValueError
  {
    var H := v.hyperedges;
    var rs := AllRanks(H);
    RangeBounds(H, rank);
    if rank in H then
      if rank <= rs[0] then Ok(-1)
      else
        var i := IndexOf(rs, rank);
        Neighbours(H, i);
        Ok(rs[i - 1])
    else if |rs| == 0 || rank <= rs[0] || rank >= rs[|rs| - 1] then Ok(-1)
    else Err(ValueError)
  }

  /** `_get_higher_rank` as evidently intended: for a stored rank, the least
      stored rank above it, or -1 when there is none (the least stored rank
      included); for an unstored rank, ValueError when it lies inside the
      stored range and -1 otherwise. */
  function HigherRank(v: HyperEdgeView, rank: int): (r: Result<int>)
    ensures var H := v.hyperedges;
            rank in H ==> r.Ok? && (HasAbove(H, rank) ==> IsSuccessor(H, r.value, rank))
                                && (!HasAbove(H, rank) ==> r.value == -1)
    ensures var H := v.hyperedges;
            rank !in H ==> (r.Err? <==> HasBelow(H, rank) && HasAbove(H, rank))
    ensures rank !in v.hyperedges && r.Ok? ==> r.value == -1
    ensures r.Err? ==> r.error == ValueError
  {
    var H := v.hyperedges;
    var rs := AllRanks(H);
    RangeBounds(H, rank);
    if rank in H then
      if rank >= rs[|rs| - 1] then Ok(-1)
      else
        var i := IndexOf(rs, rank);
        Neighbours(H, i);
        Ok(rs[i + 1])
    else if |rs| == 0 || rank <= rs[0] || rank >= rs[|rs| - 1] then Ok(-1)
    else Err(ValueError)
  }

  /** Lower and higher ranks are inverse steps: under the corrected
      definitions, the rank above the rank below a stored rank is that rank,
      and vice versa. */
  lemma LowerHigherInverse(v: HyperEdgeView, rank: int)
    requires rank in v.hyperedges
    ensures HasBelow(v.hyperedges, rank) ==> HigherRank(v, LowerRank(v, rank).value) == Ok(rank)
    ensures HasAbove(v.hyperedges, rank) ==> LowerRank(v, HigherRank(v, rank).value) == Ok(rank)
  {
    var H := v.hyperedges;
    if HasBelow(H, rank) {
      var p := LowerRank(v, rank).value;
      assert HasAbove(H, p);
      var s := HigherRank(v, p).value;
      assert s <= rank && rank <= s;
    }
    if HasAbove(H, rank) {
      var s := HigherRank(v, rank).value;
      assert HasBelow(H, s);
      var p := LowerRank(v, s).value;
      assert p >= rank && p <= rank;
    }
  }
}
