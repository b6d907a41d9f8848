/** `ColoredHyperEdgeView`: the hyperedges of a colored hypergraph. Several
    hyperedges may span the same label set at the same rank; a multiplicity
    key tells them apart, so each set-key maps to (multiplicity key to
    attribute record). */
module ColoredHyperEdges {
  import opened Results
  import opened Keys
  import opened Collections
  import opened Registry

  /** Multiplicity key to attribute record. */
  type Multi = map<int, Attr>

  /** One rank of the registry. */
  type Layer = map<set<Label>, Multi>

  /** `hyperedge_dict`: rank to (set-key to (multiplicity key to record)). */
  datatype ColoredHyperEdgeView = ColoredHyperEdgeView(hyperedges: Ranked<Multi>)

  /** The inputs of `__contains__` and `__getitem__`: a plain hyperedge name,
      or the two-element `(elements, key)` form whose second component is an
      integer multiplicity key. A Python list or tuple of labels is `Plain`. */
  datatype ColoredItem =
    | Plain(item: Item<set<Label>>)
    | Pair(part: Item<set<Label>>, key: int)

  /** The `(hyperedge, multiplicity key)` entries of one rank. */
  ghost function Entries(M: Layer): set<(set<Label>, int)> {
    set he, k | he in M && k in M[he] :: (he, k)
  }

  lemma EntriesMembers(M: Layer)
    ensures forall he, k :: (he, k) in Entries(M) <==> he in M && k in M[he]
  {
  }

  /** The entries of one hyperedge. */
  ghost function Pairs(he: set<Label>, S: set<int>): set<(set<Label>, int)> {
    set k | k in S :: (he, k)
  }

  lemma {:induction false} PairsCard(he: set<Label>, S: set<int>)
    ensures |Pairs(he, S)| == |S|
    decreases |S|
  {
    if S != {} {
      var k := Pick(S);
      PairsCard(he, S - {k});
      assert Pairs(he, S) == Pairs(he, S - {k}) + {(he, k)};
    }
  }

  lemma EntriesSplit(M: Layer, he: set<Label>)
    requires he in M
    ensures |Entries(M)| == |M[he]| + |Entries(M - {he})|
  {
    var P := Pairs(he, M[he].Keys);
    forall e | e in Entries(M) ensures e in Entries(M - {he}) + P {
      if e.0 != he {
        assert e.0 in M - {he};
      }
    }
    assert Entries(M) == Entries(M - {he}) + P;
    assert Entries(M - {he}) * P == {};
    PairsCard(he, M[he].Keys);
    assert |M[he].Keys| == |M[he]|;
  }

  /** One entry of `shape`: `sum([len(M[k]) for k in M])`. It counts every
      `(hyperedge, multiplicity key)` entry of the rank. */
  ghost function EntryCount(M: Layer): (n: nat)
    ensures n == |Entries(M)|
    decreases |M|
  {
    if M.Keys == {} then
      assert Entries(M) == {};
      0
    else
      var he := Pick(M.Keys);
      assert (M - {he}).Keys == M.Keys - {he};
      EntriesSplit(M, he);
      |M[he]| + EntryCount(M - {he})
  }

  /** The entry counts of the ranks in `rs`. */
  ghost function Counts(rs: seq<int>, H: Ranked<Multi>): (s: seq<nat>)
    requires forall i :: 0 <= i < |rs| ==> rs[i] in H
    ensures |s| == |rs|
    ensures forall i :: 0 <= i < |rs| ==> s[i] == |Entries(H[rs[i]])|
  {
    if rs == [] then []
    else
      assert forall i :: 0 <= i < |rs| - 1 ==> rs[1..][i] == rs[i + 1];
      [EntryCount(H[rs[0]])] + Counts(rs[1..], H)
  }

  lemma CountsCons(q: int, ts: seq<int>, H: Ranked<Multi>)
    requires q in H && forall i :: 0 <= i < |ts| ==> ts[i] in H
    ensures Sum(Counts([q] + ts, H)) == |Entries(H[q])| + Sum(Counts(ts, H))
  {
    assert ([q] + ts)[1..] == ts;
  }

  /** `shape`: the number of entries at each stored rank, ascending. */
  ghost function Shape(v: ColoredHyperEdgeView): seq<nat> {
    Counts(AllRanks(v.hyperedges), v.hyperedges)
  }

  /** `__len__` as written: `sum(shape[1:])`, which drops the least stored
      rank whatever it is. */
  ghost function LenAsWritten(v: ColoredHyperEdgeView): nat {
    var s := Shape(v);
    if |s| == 0 then 0 else Sum(s[1..])
  }

  /** The ranks of `rs` other than 0. */
  function WithoutZero(rs: seq<int>): (ts: seq<int>)
    ensures forall i :: 0 <= i < |ts| ==> ts[i] in rs && ts[i] != 0
    ensures forall q :: q in ts <==> q in rs && q != 0
  {
    if rs == [] then []
    else
      var tail := WithoutZero(rs[1..]);
      assert rs == [rs[0]] + rs[1..];
      (if rs[0] == 0 then [] else [rs[0]]) + tail
  }

  /** `__len__` as evidently intended: the entries of every rank except
      rank 0, the rank of the nodes. */
  ghost function Len(v: ColoredHyperEdgeView): nat {
    Sum(Counts(WithoutZero(AllRanks(v.hyperedges)), v.hyperedges))
  }

  /** The iteration loop of `__iter__` over the ranks `rs`: rank 0 is
      skipped, every other rank contributes all its entries. */
  ghost function IterFrom(rs: seq<int>, H: Ranked<Multi>): (es: seq<(set<Label>, int)>)
    requires forall i :: 0 <= i < |rs| ==> rs[i] in H
    ensures forall e :: e in es <==> exists q :: q in rs && q != 0 && e in Entries(H[q])
  {
    if rs == [] then []
    else
      var head := if rs[0] == 0 then [] else Enumerate(Entries(H[rs[0]]));
      var tail := IterFrom(rs[1..], H);
      assert rs == [rs[0]] + rs[1..];
      head + tail
  }

  /** `__iter__`: every `(hyperedge, multiplicity key)` entry of every rank
      except rank 0. */
  ghost function Iter(v: ColoredHyperEdgeView): (es: seq<(set<Label>, int)>)
    ensures forall e :: e in es <==> exists q :: q in v.hyperedges && q != 0 && e in Entries(v.hyperedges[q])
  {
    IterFrom(AllRanks(v.hyperedges), v.hyperedges)
  }

  lemma {:induction false} IterFromLength(rs: seq<int>, H: Ranked<Multi>)
    requires forall i :: 0 <= i < |rs| ==> rs[i] in H
    ensures |IterFrom(rs, H)| == Sum(Counts(WithoutZero(rs), H))
  {
    if rs != [] {
      IterFromLength(rs[1..], H);
      var ts := WithoutZero(rs[1..]);
      var head := if rs[0] == 0 then [] else Enumerate(Entries(H[rs[0]]));
      assert IterFrom(rs, H) == head + IterFrom(rs[1..], H);
      if rs[0] != 0 {
        assert WithoutZero(rs) == [rs[0]] + ts;
        CountsCons(rs[0], ts, H);
      } else {
        assert WithoutZero(rs) == ts;
      }
    }
  }

  /** `__iter__` yields exactly `__len__` entries (the corrected count). */
  lemma IterMatchesLen(v: ColoredHyperEdgeView)
    ensures |Iter(v)| == Len(v)
  {
    IterFromLength(AllRanks(v.hyperedges), v.hyperedges);
  }

  lemma {:induction false} IterFromNoDups(rs: seq<int>, H: Ranked<Multi>)
    requires forall i :: 0 <= i < |rs| ==> rs[i] in H
    requires SingleRank(H) && Increasing(rs)
    ensures NoDups(IterFrom(rs, H))
  {
    if rs != [] {
      var head := if rs[0] == 0 then [] else Enumerate(Entries(H[rs[0]]));
      var tail := IterFrom(rs[1..], H);
      IterFromNoDups(rs[1..], H);
      forall e | e in head ensures e !in tail {
        forall q | q in rs[1..] ensures e !in Entries(H[q]) {
          assert rs[0] < q;
          assert e.0 in H[rs[0]];
        }
      }
      NoDupsConcat(head, tail);
    }
  }

  /** Under the single-rank invariant `__iter__` lists every entry once. */
  lemma IterNoDups(v: ColoredHyperEdgeView)
    requires SingleRank(v.hyperedges)
    ensures NoDups(Iter(v))
  {
    IterFromNoDups(AllRanks(v.hyperedges), v.hyperedges);
  }

  lemma LeadingZeroDropped(rs: seq<int>)
    requires Increasing(rs) && |rs| > 0 && rs[0] == 0
    ensures WithoutZero(rs) == rs[1..]
  {
    NoZero(rs[1..]);
  }

  lemma {:induction false} NoZero(rs: seq<int>)
    requires forall i :: 0 <= i < |rs| ==> rs[i] > 0
    ensures WithoutZero(rs) == rs
  {
    if rs != [] {
      NoZero(rs[1..]);
    }
  }

  lemma LeastRankIsZero(H: Ranked<Multi>)
    requires 0 in H && forall q :: q in H ==> q >= 0
    ensures |AllRanks(H)| > 0 && AllRanks(H)[0] == 0
  {
    var rs := AllRanks(H);
    assert 0 in rs;
    assert rs[0] in H;
    var j :| 0 <= j < |rs| && rs[j] == 0;
    assert rs[0] <= rs[j];
  }

  lemma CountsTail(rs: seq<int>, H: Ranked<Multi>)
    requires rs != [] && forall i :: 0 <= i < |rs| ==> rs[i] in H
    ensures Counts(rs, H)[1..] == Counts(rs[1..], H)
  {
  }

  /** When rank 0 is stored and no rank is negative, the least rank is 0 and
      the as-written `__len__` agrees with the intended one. */
  lemma LenAsWrittenAgrees(v: ColoredHyperEdgeView)
    requires 0 in v.hyperedges && forall q :: q in v.hyperedges ==> q >= 0
    ensures LenAsWritten(v) == Len(v)
  {
    var H := v.hyperedges;
    var rs := AllRanks(H);
    LeastRankIsZero(H);
    LeadingZeroDropped(rs);
    CountsTail(rs, H);
    assert LenAsWritten(v) == Sum(Counts(rs[1..], H));
    assert Len(v) == Sum(Counts(rs[1..], H));
  }

  /** When rank 0 is absent, the as-written `__len__` drops a rank of real
      hyperedges: one hyperedge at rank 1 is iterated, yet `__len__` is 0. */
  lemma LenAsWrittenDropsLeastRank()
    ensures var v := ColoredHyperEdgeView(map[1 := map[{1, 2} := map[0 := map[]]]]);
            LenAsWritten(v) == 0 && |Iter(v)| == 1 && Len(v) == 1
  {
    var v := ColoredHyperEdgeView(map[1 := map[{1, 2} := map[0 := map[]]]]);
    var H := v.hyperedges;
    var rs := AllRanks(H);
    assert |rs| == 1 && rs[0] in H;
    assert rs == [1];
    assert Entries(H[1]) == {({1, 2}, 0)};
    assert Shape(v) == [1];
    assert WithoutZero(rs) == [1];
    IterMatchesLen(v);
  }

  /** `skeleton(rank)` with `store_hyperedge_key`: every `(hyperedge, key)`
      entry at `rank`, each once, or nothing when `rank` is not stored. */
  ghost function SkeletonPairs(v: ColoredHyperEdgeView, rank: int): (r: seq<(set<Label>, int)>)
    ensures forall he, k :: (he, k) in r <==> rank in v.hyperedges && he in v.hyperedges[rank] && k in v.hyperedges[rank][he]
    ensures NoDups(r)
  {
    if rank in v.hyperedges then
      EntriesMembers(v.hyperedges[rank]);
      Enumerate(Entries(v.hyperedges[rank]))
    else []
  }

  /** The hyperedge of each entry, in order. */
  function Firsts(ps: seq<(set<Label>, int)>): (r: seq<set<Label>>)
    ensures |r| == |ps|
    ensures forall i :: 0 <= i < |ps| ==> r[i] == ps[i].0
  {
    if ps == [] then [] else [ps[0].0] + Firsts(ps[1..])
  }

  /** The multiplicity keys listed with `he` in `ps`. */
  ghost function KeysWith(ps: seq<(set<Label>, int)>, he: set<Label>): set<int> {
    set p | p in ps && p.0 == he :: p.1
  }

  lemma KeysWithCons(p: (set<Label>, int), tail: seq<(set<Label>, int)>, he: set<Label>)
    ensures KeysWith([p] + tail, he) == (if p.0 == he then {p.1} else {}) + KeysWith(tail, he)
  {
    var ps := [p] + tail;
    forall k | k in KeysWith(ps, he) ensures k in (if p.0 == he then {p.1} else {}) + KeysWith(tail, he) {
      var e :| e in ps && e.0 == he && e.1 == k;
      if e != p {
        assert e in tail;
      }
    }
    forall k | k in KeysWith(tail, he) ensures k in KeysWith(ps, he) {
      var e :| e in tail && e.0 == he && e.1 == k;
      assert e in ps;
    }
  }

  /** In a list of distinct entries, a hyperedge occurs among the projected
      hyperedges once per multiplicity key listed with it. */
  lemma {:induction false} FirstsCount(ps: seq<(set<Label>, int)>, he: set<Label>)
    requires NoDups(ps)
    ensures multiset(Firsts(ps))[he] == |KeysWith(ps, he)|
  {
    if ps != [] {
      var p, tail := ps[0], ps[1..];
      assert ps == [p] + tail;
      NoDupsTail(ps);
      FirstsCount(tail, he);
      assert Firsts(ps) == [p.0] + Firsts(tail);
      var n := multiset(Firsts(tail))[he];
      KeysWithCons(p, tail, he);
      if p.0 == he {
        assert p.1 !in KeysWith(tail, he) by {
          forall e | e in tail && e.0 == he ensures e.1 != p.1 {
            assert e != p;
          }
        }
        assert multiset(Firsts(ps))[he] == n + 1;
      } else {
        assert multiset(Firsts(ps))[he] == n;
      }
    }
  }

  /** `skeleton(rank, store_hyperedge_key=False)`: the hyperedge of each
      entry at `rank`, so a hyperedge appears once per multiplicity key. */
  ghost function SkeletonKeys(v: ColoredHyperEdgeView, rank: int): (r: seq<set<Label>>)
    ensures |r| == |SkeletonPairs(v, rank)|
    ensures forall i :: 0 <= i < |r| ==> r[i] == SkeletonPairs(v, rank)[i].0
    ensures forall he :: multiset(r)[he] ==
              (if rank in v.hyperedges && he in v.hyperedges[rank] then |v.hyperedges[rank][he]| else 0)
  {
    var ps := SkeletonPairs(v, rank);
    SkeletonKeysCount(v, rank, ps);
    Firsts(ps)
  }

  lemma SkeletonKeysCount(v: ColoredHyperEdgeView, rank: int, ps: seq<(set<Label>, int)>)
    requires ps == SkeletonPairs(v, rank)
    ensures forall he :: multiset(Firsts(ps))[he] ==
              (if rank in v.hyperedges && he in v.hyperedges[rank] then |v.hyperedges[rank][he]| else 0)
  {
    forall he ensures multiset(Firsts(ps))[he] ==
                (if rank in v.hyperedges && he in v.hyperedges[rank] then |v.hyperedges[rank][he]| else 0)
    {
      FirstsCount(ps, he);
      if rank in v.hyperedges && he in v.hyperedges[rank] {
        var M := v.hyperedges[rank][he];
        assert KeysWith(ps, he) == M.Keys by {
          forall k | k in M.Keys ensures k in KeysWith(ps, he) {
            assert (he, k) in ps;
          }
        }
        assert |M.Keys| == |M|;
      } else {
        assert KeysWith(ps, he) == {};
      }
    }
  }

  /** A hyperedge is listed by the key-only skeleton exactly when it is
      stored at `rank` with at least one multiplicity key. */
  lemma SkeletonKeysMembers(v: ColoredHyperEdgeView, rank: int, he: set<Label>)
    ensures he in SkeletonKeys(v, rank) <==>
              rank in v.hyperedges && he in v.hyperedges[rank] && |v.hyperedges[rank][he]| > 0
  {
    var r := SkeletonKeys(v, rank);
    assert he in r <==> he in multiset(r);
  }

  /** `shape` counts what `skeleton` lists: its i-th entry is the number of
      entries the skeleton of the i-th smallest rank returns. */
  lemma ShapeCountsSkeleton(v: ColoredHyperEdgeView, i: int)
    requires 0 <= i < |v.hyperedges|
    ensures |SkeletonPairs(v, AllRanks(v.hyperedges)[i])| == Shape(v)[i]
  {
  }

  /** The first stored rank (ascending) holding `k` has multiplicity key
      `key`: the scan of `__contains__` stops at the first rank holding the
      set-key and answers by that rank alone. */
  ghost predicate FirstRankHas(H: Ranked<Multi>, k: set<Label>, key: int) {
    exists q :: IsLeastRank(H, k, q) && key in H[q][k]
  }

  /** The scan loop of `__contains__`. */
  function KeyAtFirstRank(H: Ranked<Multi>, k: set<Label>, key: int): (b: bool)
    ensures b <==> FirstRankHas(H, k, key)
  {
    match ScanRanks(H, k)
    case Some(q) => key in H[q][k]
    case None => false
  }

  /** `__contains__`. On an empty view or a bare label: false. A list or
      tuple of labels, and a hyperedge object of two labels, ask for
      multiplicity key 0 at the first rank holding the set-key; any other
      hyperedge object only asks whether some rank holds it. An
      `(elements, key)` pair asks for `key` at the first rank holding the
      elements; a pair whose first part is a bare label is read as the
      two-label hyperedge `{label, key}` with key 0. Empty elements are never
      contained. */
  function Contains(v: ColoredHyperEdgeView, x: ColoredItem): (r: bool)
    ensures |v.hyperedges| == 0 ==> !r
    ensures x.Plain? && x.item.Atomic? ==> !r
    ensures x.Plain? && x.item.Collection? ==>
              (r <==> x.item.items != [] && FirstRankHas(v.hyperedges, Elements(x.item.items), 0))
    ensures x.Plain? && x.item.CellObj? && |x.item.elements| == 2 ==>
              (r <==> FirstRankHas(v.hyperedges, x.item.elements, 0))
    ensures x.Plain? && x.item.CellObj? && |x.item.elements| != 2 ==>
              (r <==> x.item.elements != {} && Stored(v.hyperedges, x.item.elements))
    ensures x.Pair? && x.part.Atomic? ==>
              (r <==> FirstRankHas(v.hyperedges, {x.part.atom, x.key}, 0))
    ensures x.Pair? && !x.part.Atomic? ==>
              (r <==> ToFrozenSet(x.part) != {} && FirstRankHas(v.hyperedges, ToFrozenSet(x.part), x.key))
  {
    var H := v.hyperedges;
    if |H| == 0 then false
    else match x
      case Plain(Atomic(_)) => false
      case Plain(Collection(xs)) => |xs| != 0 && KeyAtFirstRank(H, Elements(xs), 0)
      case Plain(CellObj(e)) =>
        if |e| == 0 then false
        else if |e| == 2 then KeyAtFirstRank(H, e, 0)
        else ScanRanks(H, e).Some?
      case Pair(Atomic(l), key) => KeyAtFirstRank(H, {l, key}, 0)
      case Pair(p, key) =>
        var k := ToFrozenSet(p);
        |k| != 0 && KeyAtFirstRank(H, k, key)
  }

  /** `__getitem__`. The input must be a two-element list or tuple: Python
      leaves any other shape with an unbound variable. A pair of
      (elements, integer key) returns the record stored under `key` for the
      elements at their rank; a two-element list of labels, and a pair whose
      first part is a bare label, raise KeyError, as does a hyperedge or key
      that is not stored. */
  function GetItem(v: ColoredHyperEdgeView, x: ColoredItem): (r: Result<Attr>)
    requires x.Pair? || (x.Plain? && x.item.Collection? && |x.item.items| == 2)
    ensures x.Plain? || x.part.Atomic? ==> r == Err(KeyError)
    ensures var H := v.hyperedges;
            x.Pair? && !x.part.Atomic? && ToFrozenSet(x.part) != {} ==>
              (r.Ok? <==> FirstRankHas(H, ToFrozenSet(x.part), x.key))
    ensures var H := v.hyperedges;
            x.Pair? && !x.part.Atomic? && ToFrozenSet(x.part) == {} ==>
              (r.Ok? <==> 0 in H && {} in H[0] && x.key in H[0][{}])
    ensures var H := v.hyperedges;
            r.Ok? ==> exists q :: q in H && ToFrozenSet(x.part) in H[q] && x.key in H[q][ToFrozenSet(x.part)]
                                 && r.value == H[q][ToFrozenSet(x.part)][x.key]
    ensures var H := v.hyperedges;
            x.Pair? && !x.part.Atomic? && ToFrozenSet(x.part) != {} ==>
              forall q :: IsLeastRank(H, ToFrozenSet(x.part), q) ==>
                (r.Ok? <==> x.key in H[q][ToFrozenSet(x.part)])
                && (r.Ok? ==> r.value == H[q][ToFrozenSet(x.part)][x.key])
    ensures var H := v.hyperedges;
            x.Pair? && !x.part.Atomic? && ToFrozenSet(x.part) == {} && r.Ok? ==> r.value == H[0][{}][x.key]
    ensures r.Err? ==> r.error == KeyError
  {
    var H := v.hyperedges;
    match x
    case Plain(_) => Err(KeyError)
    case Pair(Atomic(_), _) => Err(KeyError)
    case Pair(p, key) =>
      var k := ToFrozenSet(p);
      match RankOf(H, k)
      case Err(e) => Err(e)
      case Ok(q) =>
        if q in H && k in H[q] && key in H[q][k] then Ok(H[q][k][key]) else Err(KeyError)
  }

  /** For an `(elements, key)` pair with non-empty elements, membership and
      retrieval agree: the pair is contained exactly when `__getitem__`
      returns a record. */
  lemma ContainsIffGetItem(v: ColoredHyperEdgeView, p: Item<set<Label>>, key: int)
    requires !p.Atomic? && ToFrozenSet(p) != {}
    ensures Contains(v, Pair(p, key)) <==> GetItem(v, Pair(p, key)).Ok?
  {
  }

  /** Under the single-rank invariant the first rank holding a key is its
      only rank. */
  lemma FirstRankHasSingle(H: Ranked<Multi>, k: set<Label>, key: int)
    requires SingleRank(H)
    ensures FirstRankHas(H, k, key) <==> exists q :: q in H && k in H[q] && key in H[q][k]
  {
    if exists q :: q in H && k in H[q] && key in H[q][k] {
      var q :| q in H && k in H[q] && key in H[q][k];
      LeastRankUnique(H, k, q);
    }
  }

  /** Under the single-rank invariant an `(elements, key)` pair is contained
      exactly when its entry appears in the skeleton of some rank. */
  lemma ContainsIffInSkeleton(v: ColoredHyperEdgeView, he: set<Label>, key: int)
    requires SingleRank(v.hyperedges) && he != {}
    ensures Contains(v, Pair(CellObj(he), key)) <==> exists q :: (he, key) in SkeletonPairs(v, q)
  {
    var H := v.hyperedges;
    var c := Contains(v, Pair(CellObj(he), key));
    assert c <==> FirstRankHas(H, he, key);
    FirstRankHasSingle(H, he, key);
    if exists q :: (he, key) in SkeletonPairs(v, q) {
      var q :| (he, key) in SkeletonPairs(v, q);
      assert q in H && he in H[q] && key in H[q][he];
    }
    if exists q :: q in H && he in H[q] && key in H[q][he] {
      var q :| q in H && he in H[q] && key in H[q][he];
      assert (he, key) in SkeletonPairs(v, q);
    }
  }
}
