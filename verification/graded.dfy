/** The dimension-indexed registry shared by `SimplexView` and `PathView`
    (`faces_dict`): layer `i` maps keys of size `i + 1` to attribute records,
    so the rank of a key is derived from its size and never searched for. */
module Graded {
  import opened Results
  import opened Keys
  import opened Collections

  /** `faces_dict[n - 1]`, Python indexing included: `n == 0` names the last
      layer (index -1), and an index past either end raises IndexError. */
  function Slot<K(==)>(faces: seq<map<K, Attr>>, n: nat): (r: Result<map<K, Attr>>)
    ensures r.Err? <==> n > |faces| || (n == 0 && faces == [])
    ensures r.Err? ==> r.error == IndexError
    ensures r.Ok? && n > 0 ==> r.value == faces[n - 1]
    ensures r.Ok? && n == 0 ==> r.value == faces[|faces| - 1]
  {
    if n > |faces| then Err(IndexError)
    else if n == 0 then (if faces == [] then Err(IndexError) else Ok(faces[|faces| - 1]))
    else Ok(faces[n - 1])
  }

  /** `shape`: the number of keys in each layer. */
  function Shape<K(==)>(faces: seq<map<K, Attr>>): (s: seq<nat>)
    ensures |s| == |faces|
    ensures forall i :: 0 <= i < |faces| ==> s[i] == |faces[i]|
  {
    if faces == [] then [] else [|faces[0]|] + Shape(faces[1..])
  }

  /** `__len__`: the sum of `shape`. */
  function Len<K(==)>(faces: seq<map<K, Attr>>): nat {
    Sum(Shape(faces))
  }

  /** Every key stored in some layer: what `__iter__` yields. */
  ghost function AllKeys<K(!new)>(faces: seq<map<K, Attr>>): (ks: set<K>)
    ensures forall k :: k in ks <==> exists i :: 0 <= i < |faces| && k in faces[i]
  {
    if faces == [] then {}
    else
      var rest := AllKeys(faces[1..]);
      AllKeysStep(faces, rest);
      faces[0].Keys + rest
  }

  lemma AllKeysStep<K(!new)>(faces: seq<map<K, Attr>>, rest: set<K>)
    requires faces != []
    requires forall k :: k in rest <==> exists i :: 0 <= i < |faces[1..]| && k in faces[1..][i]
    ensures forall k :: k in faces[0].Keys + rest <==> exists i :: 0 <= i < |faces| && k in faces[i]
  {
    forall k | k in rest ensures exists i :: 0 <= i < |faces| && k in faces[i] {
      var i :| 0 <= i < |faces[1..]| && k in faces[1..][i];
      assert faces[i + 1] == faces[1..][i];
    }
    forall k | exists i :: 0 <= i < |faces| && k in faces[i]
      ensures k in faces[0].Keys + rest
    {
      var i :| 0 <= i < |faces| && k in faces[i];
      if i > 0 {
        assert faces[1..][i - 1] == faces[i];
      }
    }
  }

  /** No key is stored in two layers. */
  ghost predicate Disjoint<K>(faces: seq<map<K, Attr>>) {
    forall i, j, k :: 0 <= i < j < |faces| && k in faces[i] ==> k !in faces[j]
  }

  /** When no key sits in two layers, `__len__` counts the distinct stored
      keys: `len(view)` equals the number of keys iteration yields. */
  lemma {:induction false} LenCountsKeys<K(!new)>(faces: seq<map<K, Attr>>)
    requires Disjoint(faces)
    ensures Len(faces) == |AllKeys(faces)|
  {
    if faces != [] {
      var tail := faces[1..];
      assert Disjoint(tail) by {
        forall i, j, k | 0 <= i < j < |tail| && k in tail[i] ensures k !in tail[j] {
          assert tail[i] == faces[i + 1] && tail[j] == faces[j + 1];
        }
      }
      LenCountsKeys(tail);
      assert Shape(faces)[1..] == Shape(tail);
      forall k | k in faces[0].Keys ensures k !in AllKeys(tail) {
        forall i | 0 <= i < |tail| ensures k !in tail[i] {
          assert tail[i] == faces[i + 1];
        }
      }
      assert faces[0].Keys * AllKeys(tail) == {};
      assert |faces[0].Keys| == |faces[0]|;
    }
  }
}
