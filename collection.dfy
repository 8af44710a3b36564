/**
 * What the animal store and the employee store share: the outcomes a handler
 * can end with, and the logic both apply to the sequence of record ids
 * (first-match lookup, the "last id + 1" assignment, removal at an index).
 */
module Collection {
  import opened Wrappers

  /** The typed failures a handler can end with. */
  datatype Error =
    | NotFound    // no record has the requested id (404)
    | Validation  // the payload is missing, empty or lacks the required key (400)
    | Duplicate   // the unique key is already taken (animals: 200 + message, employees: 400)

  datatype Result<+T> = Ok(value: T) | Err(error: Error)

  /** Position of the first id equal to `x`, scanning from the front. */
  function FirstIndex(ids: seq<int>, x: int): (r: Option<nat>)
    ensures r.Some? ==> r.value < |ids| && ids[r.value] == x
    ensures r.Some? ==> forall j :: 0 <= j < r.value ==> ids[j] != x
    ensures r.None? <==> x !in ids
  {
    if |ids| == 0 then None
    else if ids[0] == x then Some(0)
    else
      match FirstIndex(ids[1..], x)
      case None => assert ids == [ids[0]] + ids[1..]; None
      case Some(k) => Some(k + 1)
  }

  /** The id the store gives a new record: one more than the LAST record's id, or 1 when there is none. */
  function NextId(ids: seq<int>): (r: int) {
    if |ids| == 0 then 1 else ids[|ids| - 1] + 1
  }

  /** Ids appear in strictly increasing order along the collection. */
  ghost predicate Increasing(ids: seq<int>) {
    forall i, j :: 0 <= i < j < |ids| ==> ids[i] < ids[j]
  }

  /** No id occurs twice. */
  ghost predicate Unique(ids: seq<int>) {
    forall i, j :: 0 <= i < |ids| && 0 <= j < |ids| && i != j ==> ids[i] != ids[j]
  }

  /** The sequence without its element at `k`; the others keep their order. */
  function RemoveAt<T>(s: seq<T>, k: nat): (r: seq<T>)
    requires k < |s|
    ensures |r| == |s| - 1
    ensures forall i :: 0 <= i < k ==> r[i] == s[i]
    ensures forall i :: k <= i < |r| ==> r[i] == s[i + 1]
  {
    s[..k] + s[k + 1..]
  }

  lemma IncreasingIsUnique(ids: seq<int>)
    requires Increasing(ids)
    ensures Unique(ids)
  {
    forall i, j | 0 <= i < |ids| && 0 <= j < |ids| && i != j
      ensures ids[i] != ids[j]
    {
      if i < j { assert ids[i] < ids[j]; } else { assert ids[j] < ids[i]; }
    }
  }

  /** On unique ids, the first match is the only match. */
  lemma FirstIndexOfUnique(ids: seq<int>, k: nat)
    requires Unique(ids) && k < |ids|
    ensures FirstIndex(ids, ids[k]) == Some(k)
  {
    assert ids[k] in ids;
    var r := FirstIndex(ids, ids[k]);
    assert ids[r.value] == ids[k];
  }

  /** On increasing ids, the next id is larger than every id already there, so it is fresh. */
  lemma NextIdIsFresh(ids: seq<int>)
    requires Increasing(ids)
    ensures forall i :: 0 <= i < |ids| ==> ids[i] < NextId(ids)
    ensures NextId(ids) !in ids
  {
    forall i | 0 <= i < |ids| ensures ids[i] < NextId(ids) {
      if i < |ids| - 1 { assert ids[i] < ids[|ids| - 1]; }
    }
  }

  /** Appending the next id keeps ids increasing. */
  lemma AppendNextIdIncreasing(ids: seq<int>)
    requires Increasing(ids)
    ensures Increasing(ids + [NextId(ids)])
  {
    NextIdIsFresh(ids);
    var ids' := ids + [NextId(ids)];
    forall i, j | 0 <= i < j < |ids'| ensures ids'[i] < ids'[j] {
      assert ids'[i] == ids[i];
      if j < |ids| { assert ids'[j] == ids[j]; }
    }
  }

  /** A lookup of a freshly appended id finds the appended position. */
  lemma FirstIndexAfterAppend(ids: seq<int>, x: int)
    requires x !in ids
    ensures FirstIndex(ids + [x], x) == Some(|ids|)
  {
    var ids' := ids + [x];
    assert forall j :: 0 <= j < |ids| ==> ids'[j] == ids[j];
    assert ids'[|ids|] == x;
  }

  /** Removing one id keeps ids increasing. */
  lemma RemoveAtIncreasing(ids: seq<int>, k: nat)
    requires Increasing(ids) && k < |ids|
    ensures Increasing(RemoveAt(ids, k))
  {
    var r := RemoveAt(ids, k);
    forall i, j | 0 <= i < j < |r| ensures r[i] < r[j] {
      var i' := if i < k then i else i + 1;
      var j' := if j < k then j else j + 1;
      assert r[i] == ids[i'] && r[j] == ids[j'] && i' < j';
    }
  }

  /** On unique ids, after removing the record with id `x` no id `x` is left. */
  lemma RemoveAtUniqueAbsent(ids: seq<int>, k: nat)
    requires Unique(ids) && k < |ids|
    ensures FirstIndex(RemoveAt(ids, k), ids[k]).None?
  {
    var r := RemoveAt(ids, k);
    forall i | 0 <= i < |r| ensures r[i] != ids[k] {
      if i < k { assert r[i] == ids[i]; } else { assert r[i] == ids[i + 1]; }
    }
  }

  /** Removing one id keeps unique ids unique. */
  lemma RemoveAtUnique(ids: seq<int>, k: nat)
    requires Unique(ids) && k < |ids|
    ensures Unique(RemoveAt(ids, k))
  {
    var r := RemoveAt(ids, k);
    forall i, j | 0 <= i < |r| && 0 <= j < |r| && i != j ensures r[i] != r[j] {
      var i' := if i < k then i else i + 1;
      var j' := if j < k then j else j + 1;
      assert r[i] == ids[i'] && r[j] == ids[j'] && i' != j';
    }
  }
}
