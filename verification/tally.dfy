/**
 * A poll's `answers` object: answer text -> number of votes. JavaScript objects
 * keep string keys in insertion order, so the tally is an association list
 * with distinct keys; a key that was never voted for reads as 0.
 */
module Tally {
  import opened Wrappers

  datatype Entry = Entry(option: string, count: nat)

  type Tally = seq<Entry>

  ghost predicate DistinctKeys(t: Tally) {
    forall i, j :: 0 <= i < j < |t| ==> t[i].option != t[j].option
  }

  /** Where `key` sits in the tally, if it is there. */
  function Find(t: Tally, key: string): (r: Option<nat>)
    ensures r.Some? ==> r.value < |t| && t[r.value].option == key
    ensures r.None? ==> forall i :: 0 <= i < |t| ==> t[i].option != key
  {
    if t == [] then None
    else if t[0].option == key then Some(0)
    else match Find(t[1..], key)
      case None => None
      case Some(i) => Some(i + 1)
  }

  /** `answers[key]`, with an absent key read as 0. */
  function Count(t: Tally, key: string): nat {
    match Find(t, key)
    case None => 0
    case Some(i) => t[i].count
  }

  /** `Object.values(answers).reduce((a, b) => a + b, 0)`. */
  function Sum(t: Tally): nat {
    if t == [] then 0 else Sum(t[..|t| - 1]) + t[|t| - 1].count
  }

  /** `if (!answers[key]) answers[key] = 0; answers[key]++`: an existing key keeps its
      place, a new key goes at the end. */
  function Bump(t: Tally, key: string): Tally {
    match Find(t, key)
    case Some(i) => t[i := t[i].(count := t[i].count + 1)]
    case None => t + [Entry(key, 1)]
  }

  /** Every key keeps its place; a new key is appended with one vote. */
  lemma BumpKeepsOrder(t: Tally, key: string)
    ensures var r := Bump(t, key);
            && |r| == (if Find(t, key).Some? then |t| else |t| + 1)
            && (forall i :: 0 <= i < |t| ==> r[i].option == t[i].option)
            && (|r| > |t| ==> r[|t|] == Entry(key, 1))
  {
  }

  /** Raising the count of `key` by one leaves every other key's count alone, keeps the keys
      distinct, and adds nothing but `key`. */
  lemma BumpCounts(t: Tally, key: string)
    requires DistinctKeys(t)
    ensures DistinctKeys(Bump(t, key))
    ensures Count(Bump(t, key), key) == Count(t, key) + 1
    ensures forall k :: k != key ==> Count(Bump(t, key), k) == Count(t, k)
    ensures forall i :: 0 <= i < |Bump(t, key)| ==> Bump(t, key)[i].option == key || Find(t, Bump(t, key)[i].option).Some?
  {
    var b := Bump(t, key);
    match Find(t, key)
    case Some(i) =>
      forall k | k != key ensures Count(b, k) == Count(t, k) {
        FindUnique(b, k, Find(t, k));
      }
      FindUnique(b, key, Some(i));
    case None =>
      forall k | k != key ensures Count(b, k) == Count(t, k) {
        FindUnique(b, k, Find(t, k));
      }
      FindUnique(b, key, Some(|t|));
  }

  /** With distinct keys, the position of a key is determined by the entries. */
  lemma FindUnique(t: Tally, key: string, r: Option<nat>)
    requires DistinctKeys(t)
    requires r.Some? ==> r.value < |t| && t[r.value].option == key
    requires r.None? ==> forall i :: 0 <= i < |t| ==> t[i].option != key
    ensures Find(t, key) == r
  {
    var f := Find(t, key);
    if f.Some? && r.Some? {
      assert f.value == r.value;
    }
  }

  /** The total grows by exactly one vote. */
  lemma {:induction false} BumpSum(t: Tally, key: string)
    ensures Sum(Bump(t, key)) == Sum(t) + 1
  {
    match Find(t, key)
    case Some(i) => SumUpdate(t, i, t[i].(count := t[i].count + 1));
    case None => assert (t + [Entry(key, 1)])[..|t|] == t;
  }

  /** Replacing one entry changes the total by the difference of the counts. */
  lemma {:induction false} SumUpdate(t: Tally, i: nat, e: Entry)
    requires i < |t|
    ensures Sum(t[i := e]) == Sum(t) - t[i].count + e.count
    decreases |t|
  {
    var u := t[i := e];
    if i < |t| - 1 {
      assert u[..|u| - 1] == t[..|t| - 1][i := e];
      SumUpdate(t[..|t| - 1], i, e);
    } else {
      assert u[..|u| - 1] == t[..|t| - 1];
    }
  }

  /** No single answer has more votes than the total. */
  lemma {:induction false} CountAtMostSum(t: Tally, key: string)
    ensures Count(t, key) <= Sum(t)
    decreases |t|
  {
    match Find(t, key)
    case None =>
    case Some(i) => EntryAtMostSum(t, i);
  }

  lemma {:induction false} EntryAtMostSum(t: Tally, i: nat)
    requires i < |t|
    ensures t[i].count <= Sum(t)
    decreases |t|
  {
    if i < |t| - 1 {
      EntryAtMostSum(t[..|t| - 1], i);
    }
  }
}
