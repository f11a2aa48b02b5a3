/**
 * Operations on a roster, a sequence of `Student` entries. The server keeps its
 * `students` Map in insertion order (`Array.from(students.values())`); the
 * client views keep plain arrays.
 */
module Roster {
  import opened Wrappers
  import opened Protocol

  ghost predicate DistinctIds(s: seq<Student>) {
    forall i, j :: 0 <= i < j < |s| ==> s[i].id != s[j].id
  }

  /** Where the entry for `id` is, if there is one (`students.has(id)` / `prev.find(...)`). */
  function IndexOfId(s: seq<Student>, id: ConnectionId): (r: Option<nat>)
    ensures r.Some? ==> r.value < |s| && s[r.value].id == id
    ensures r.Some? ==> forall j :: 0 <= j < r.value ==> s[j].id != id
    ensures r.None? ==> forall j :: 0 <= j < |s| ==> s[j].id != id
  {
    if s == [] then None
    else if s[0].id == id then Some(0)
    else match IndexOfId(s[1..], id)
      case None => None
      case Some(i) => Some(i + 1)
  }

  /** `students.set(st.id, st)`: replaces the entry in place, or appends a new one. */
  function Upsert(s: seq<Student>, st: Student): (r: seq<Student>)
    requires DistinctIds(s)
    ensures DistinctIds(r)
    ensures IndexOfId(s, st.id).Some? ==> |r| == |s| && r == s[IndexOfId(s, st.id).value := st]
    ensures IndexOfId(s, st.id).None? ==> r == s + [st]
  {
    match IndexOfId(s, st.id)
    case Some(i) => s[i := st]
    case None => s + [st]
  }

  /** After `set`, the id maps to the new entry, every other entry is as before, and
      nothing but the new entry was added. */
  lemma UpsertEntries(s: seq<Student>, st: Student)
    requires DistinctIds(s)
    ensures st in Upsert(s, st)
    ensures forall x :: x in Upsert(s, st) ==> x == st || x in s
    ensures forall x :: x in s && x.id != st.id ==> x in Upsert(s, st)
    ensures forall x :: x in Upsert(s, st) && x.id == st.id ==> x == st
  {
    var r := Upsert(s, st);
    if IndexOfId(s, st.id).Some? {
      assert r[IndexOfId(s, st.id).value] == st;
    } else {
      assert r[|s|] == st;
    }
    forall x | x in r && x.id == st.id ensures x == st {
      var k :| 0 <= k < |r| && r[k] == x;
      if IndexOfId(s, st.id).Some? {
        assert k == IndexOfId(s, st.id).value;
      } else {
        assert k == |s|;
      }
    }
    forall x | x in s && x.id != st.id ensures x in r {
      var k :| 0 <= k < |s| && s[k] == x;
      assert r[k] == x;
    }
  }

  /** `a` is `b` with some entries dropped and the rest in their order. */
  ghost predicate IsSubsequence<T>(a: seq<T>, b: seq<T>)
    decreases |b|
  {
    if a == [] then true
    else if b == [] then false
    else (a[0] == b[0] && IsSubsequence(a[1..], b[1..])) || IsSubsequence(a, b[1..])
  }

  /** `filter(s => s.id !== id)`: the client views' removal, and `students.delete(id)`
      on a roster whose ids are distinct. */
  function WithoutId(s: seq<Student>, id: ConnectionId): (r: seq<Student>)
    ensures forall x :: x in r ==> x in s && x.id != id
    ensures forall x :: x in s && x.id != id ==> x in r
    ensures |r| <= |s|
    ensures forall x :: multiset(r)[x] == if x.id == id then 0 else multiset(s)[x]
    ensures IsSubsequence(r, s)
  {
    if s == [] then []
    else
      assert s == [s[0]] + s[1..];
      var rest := WithoutId(s[1..], id);
      if s[0].id == id then rest
      else
        assert ([s[0]] + rest)[1..] == rest;
        [s[0]] + rest
  }

  /** Removing keeps the order of the remaining entries, keeps ids distinct and, when the
      id was present, shortens the roster by exactly one. */
  lemma WithoutIdRemovesOne(s: seq<Student>, id: ConnectionId)
    requires DistinctIds(s)
    ensures DistinctIds(WithoutId(s, id))
    ensures IndexOfId(s, id).Some? ==>
              var k := IndexOfId(s, id).value;
              WithoutId(s, id) == s[..k] + s[k + 1..] && |WithoutId(s, id)| == |s| - 1
    ensures IndexOfId(s, id).None? ==> WithoutId(s, id) == s
  {
    match IndexOfId(s, id)
    case None => WithoutIdAbsent(s, id);
    case Some(k) =>
      WithoutIdAt(s, id, k);
      SkipKeepsIdsDistinct(s, k);
  }

  /** Skipping index `k > 0` of `s` is keeping the head and skipping `k - 1` of the tail. */
  lemma SkipAfterHead<T>(s: seq<T>, k: nat)
    requires 0 < k < |s|
    ensures [s[0]] + (s[1..][..k - 1] + s[1..][k..]) == s[..k] + s[k + 1..]
  {
    assert s[..k] == [s[0]] + s[1..][..k - 1];
    assert s[k + 1..] == s[1..][k..];
  }

  /** Dropping the entry at `k` keeps the remaining ids distinct. */
  lemma SkipKeepsIdsDistinct(s: seq<Student>, k: nat)
    requires DistinctIds(s) && k < |s|
    ensures DistinctIds(s[..k] + s[k + 1..])
  {
    var r := s[..k] + s[k + 1..];
    assert forall i :: 0 <= i < k ==> r[i] == s[i];
    assert forall i :: k <= i < |r| ==> r[i] == s[i + 1];
  }

  lemma {:induction false} WithoutIdAbsent(s: seq<Student>, id: ConnectionId)
    requires forall j :: 0 <= j < |s| ==> s[j].id != id
    ensures WithoutId(s, id) == s
    decreases |s|
  {
    if s != [] {
      WithoutIdAbsent(s[1..], id);
    }
  }

  lemma {:induction false} WithoutIdAt(s: seq<Student>, id: ConnectionId, k: nat)
    requires DistinctIds(s)
    requires k < |s| && s[k].id == id
    ensures WithoutId(s, id) == s[..k] + s[k + 1..]
    decreases |s|
  {
    var t := s[1..];
    if k == 0 {
      assert forall j :: 0 <= j < |t| ==> t[j] == s[j + 1];
      WithoutIdAbsent(t, id);
    } else {
      assert s[0].id != id;
      WithoutIdAt(t, id, k - 1);
      SkipAfterHead(s, k);
    }
  }

  /** The client views' `student-joined` merge: append unless an entry with that id exists. */
  function AppendIfAbsent(s: seq<Student>, st: Student): (r: seq<Student>)
    ensures IndexOfId(s, st.id).Some? ==> r == s
    ensures IndexOfId(s, st.id).None? ==> r == s + [st]
  {
    if IndexOfId(s, st.id).Some? then s else s + [st]
  }

  /** The merge never duplicates an id, and afterwards the id is present. */
  lemma AppendIfAbsentKeepsIdsDistinct(s: seq<Student>, st: Student)
    requires DistinctIds(s)
    ensures DistinctIds(AppendIfAbsent(s, st))
    ensures IndexOfId(AppendIfAbsent(s, st), st.id).Some?
  {
    var r := AppendIfAbsent(s, st);
    if IndexOfId(s, st.id).None? {
      assert r[|s|].id == st.id;
    } else {
      assert r[IndexOfId(s, st.id).value].id == st.id;
    }
  }

  /** `Array.from(students.values()).filter(s => s.hasAnswered).length`. */
  function CountAnswered(s: seq<Student>): (n: nat)
    ensures n <= |s|
  {
    if s == [] then 0 else CountAnswered(s[..|s| - 1]) + (if s[|s| - 1].hasAnswered then 1 else 0)
  }

  /** The count reaches the roster size exactly when every entry has answered. */
  lemma {:induction false} CountAnsweredAll(s: seq<Student>)
    ensures CountAnswered(s) == |s| <==> forall i :: 0 <= i < |s| ==> s[i].hasAnswered
    decreases |s|
  {
    if s != [] {
      CountAnsweredAll(s[..|s| - 1]);
      assert forall i :: 0 <= i < |s| - 1 ==> s[..|s| - 1][i] == s[i];
    }
  }

  /** The grace-close trigger: a non-empty roster whose every entry has answered. */
  predicate AllAnswered(s: seq<Student>) {
    CountAnswered(s) == |s| && |s| > 0
  }

  /** `student.hasAnswered = false; student.answer = null`. */
  function Cleared(st: Student): Student {
    st.(hasAnswered := false, answer := None)
  }

  /** The effect of the reset loop on the whole roster. */
  function ResetAll(s: seq<Student>): (r: seq<Student>)
    ensures |r| == |s|
  {
    seq(|s|, i requires 0 <= i < |s| => Cleared(s[i]))
  }

  /** After the reset nobody has answered and no answer is held; ids, names, join times
      and order are unchanged. */
  lemma {:induction false} ResetAllClears(s: seq<Student>)
    ensures CountAnswered(ResetAll(s)) == 0
    ensures forall i :: 0 <= i < |s| ==> ResetAll(s)[i].id == s[i].id && ResetAll(s)[i].name == s[i].name
    ensures forall i :: 0 <= i < |s| ==>
      !ResetAll(s)[i].hasAnswered && ResetAll(s)[i].answer.None? && ResetAll(s)[i].joinedAt == s[i].joinedAt
    ensures DistinctIds(s) ==> DistinctIds(ResetAll(s))
    decreases |s|
  {
    if s != [] {
      assert ResetAll(s)[..|s| - 1] == ResetAll(s[..|s| - 1]);
      ResetAllClears(s[..|s| - 1]);
    }
  }

  /** A submit: the entry at `i` now carries the answer. */
  function MarkAnswered(s: seq<Student>, i: nat, answer: string): (r: seq<Student>)
    requires i < |s|
    ensures |r| == |s|
    ensures r[i] == s[i].(hasAnswered := true, answer := Some(answer))
    ensures forall j :: 0 <= j < |s| && j != i ==> r[j] == s[j]
  {
    s[i := s[i].(hasAnswered := true, answer := Some(answer))]
  }

  /** Marking an entry that had not answered raises the answered count by exactly one. */
  lemma {:induction false} MarkAnsweredCount(s: seq<Student>, i: nat, answer: string)
    requires i < |s| && !s[i].hasAnswered
    ensures CountAnswered(MarkAnswered(s, i, answer)) == CountAnswered(s) + 1
    decreases |s|
  {
    var r := MarkAnswered(s, i, answer);
    if i < |s| - 1 {
      assert r[..|r| - 1] == MarkAnswered(s[..|s| - 1], i, answer);
      MarkAnsweredCount(s[..|s| - 1], i, answer);
    } else {
      assert r[..|r| - 1] == s[..|s| - 1];
    }
  }

  /** Replacing an entry by one that has not answered never raises the answered count. */
  lemma {:induction false} ReplaceUnansweredCount(s: seq<Student>, i: nat, st: Student)
    requires i < |s| && !st.hasAnswered
    ensures CountAnswered(s[i := st]) <= CountAnswered(s)
    decreases |s|
  {
    var r := s[i := st];
    if i < |s| - 1 {
      assert r[..|r| - 1] == s[..|s| - 1][i := st];
      ReplaceUnansweredCount(s[..|s| - 1], i, st);
    } else {
      assert r[..|r| - 1] == s[..|s| - 1];
    }
  }

  /** Removing entries never raises the answered count. */
  lemma {:induction false} WithoutIdCount(s: seq<Student>, id: ConnectionId)
    ensures CountAnswered(WithoutId(s, id)) <= CountAnswered(s)
    decreases |s|
  {
    if s != [] {
      WithoutIdCount(s[1..], id);
      CountAnsweredFront(s);
      if s[0].id != id {
        CountAnsweredFront([s[0]] + WithoutId(s[1..], id));
        assert ([s[0]] + WithoutId(s[1..], id))[1..] == WithoutId(s[1..], id);
      }
    }
  }

  /** The answered count, taken from the front. */
  lemma {:induction false} CountAnsweredFront(s: seq<Student>)
    requires s != []
    ensures CountAnswered(s) == (if s[0].hasAnswered then 1 else 0) + CountAnswered(s[1..])
    decreases |s|
  {
    if |s| > 1 {
      CountAnsweredFront(s[..|s| - 1]);
      assert s[..|s| - 1][1..] == s[1..][..|s| - 2];
    }
  }
}
