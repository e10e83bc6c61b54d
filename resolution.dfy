/** A student's completed responses: which records they are, the instant each
    was completed at, and the order the reporter puts them in. */
module Resolution {
  import opened Records

  /** str_replace("/", "-", s): every '/' becomes '-', nothing else changes. */
  function Normalize(s: string): (t: string)
    ensures |t| == |s|
    ensures '/' !in t
    ensures forall i :: 0 <= i < |s| && s[i] != '/' ==> t[i] == s[i]
    ensures forall i :: 0 <= i < |s| && s[i] == '/' ==> t[i] == '-'
  {
    if s == [] then []
    else [if s[0] == '/' then '-' else s[0]] + Normalize(s[1..])
  }

  /** Normalizing twice is normalizing once. */
  lemma NormalizeIdempotent(s: string)
    ensures Normalize(Normalize(s)) == Normalize(s)
  {
    var t := Normalize(s);
    assert forall i :: 0 <= i < |t| ==> Normalize(t)[i] == t[i];
  }

  /** Two dates written with '/' and '-' in any mix of places normalize to the
      same text, so strtotime reads them as the same instant. */
  lemma SeparatorsAgree(a: string, b: string)
    requires |a| == |b|
    requires forall i :: 0 <= i < |a| ==> a[i] == b[i] || (a[i] in "/-" && b[i] in "/-")
    ensures Normalize(a) == Normalize(b)
  {
    var na, nb := Normalize(a), Normalize(b);
    assert forall i :: 0 <= i < |na| ==> na[i] == nb[i];
  }

  /** A text without '/' is left as it is. */
  lemma NormalizeKeepsDashed(s: string)
    requires '/' !in s
    ensures Normalize(s) == s
  {
    var t := Normalize(s);
    assert forall i :: 0 <= i < |t| ==> t[i] == s[i];
  }

  /** Normalizing works piece by piece. */
  lemma {:induction false} NormalizeAppend(a: string, b: string)
    ensures Normalize(a + b) == Normalize(a) + Normalize(b)
  {
    if a != [] {
      assert (a + b)[0] == a[0] && (a + b)[1..] == a[1..] + b;
      NormalizeAppend(a[1..], b);
    }
  }

  /** The date format of the reporter's data: a day and a month followed by
      '/' ("16/12/2021 10:46:00") read as the same text with '-' in their place
      ("16-12-2021 10:46:00"). */
  lemma NormalizeDate(day: string, month: string, rest: string)
    requires '/' !in day && '/' !in month && '/' !in rest
    ensures Normalize(day + "/" + month + "/" + rest) == day + "-" + month + "-" + rest
  {
    var slash := "/";
    assert Normalize(slash) == "-";
    NormalizeKeepsDashed(day);
    NormalizeKeepsDashed(month);
    NormalizeKeepsDashed(rest);
    NormalizeAppend(day, slash);
    NormalizeAppend(day + slash, month);
    NormalizeAppend(day + slash + month, slash);
    NormalizeAppend(day + slash + month + slash, rest);
  }

  predicate AllCompleted(rs: seq<StudentResponse>)
  {
    forall r :: r in rs ==> r.completed.Some?
  }

  /** The instant a response was completed at: its `completed` text with '/'
      replaced by '-', read by strtotime (which the model leaves uninterpreted). */
  function CompletedAt(strtotime: string -> int, r: StudentResponse): int
    requires r.completed.Some?
  {
    strtotime(Normalize(r.completed.value))
  }

  /** Non-decreasing by completion instant. */
  predicate SortedByCompletion(strtotime: string -> int, rs: seq<StudentResponse>)
  {
    AllCompleted(rs) &&
    forall i :: 0 < i < |rs| ==> CompletedAt(strtotime, rs[i - 1]) <= CompletedAt(strtotime, rs[i])
  }

  lemma {:induction false} SortedBetween(strtotime: string -> int, rs: seq<StudentResponse>, i: nat, j: nat)
    requires SortedByCompletion(strtotime, rs) && i <= j < |rs|
    ensures CompletedAt(strtotime, rs[i]) <= CompletedAt(strtotime, rs[j])
    decreases j - i
  {
    if i < j {
      SortedBetween(strtotime, rs, i, j - 1);
    }
  }

  /** The responses of one student, in input order (the foreach with array_push). */
  function OfStudent(rs: seq<StudentResponse>, studentId: string): (c: seq<StudentResponse>)
    ensures multiset(c) <= multiset(rs)
  {
    if rs == [] then []
    else
      var p, r := rs[..|rs| - 1], rs[|rs| - 1];
      assert rs == p + [r];
      if r.studentId == studentId then OfStudent(p, studentId) + [r] else OfStudent(p, studentId)
  }

  /** The responses that have a `completed` key, in input order (the array_filter). */
  function WithCompleted(rs: seq<StudentResponse>): (c: seq<StudentResponse>)
    ensures AllCompleted(c)
    ensures multiset(c) <= multiset(rs)
  {
    if rs == [] then []
    else
      var p, r := rs[..|rs| - 1], rs[|rs| - 1];
      assert rs == p + [r];
      if r.completed.Some? then WithCompleted(p) + [r] else WithCompleted(p)
  }

  /** The completed responses of one student, before sorting. */
  function CompletedOf(rs: seq<StudentResponse>, studentId: string): seq<StudentResponse>
  {
    WithCompleted(OfStudent(rs, studentId))
  }

  lemma {:induction false} OfStudentCount(rs: seq<StudentResponse>, studentId: string, x: StudentResponse)
    ensures multiset(OfStudent(rs, studentId))[x] == if x.studentId == studentId then multiset(rs)[x] else 0
  {
    if rs != [] {
      var p := rs[..|rs| - 1];
      assert rs == p + [rs[|rs| - 1]];
      OfStudentCount(p, studentId, x);
    }
  }

  lemma {:induction false} WithCompletedCount(rs: seq<StudentResponse>, x: StudentResponse)
    ensures multiset(WithCompleted(rs))[x] == if x.completed.Some? then multiset(rs)[x] else 0
  {
    if rs != [] {
      var p := rs[..|rs| - 1];
      assert rs == p + [rs[|rs| - 1]];
      WithCompletedCount(p, x);
    }
  }

  /** Exactly the responses of the student that have a `completed` key, each
      as often as in the input: none added, none dropped. */
  lemma CompletedOfExactly(rs: seq<StudentResponse>, studentId: string, x: StudentResponse)
    ensures multiset(CompletedOf(rs, studentId))[x] ==
      if x.studentId == studentId && x.completed.Some? then multiset(rs)[x] else 0
  {
    WithCompletedCount(OfStudent(rs, studentId), x);
    OfStudentCount(rs, studentId, x);
  }

  /** No completed response of the student: an empty result, never an error. */
  lemma CompletedOfEmpty(rs: seq<StudentResponse>, studentId: string)
    ensures CompletedOf(rs, studentId) == [] <==>
      forall r :: r in rs ==> r.studentId != studentId || r.completed.None?
  {
    var c := CompletedOf(rs, studentId);
    if c != [] {
      CompletedOfExactly(rs, studentId, c[0]);
    } else {
      forall r | r in rs
        ensures r.studentId != studentId || r.completed.None?
      {
        CompletedOfExactly(rs, studentId, r);
      }
    }
  }

  lemma SortedCons(strtotime: string -> int, x: StudentResponse, s: seq<StudentResponse>)
    requires x.completed.Some? && SortedByCompletion(strtotime, s)
    requires s != [] ==> CompletedAt(strtotime, x) <= CompletedAt(strtotime, s[0])
    ensures SortedByCompletion(strtotime, [x] + s)
  {
    var t := [x] + s;
    forall i | 0 < i < |t|
      ensures CompletedAt(strtotime, t[i - 1]) <= CompletedAt(strtotime, t[i])
    {
      if i > 1 {
        assert t[i - 1] == s[i - 2] && t[i] == s[i - 1];
      }
    }
  }

  lemma SortedSnoc(strtotime: string -> int, s: seq<StudentResponse>, x: StudentResponse)
    requires x.completed.Some? && SortedByCompletion(strtotime, s)
    requires s != [] ==> CompletedAt(strtotime, s[|s| - 1]) <= CompletedAt(strtotime, x)
    ensures SortedByCompletion(strtotime, s + [x])
  {
    var t := s + [x];
    forall i | 0 < i < |t|
      ensures CompletedAt(strtotime, t[i - 1]) <= CompletedAt(strtotime, t[i])
    {
      if i < |s| {
        assert t[i - 1] == s[i - 1] && t[i] == s[i];
      }
    }
  }

  /** One step of usort with the comparator
      `strtotime(a) < strtotime(b) ? -1 : 1`: r goes before the first element
      it compares below. Ties come out in an order the contract leaves open. */
  function InsertByCompletion(strtotime: string -> int, r: StudentResponse, sorted: seq<StudentResponse>): (s: seq<StudentResponse>)
    requires r.completed.Some? && SortedByCompletion(strtotime, sorted)
    ensures |s| == |sorted| + 1
    ensures s[0] == r || (sorted != [] && s[0] == sorted[0])
    ensures multiset(s) == multiset(sorted) + multiset{r}
    ensures SortedByCompletion(strtotime, s)
    decreases |sorted|
  {
    if sorted == [] || CompletedAt(strtotime, r) < CompletedAt(strtotime, sorted[0]) then
      SortedCons(strtotime, r, sorted);
      [r] + sorted
    else
      SortedTail(strtotime, sorted);
      var rest := InsertByCompletion(strtotime, r, sorted[1..]);
      InsertBehind(strtotime, r, sorted, rest);
      [sorted[0]] + rest
  }

  /** When r does not go first, the head stays in front of r inserted into the tail. */
  lemma InsertBehind(strtotime: string -> int, r: StudentResponse, sorted: seq<StudentResponse>, rest: seq<StudentResponse>)
    requires r.completed.Some? && SortedByCompletion(strtotime, sorted) && sorted != []
    requires CompletedAt(strtotime, sorted[0]) <= CompletedAt(strtotime, r)
    requires |rest| == |sorted| && SortedByCompletion(strtotime, rest)
    requires rest[0] == r || (|sorted| > 1 && rest[0] == sorted[1])
    requires multiset(rest) == multiset(sorted[1..]) + multiset{r}
    ensures multiset([sorted[0]] + rest) == multiset(sorted) + multiset{r}
    ensures SortedByCompletion(strtotime, [sorted[0]] + rest)
  {
    SortedTail(strtotime, sorted);
    assert sorted == [sorted[0]] + sorted[1..];
    SortedCons(strtotime, sorted[0], rest);
  }

  lemma SortedTail(strtotime: string -> int, s: seq<StudentResponse>)
    requires SortedByCompletion(strtotime, s) && s != []
    ensures s[0].completed.Some? && SortedByCompletion(strtotime, s[1..])
    ensures s[1..] != [] ==> CompletedAt(strtotime, s[0]) <= CompletedAt(strtotime, s[1..][0])
  {
    var t := s[1..];
    assert forall i :: 0 <= i < |t| ==> t[i] == s[i + 1];
  }

  /** usort of completed responses by completion instant. */
  function SortByCompletion(strtotime: string -> int, rs: seq<StudentResponse>): (s: seq<StudentResponse>)
    requires AllCompleted(rs)
    ensures SortedByCompletion(strtotime, s)
    ensures multiset(s) == multiset(rs)
  {
    if rs == [] then []
    else
      var p, r := rs[..|rs| - 1], rs[|rs| - 1];
      assert rs == p + [r];
      InsertByCompletion(strtotime, r, SortByCompletion(strtotime, p))
  }

  /** reset(): the first element, None where PHP returns false for an empty array. */
  function FirstOf(rs: seq<StudentResponse>): Option<StudentResponse>
  {
    if rs == [] then None else Some(rs[0])
  }

  /** end(): the last element, None where PHP returns false for an empty array. */
  function LastOf(rs: seq<StudentResponse>): Option<StudentResponse>
  {
    if rs == [] then None else Some(rs[|rs| - 1])
  }

  /** On a sorted list, the first element is the earliest completed one. */
  lemma FirstIsEarliest(strtotime: string -> int, rs: seq<StudentResponse>)
    requires SortedByCompletion(strtotime, rs)
    ensures FirstOf(rs).Some? <==> rs != []
    ensures FirstOf(rs).Some? ==>
      && FirstOf(rs).value in rs
      && forall x :: x in rs ==> CompletedAt(strtotime, FirstOf(rs).value) <= CompletedAt(strtotime, x)
  {
    forall j | 0 <= j < |rs|
      ensures CompletedAt(strtotime, rs[0]) <= CompletedAt(strtotime, rs[j])
    {
      SortedBetween(strtotime, rs, 0, j);
    }
  }

  /** On a sorted list, the last element is the latest completed one. */
  lemma LastIsLatest(strtotime: string -> int, rs: seq<StudentResponse>)
    requires SortedByCompletion(strtotime, rs)
    ensures LastOf(rs).Some? <==> rs != []
    ensures LastOf(rs).Some? ==>
      && LastOf(rs).value in rs
      && forall x :: x in rs ==> CompletedAt(strtotime, x) <= CompletedAt(strtotime, LastOf(rs).value)
  {
    forall j | 0 <= j < |rs|
      ensures CompletedAt(strtotime, rs[j]) <= CompletedAt(strtotime, rs[|rs| - 1])
    {
      SortedBetween(strtotime, rs, j, |rs| - 1);
    }
  }

  /** Two responses completed at different instants, in whichever order
      they were given: sorted, the earlier is first and the later last. */
  lemma EarlierComesFirst(strtotime: string -> int, s: seq<StudentResponse>, earlier: StudentResponse, later: StudentResponse)
    requires earlier.completed.Some? && later.completed.Some?
    requires CompletedAt(strtotime, earlier) < CompletedAt(strtotime, later)
    requires SortedByCompletion(strtotime, s) && multiset(s) == multiset{later, earlier}
    ensures s == [earlier, later]
  {
    assert |s| == |multiset(s)| == 2;
    assert s[0] in multiset(s) && s[1] in multiset(s);
  }
}
