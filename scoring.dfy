/** Correctness of answers: the per-strand tallies of the diagnostic report
    and the items of the feedback report. */
module Scoring {
  import opened Records
  import opened Collections

  /** The strand of each answer's question, in answer order. */
  function AnsweredStrands(questions: QuestionIndex, answers: seq<Answer>): (ss: seq<string>)
    requires Resolves(questions, answers)
    ensures |ss| == |answers|
  {
    if answers == [] then []
    else
      var p, a := answers[..|answers| - 1], answers[|answers| - 1];
      assert answers == p + [a];
      AnsweredStrands(questions, p) + [questions[a.questionId].strand]
  }

  /** The strand of each correctly answered question, in answer order. Every
      correct answer is also an answer, so no strand is counted correct more
      often than it is answered. */
  function CorrectStrands(questions: QuestionIndex, answers: seq<Answer>): (ss: seq<string>)
    requires Resolves(questions, answers)
    ensures multiset(ss) <= multiset(AnsweredStrands(questions, answers))
  {
    if answers == [] then []
    else
      var p, a := answers[..|answers| - 1], answers[|answers| - 1];
      assert answers == p + [a];
      var q := questions[a.questionId];
      if IsCorrect(q, a) then CorrectStrands(questions, p) + [q.strand] else CorrectStrands(questions, p)
  }

  /** `count` is the number of right answers, `total` the number of answers. */
  datatype Tally = Tally(count: nat, total: nat)

  /** The tally of one strand: its correct answers and all its answers. */
  function StrandTally(questions: QuestionIndex, answers: seq<Answer>, strand: string): Tally
    requires Resolves(questions, answers)
  {
    Tally(multiset(CorrectStrands(questions, answers))[strand],
          multiset(AnsweredStrands(questions, answers))[strand])
  }

  /** The tallies after one more answer to a question of `strand`: the strand
      is added with an empty tally when new, then its total goes up by one,
      and its count too when the answer is right. */
  function Tallied(m: OrderedMap<Tally>, strand: string, correct: bool): OrderedMap<Tally>
  {
    var t := if strand in m.entries then m.entries[strand] else Tally(0, 0);
    OrderedMap(if strand in m.entries then m.keys else m.keys + [strand],
               m.entries[strand := Tally(if correct then t.count + 1 else t.count, t.total + 1)])
  }

  /** A tally step keeps the keys distinct and in step with the entries,
      keeps every earlier key in its place, and touches only the entry of
      its own strand. */
  lemma TalliedKeeps(m: OrderedMap<Tally>, strand: string, correct: bool)
    ensures var r := Tallied(m, strand, correct);
      && (m.WellFormed() ==> r.WellFormed())
      && |m.keys| <= |r.keys| && r.keys[..|m.keys|] == m.keys
      && strand in r.entries
      && (forall s :: s in r.entries ==> s in m.entries || s == strand)
      && (forall s :: s in m.entries && s != strand ==> s in r.entries && r.entries[s] == m.entries[s])
  {
    var r := Tallied(m, strand, correct);
    if m.WellFormed() && strand !in m.entries {
      forall i, j | 0 <= i < j < |r.keys|
        ensures r.keys[i] != r.keys[j]
      {
        if j == |m.keys| {
          assert r.keys[i] == m.keys[i];
        }
      }
    }
  }

  /** The strand results of a response: the answers tallied one after the
      other, starting from no strands. */
  function StrandResults(questions: QuestionIndex, answers: seq<Answer>): OrderedMap<Tally>
    requires Resolves(questions, answers)
  {
    if answers == [] then OrderedMap([], map[])
    else
      var p, a := answers[..|answers| - 1], answers[|answers| - 1];
      assert answers == p + [a];
      var q := questions[a.questionId];
      Tallied(StrandResults(questions, p), q.strand, IsCorrect(q, a))
  }

  /** The totals of the given keys, added up. */
  function SumTotals(keys: seq<string>, entries: map<string, Tally>): nat
    requires forall k :: k in keys ==> k in entries
  {
    if keys == [] then 0 else entries[keys[0]].total + SumTotals(keys[1..], entries)
  }

  /** How often the given keys occur in m, added up. */
  function SumCounts(keys: seq<string>, m: multiset<string>): nat
  {
    if keys == [] then 0 else m[keys[0]] + SumCounts(keys[1..], m)
  }

  lemma {:induction false} SumCountsAdd(keys: seq<string>, m1: multiset<string>, m2: multiset<string>)
    ensures SumCounts(keys, m1 + m2) == SumCounts(keys, m1) + SumCounts(keys, m2)
  {
    if keys != [] {
      SumCountsAdd(keys[1..], m1, m2);
    }
  }

  lemma {:induction false} SumCountsSingle(keys: seq<string>, x: string)
    requires Distinct(keys)
    ensures SumCounts(keys, multiset{x}) == if x in keys then 1 else 0
  {
    if keys != [] {
      DistinctTail(keys);
      SumCountsSingle(keys[1..], x);
      assert keys == [keys[0]] + keys[1..];
    }
  }

  /** Over distinct keys that cover every element of xs, the occurrence counts
      add up to |xs|. */
  lemma {:induction false} SumCountsCovers(keys: seq<string>, xs: seq<string>)
    requires Distinct(keys)
    requires forall x :: x in xs ==> x in keys
    ensures SumCounts(keys, multiset(xs)) == |xs|
  {
    if xs != [] {
      var p, x := xs[..|xs| - 1], xs[|xs| - 1];
      assert xs == p + [x];
      assert multiset(xs) == multiset(p) + multiset{x};
      assert x in keys;
      SumCountsCovers(keys, p);
      SumCountsAdd(keys, multiset(p), multiset{x});
      SumCountsSingle(keys, x);
    } else {
      SumCountsEmpty(keys);
    }
  }

  /** No key occurs in the empty multiset. */
  lemma {:induction false} SumCountsEmpty(keys: seq<string>)
    ensures SumCounts(keys, multiset{}) == 0
  {
    if keys != [] {
      SumCountsEmpty(keys[1..]);
    }
  }

  lemma {:induction false} SumTotalsAreCounts(keys: seq<string>, entries: map<string, Tally>, m: multiset<string>)
    requires forall k :: k in keys ==> k in entries && entries[k].total == m[k]
    ensures SumTotals(keys, entries) == SumCounts(keys, m)
  {
    if keys != [] {
      SumTotalsAreCounts(keys[1..], entries, m);
    }
  }

  /** The strand results of one more answer are the earlier ones, tallied. */
  lemma StrandResultsSnoc(questions: QuestionIndex, p: seq<Answer>, a: Answer)
    requires Resolves(questions, p + [a])
    ensures Resolves(questions, p) && a.questionId in questions
    ensures StrandResults(questions, p + [a]) ==
      Tallied(StrandResults(questions, p), questions[a.questionId].strand, IsCorrect(questions[a.questionId], a))
  {
    assert (p + [a])[..|p|] == p;
  }

  /** The strands appear in the order they are first met in the answers, and
      each strand's tally counts exactly its right answers and its answers. */
  lemma StrandResultsCount(questions: QuestionIndex, answers: seq<Answer>)
    requires Resolves(questions, answers)
    ensures StrandResults(questions, answers).keys == FirstEncounter(AnsweredStrands(questions, answers))
    ensures forall s :: s in StrandResults(questions, answers).entries <==> s in AnsweredStrands(questions, answers)
    ensures forall s :: s in StrandResults(questions, answers).entries ==>
      StrandResults(questions, answers).entries[s] == StrandTally(questions, answers, s)
  {
    StrandKeys(questions, answers);
    StrandTallies(questions, answers);
  }

  lemma {:induction false} StrandKeys(questions: QuestionIndex, answers: seq<Answer>)
    requires Resolves(questions, answers)
    ensures StrandResults(questions, answers).keys == FirstEncounter(AnsweredStrands(questions, answers))
    ensures forall s :: s in StrandResults(questions, answers).entries <==> s in AnsweredStrands(questions, answers)
  {
    if answers != [] {
      var p, a := answers[..|answers| - 1], answers[|answers| - 1];
      assert answers == p + [a];
      StrandResultsSnoc(questions, p, a);
      StrandKeys(questions, p);
      var ss, ss' := AnsweredStrands(questions, p), AnsweredStrands(questions, answers);
      assert ss' == ss + [questions[a.questionId].strand];
      assert ss'[..|ss'| - 1] == ss;
      assert forall s :: s in ss' <==> s in ss || s == questions[a.questionId].strand;
    }
  }

  lemma {:induction false} StrandTallies(questions: QuestionIndex, answers: seq<Answer>)
    requires Resolves(questions, answers)
    ensures forall s :: s in StrandResults(questions, answers).entries ==>
      StrandResults(questions, answers).entries[s] == StrandTally(questions, answers, s)
  {
    if answers != [] {
      var p, a := answers[..|answers| - 1], answers[|answers| - 1];
      assert answers == p + [a];
      StrandResultsSnoc(questions, p, a);
      StrandTallies(questions, p);
      StrandKeys(questions, p);
      forall s | s in StrandResults(questions, answers).entries
        ensures StrandResults(questions, answers).entries[s] == StrandTally(questions, answers, s)
      {
        TalliedEntry(questions, StrandResults(questions, p), p, a, s);
      }
    }
  }

  /** One strand's entry after one more answer, given that the earlier
      entries are the earlier tallies. */
  lemma TalliedEntry(questions: QuestionIndex, m: OrderedMap<Tally>, p: seq<Answer>, a: Answer, s: string)
    requires Resolves(questions, p + [a]) && Resolves(questions, p) && a.questionId in questions
    requires forall t :: t in m.entries <==> t in AnsweredStrands(questions, p)
    requires forall t :: t in m.entries ==> m.entries[t] == StrandTally(questions, p, t)
    requires s in Tallied(m, questions[a.questionId].strand, IsCorrect(questions[a.questionId], a)).entries
    ensures Tallied(m, questions[a.questionId].strand, IsCorrect(questions[a.questionId], a)).entries[s] ==
      StrandTally(questions, p + [a], s)
  {
    TallySnoc(questions, p, a, s);
    var q := questions[a.questionId];
    var r := Tallied(m, q.strand, IsCorrect(q, a));
    if s != q.strand {
      assert r.entries[s] == m.entries[s];
    } else if s in m.entries {
      assert r.entries[s].total == m.entries[s].total + 1;
    } else {
      assert multiset(AnsweredStrands(questions, p))[s] == 0;
      assert r.entries[s] == Tally(if IsCorrect(q, a) then 1 else 0, 1);
    }
  }

  /** Every strand tally has at least one answer and no more right answers
      than answers, and the strand totals add up to the number of answers. */
  lemma StrandResultsAddUp(questions: QuestionIndex, answers: seq<Answer>)
    requires Resolves(questions, answers)
    ensures StrandResults(questions, answers).WellFormed()
    ensures forall s :: s in StrandResults(questions, answers).entries ==>
      0 < StrandResults(questions, answers).entries[s].total &&
      StrandResults(questions, answers).entries[s].count <= StrandResults(questions, answers).entries[s].total
    ensures SumTotals(StrandResults(questions, answers).keys, StrandResults(questions, answers).entries) == |answers|
  {
    var ss := AnsweredStrands(questions, answers);
    var sr := StrandResults(questions, answers);
    StrandResultsCount(questions, answers);
    SumCountsCovers(sr.keys, ss);
    SumTotalsAreCounts(sr.keys, sr.entries, multiset(ss));
  }

  /** One answer adds to the tally of its own strand and to no other. */
  lemma TallySnoc(questions: QuestionIndex, p: seq<Answer>, a: Answer, s: string)
    requires Resolves(questions, p + [a])
    ensures Resolves(questions, p) && a.questionId in questions
    ensures var q := questions[a.questionId];
      StrandTally(questions, p + [a], s) ==
        if s != q.strand then StrandTally(questions, p, s)
        else Tally(StrandTally(questions, p, s).count + (if IsCorrect(q, a) then 1 else 0),
                   StrandTally(questions, p, s).total + 1)
  {
    assert (p + [a])[..|p|] == p;
    var q := questions[a.questionId];
    var answered, correct := AnsweredStrands(questions, p), CorrectStrands(questions, p);
    assert multiset(AnsweredStrands(questions, p + [a])) == multiset(answered) + multiset{q.strand};
    if IsCorrect(q, a) {
      assert multiset(CorrectStrands(questions, p + [a])) == multiset(correct) + multiset{q.strand};
    } else {
      assert CorrectStrands(questions, p + [a]) == correct;
    }
  }

  /** The last option whose id is `id` (a later match overwrites an earlier
      one), or None when no option has that id. */
  function LastMatching(options: seq<Choice>, id: string): (c: Option<Choice>)
    ensures c.None? <==> forall i :: 0 <= i < |options| ==> options[i].id != id
    ensures c.Some? ==>
      exists i :: 0 <= i < |options| && options[i] == c.value && options[i].id == id &&
        forall j :: i < j < |options| ==> options[j].id != id
  {
    if options == [] then None
    else
      var p, o := options[..|options| - 1], options[|options| - 1];
      if o.id == id then Some(o)
      else
        var c := LastMatching(p, id);
        LastMatchingExtends(p, o, id, c);
        assert options == p + [o];
        c
  }

  /** An option of another id keeps the match of the options before it. */
  lemma LastMatchingExtends(p: seq<Choice>, o: Choice, id: string, c: Option<Choice>)
    requires o.id != id
    requires c.None? <==> forall i :: 0 <= i < |p| ==> p[i].id != id
    requires c.Some? ==>
      exists i :: 0 <= i < |p| && p[i] == c.value && p[i].id == id &&
        forall j :: i < j < |p| ==> p[j].id != id
    ensures c.None? <==> forall i :: 0 <= i < |p + [o]| ==> (p + [o])[i].id != id
    ensures c.Some? ==>
      exists i :: 0 <= i < |p + [o]| && (p + [o])[i] == c.value && (p + [o])[i].id == id &&
        forall j :: i < j < |p + [o]| ==> (p + [o])[j].id != id
  {
    var s := p + [o];
    assert forall i :: 0 <= i < |p| ==> s[i] == p[i];
    if c.Some? {
      var i :| 0 <= i < |p| && p[i] == c.value && p[i].id == id &&
        forall j :: i < j < |p| ==> p[j].id != id;
      assert s[i] == c.value && s[i].id == id;
    }
  }

  /** One more option overwrites the match when its id matches. */
  lemma LastMatchingSnoc(options: seq<Choice>, j: nat, id: string)
    requires j < |options|
    ensures LastMatching(options[..j + 1], id) ==
      if options[j].id == id then Some(options[j]) else LastMatching(options[..j], id)
  {
    assert options[..j + 1][..j] == options[..j];
  }

  /** One item of the feedback report: the question's stem and hint, and the
      option of the right answer and of the answer given, each None when no
      option has that id (the `correct_*` or `incorrect_*` keys left unset). */
  datatype Feedback = Feedback(question: string, hint: string, correct: Option<Choice>, incorrect: Option<Choice>)

  function FeedbackItem(q: Question, a: Answer): (f: Feedback)
    ensures f.correct.Some? ==> f.correct.value in q.config.options && f.correct.value.id == q.config.key
    ensures f.incorrect.Some? ==> f.incorrect.value in q.config.options && f.incorrect.value.id == a.response
  {
    Feedback(q.stem, q.config.hint,
             LastMatching(q.config.options, q.config.key),
             LastMatching(q.config.options, a.response))
  }

  /** The wrongly answered entries, in answer order. */
  function WrongAnswers(questions: QuestionIndex, answers: seq<Answer>): (w: seq<Answer>)
    requires Resolves(questions, answers)
    ensures forall a :: a in w <==> a in answers && !IsCorrect(questions[a.questionId], a)
  {
    if answers == [] then []
    else
      var p, a := answers[..|answers| - 1], answers[|answers| - 1];
      assert answers == p + [a];
      if IsCorrect(questions[a.questionId], a) then WrongAnswers(questions, p)
      else WrongAnswers(questions, p) + [a]
  }

  /** Each answer is either counted right in its strand or yields a feedback
      item: the feedback has as many items as there are wrong answers. */
  lemma {:induction false} RightAndWrongPartition(questions: QuestionIndex, answers: seq<Answer>)
    requires Resolves(questions, answers)
    ensures |WrongAnswers(questions, answers)| + |CorrectStrands(questions, answers)| == |answers|
  {
    if answers != [] {
      var p := answers[..|answers| - 1];
      assert answers == p + [answers[|answers| - 1]];
      RightAndWrongPartition(questions, p);
    }
  }

  /** The feedback items of a response: one per wrong answer, in answer order. */
  function FeedbackFor(questions: QuestionIndex, answers: seq<Answer>): seq<Feedback>
    requires Resolves(questions, answers)
  {
    var w := WrongAnswers(questions, answers);
    seq(|w|, i requires 0 <= i < |w| => FeedbackItem(questions[w[i].questionId], w[i]))
  }

  lemma FeedbackSnoc(questions: QuestionIndex, p: seq<Answer>, a: Answer)
    requires Resolves(questions, p + [a])
    ensures Resolves(questions, p) && a.questionId in questions
    ensures FeedbackFor(questions, p + [a]) ==
      if IsCorrect(questions[a.questionId], a) then FeedbackFor(questions, p)
      else FeedbackFor(questions, p) + [FeedbackItem(questions[a.questionId], a)]
  {
    assert (p + [a])[..|p|] == p;
  }

  /** The feedback has one item per wrong answer: as many as the answers
      minus the right ones. */
  lemma FeedbackCount(questions: QuestionIndex, answers: seq<Answer>)
    requires Resolves(questions, answers)
    ensures |FeedbackFor(questions, answers)| == |answers| - |CorrectStrands(questions, answers)|
  {
    RightAndWrongPartition(questions, answers);
  }
}
