/**
  The quiz state of `MainWindow` in `main.py`, without its widgets: the pool
  `students` (shuffled in place), the round's `choices` and `correct`, and the
  `train_log` table, kept here as an append-only sequence of attempts.
  `random.shuffle` and `random.choice` are given as a permutation of indices
  and an index into the round.
*/
module Quiz {
  import opened Wrappers
  import opened Students
  import opened Rounds

  /** One row of `train_log`: the correct student's email and the guessed
      student's email (the store-assigned timestamp is not modelled). */
  datatype Attempt = Attempt(actual: string, guess: string)

  /** The non-UI state of a `MainWindow`. */
  datatype QuizState = QuizState(students: seq<Student>, choices: seq<Student>,
                                 correct: Option<Student>, log: seq<Attempt>)

  /** How `setup_problem` ends: a new round, the `ValueError` of a display name
      without exactly one comma (raised by the sort key), or the `IndexError`
      of `random.choice` on an empty round. */
  datatype RoundOutcome = Ready | BadDisplayName | EmptyRound

  /** How `on_button_click` ends: the `assert` on `correct` fails, the button
      index is past the round (a pool smaller than the number of buttons), or
      the guess is scored and logged, with the outcome of the next round. */
  datatype Verdict = NoRound | IndexError | Answered(isCorrect: bool, answer: Student, next: RoundOutcome)

  /** `len(self.students[:len(self.buttons)])`. */
  function RoundSize(k: nat, n: nat): nat {
    if k < n then k else n
  }

  /** The index `random.choice` returns lies in the round, unless the round
      of `min(k, n)` students is empty. */
  predicate PickFits(k: nat, n: nat, pick: nat) {
    RoundSize(k, n) == 0 || pick < RoundSize(k, n)
  }

  /** The injected random choices fit the pool: a permutation of its indices,
      and an index into the round when the round is not empty. */
  predicate RandomFits(q: QuizState, k: nat, perm: seq<nat>, pick: nat) {
    IsPermutation(perm, |q.students|) && PickFits(k, |q.students|, pick)
  }

  /** What holds of the quiz between two events, with `k` buttons: the round
      is empty or has `min(k, |pool|)` students drawn from the pool, sorted by
      display name, and a correct answer is one of them. */
  predicate Invariant(q: QuizState, k: nat) {
    && (q.choices == [] || |q.choices| == RoundSize(k, |q.students|))
    && (q.correct.Some? ==> q.correct.value in q.choices)
    && multiset(q.choices) <= multiset(q.students)
    && SortedByName(q.choices)
    && AllWellNamed(q.choices)
  }

  /** `MainWindow.__init__` before its final `setup_problem()`. */
  function Initial(students: seq<Student>, log: seq<Attempt>): (q: QuizState)
    ensures forall k: nat :: Invariant(q, k)
  {
    QuizState(students, [], None, log)
  }

  /** `sorted(slice, key=lambda x: x.first_last())`, or `None` when the key
      raises on one of the students. */
  function SortedRound(slice: seq<Student>): Option<seq<Student>> {
    if AllWellNamed(slice) then Some(SortByName(slice)) else None
  }

  /** `random.shuffle(self.students)`. */
  function Shuffle(q: QuizState, perm: seq<nat>): QuizState
    requires IsPermutation(perm, |q.students|)
  {
    q.(students := Permute(q.students, perm))
  }

  /** The rest of `setup_problem`, on the shuffled pool: sort its first `k`
      students by display name and pick the correct one. */
  function Deal(q: QuizState, k: nat, pick: nat): (QuizState, RoundOutcome)
    requires PickFits(k, |q.students|, pick)
  {
    match SortedRound(q.students[..RoundSize(k, |q.students|)])
    case None => (q, BadDisplayName)
    case Some(sorted) =>
      if |sorted| == 0 then (q.(choices := []), EmptyRound)
      else (q.(choices := sorted, correct := Some(sorted[pick])), Ready)
  }

  /** `setup_problem`: shuffle the pool, then deal the round. */
  function Setup(q: QuizState, k: nat, perm: seq<nat>, pick: nat): (QuizState, RoundOutcome)
    requires RandomFits(q, k, perm, pick)
  {
    Deal(Shuffle(q, perm), k, pick)
  }

  /** `on_button_click(i)`: check the round, log the attempt, score it and
      start the next round. */
  function Click(q: QuizState, k: nat, i: nat, perm: seq<nat>, pick: nat): (QuizState, Verdict)
    requires RandomFits(q, k, perm, pick)
  {
    if q.correct.None? then (q, NoRound)
    else if i >= |q.choices| then (q, IndexError)
    else
      var actual, guess := q.correct.value.email, q.choices[i].email;
      var logged := q.(log := q.log + [Attempt(actual, guess)]);
      var next := Setup(logged, k, perm, pick);
      (next.0, Answered(actual == guess, q.correct.value, next.1))
  }

  /** The number of rows of `train_log`: `select count(*)`. */
  function LabelCount(q: QuizState): nat {
    |q.log|
  }

  /** `setup_problem` only reorders the pool and does not touch the log. */
  lemma SetupShufflesPool(q: QuizState, k: nat, perm: seq<nat>, pick: nat)
    requires RandomFits(q, k, perm, pick)
    ensures var q' := Setup(q, k, perm, pick).0;
            && q'.students == Permute(q.students, perm)
            && multiset(q'.students) == multiset(q.students)
            && q'.log == q.log
  {
    PermuteMultiset(q.students, perm);
  }

  /** When `setup_problem` raises and when it does not: the sort key fails on
      a malformed display name among the first `k` shuffled students, and
      `random.choice` fails on an empty round. */
  lemma SetupOutcomes(q: QuizState, k: nat, perm: seq<nat>, pick: nat)
    requires RandomFits(q, k, perm, pick)
    ensures var slice := Permute(q.students, perm)[..RoundSize(k, |q.students|)];
            var r := Setup(q, k, perm, pick);
            && (r.1 == BadDisplayName <==> !AllWellNamed(slice))
            && (r.1 == EmptyRound <==> RoundSize(k, |q.students|) == 0)
            && (r.1 == BadDisplayName ==> r.0.choices == q.choices && r.0.correct == q.correct)
            && (r.1 == EmptyRound ==> r.0.choices == [] && r.0.correct == q.correct)
  {
  }

  /** A new round: `min(k, |pool|)` students, the same multiset as the first
      `k` of the shuffled pool, sorted stably by display name, and the correct
      answer is the picked one among them. */
  lemma SetupRound(q: QuizState, k: nat, perm: seq<nat>, pick: nat)
    requires RandomFits(q, k, perm, pick)
    requires Setup(q, k, perm, pick).1 == Ready
    ensures var slice := Permute(q.students, perm)[..RoundSize(k, |q.students|)];
            var q' := Setup(q, k, perm, pick).0;
            && |q'.choices| == RoundSize(k, |q.students|) > 0
            && multiset(q'.choices) == multiset(slice)
            && SortedByName(q'.choices)
            && (forall key :: Filter(q'.choices, SortKey, key) == Filter(slice, SortKey, key))
            && pick < |q'.choices| && q'.correct == Some(q'.choices[pick])
            && q'.correct.value in q'.choices
  {
    var slice := Permute(q.students, perm)[..RoundSize(k, |q.students|)];
    var sorted := SortByName(slice);
    assert Setup(q, k, perm, pick) == (q.(students := Permute(q.students, perm), choices := sorted, correct := Some(sorted[pick])), Ready);
    forall key ensures Filter(sorted, SortKey, key) == Filter(slice, SortKey, key) {
      SortByStable(slice, SortKey, key);
    }
    assert sorted[pick] in sorted;
  }

  /** Shuffling keeps the invariant: the round still has as many students,
      all drawn from the same pool. */
  lemma ShuffleKeepsInvariant(q: QuizState, k: nat, perm: seq<nat>)
    requires IsPermutation(perm, |q.students|) && Invariant(q, k)
    ensures Invariant(Shuffle(q, perm), k)
  {
    PermuteMultiset(q.students, perm);
  }

  /** Dealing keeps the invariant, whatever its outcome. */
  lemma DealKeepsInvariant(q: QuizState, k: nat, pick: nat)
    requires PickFits(k, |q.students|, pick) && Invariant(q, k)
    ensures Invariant(Deal(q, k, pick).0, k)
  {
    var n := RoundSize(k, |q.students|);
    var slice := q.students[..n];
    assert q.students == slice + q.students[n..];
    assert multiset(slice) <= multiset(q.students);
    if AllWellNamed(slice) {
      var sorted := SortByName(slice);
      AllWellNamedSub(slice, sorted);
      if |sorted| > 0 {
        assert sorted[pick] in sorted;
      }
    }
  }

  /** `setup_problem` keeps the invariant, whatever its outcome. */
  lemma SetupKeepsInvariant(q: QuizState, k: nat, perm: seq<nat>, pick: nat)
    requires RandomFits(q, k, perm, pick) && Invariant(q, k)
    ensures Invariant(Setup(q, k, perm, pick).0, k)
  {
    ShuffleKeepsInvariant(q, k, perm);
    DealKeepsInvariant(Shuffle(q, perm), k, pick);
  }

  /** A click with no round, or on a button past the round, raises before
      anything is logged and changes nothing. */
  lemma ClickRejected(q: QuizState, k: nat, i: nat, perm: seq<nat>, pick: nat)
    requires RandomFits(q, k, perm, pick)
    requires q.correct.None? || i >= |q.choices|
    ensures Click(q, k, i, perm, pick).0 == q
    ensures Click(q, k, i, perm, pick).1 == if q.correct.None? then NoRound else IndexError
  {
  }

  /** A scored click appends exactly one row, the correct and the guessed
      email, keeps every earlier row, says "Correct" exactly when the two
      emails agree, and then sets up the next round. */
  lemma ClickLogs(q: QuizState, k: nat, i: nat, perm: seq<nat>, pick: nat)
    requires RandomFits(q, k, perm, pick)
    requires q.correct.Some? && i < |q.choices|
    ensures var r := Click(q, k, i, perm, pick);
            var row := Attempt(q.correct.value.email, q.choices[i].email);
            && r.1.Answered?
            && r.0.log == q.log + [row]
            && LabelCount(r.0) == LabelCount(q) + 1
            && r.0.log[..|q.log|] == q.log
            && (r.1.isCorrect <==> row.actual == row.guess)
            && r.1.answer == q.correct.value
            && r == (Setup(q.(log := q.log + [row]), k, perm, pick).0,
                     Answered(row.actual == row.guess, q.correct.value,
                              Setup(q.(log := q.log + [row]), k, perm, pick).1))
  {
    var row := Attempt(q.correct.value.email, q.choices[i].email);
    assert (q.log + [row])[..|q.log|] == q.log;
  }

  /** `on_button_click` keeps the invariant, whatever its outcome. */
  lemma ClickKeepsInvariant(q: QuizState, k: nat, i: nat, perm: seq<nat>, pick: nat)
    requires RandomFits(q, k, perm, pick) && Invariant(q, k)
    ensures Invariant(Click(q, k, i, perm, pick).0, k)
  {
    if q.correct.Some? && i < |q.choices| {
      var row := Attempt(q.correct.value.email, q.choices[i].email);
      SetupKeepsInvariant(q.(log := q.log + [row]), k, perm, pick);
    }
  }

  /** Between events a correct answer is well named, so the `first_last()`
      of the "Correct!" / "Error" message after a scored click does not
      raise. */
  lemma CorrectIsWellNamed(q: QuizState, k: nat)
    requires Invariant(q, k) && q.correct.Some?
    ensures WellNamed(q.correct.value)
  {
    var p :| 0 <= p < |q.choices| && q.choices[p] == q.correct.value;
    assert WellNamed(q.choices[p]);
  }

  /** With distinct emails in the round, clicking the button of the correct
      student is scored "Correct" and every other button is not. */
  lemma ClickCorrectExactlyOnce(q: QuizState, k: nat, i: nat, perm: seq<nat>, pick: nat)
    requires RandomFits(q, k, perm, pick) && Invariant(q, k)
    requires DistinctEmails(q.choices) && q.correct.Some? && i < |q.choices|
    ensures Click(q, k, i, perm, pick).1.Answered?
    ensures Click(q, k, i, perm, pick).1.isCorrect <==> q.choices[i] == q.correct.value
  {
    var p :| 0 <= p < |q.choices| && q.choices[p] == q.correct.value;
    if i != p {
      assert q.choices[i].email != q.choices[p].email by {
        if i < p {} else {}
      }
    }
  }

  /** Between events, a pool with distinct emails gives a round with
      distinct emails, as `ClickCorrectExactlyOnce` needs. */
  lemma RoundDistinctFromPool(q: QuizState, k: nat)
    requires Invariant(q, k) && DistinctEmails(q.students)
    ensures DistinctEmails(q.choices)
  {
    DistinctEmailsSub(q.students, q.choices);
  }

  /** `setup_problem` only reorders the pool, so its emails stay distinct. */
  lemma SetupKeepsDistinctPool(q: QuizState, k: nat, perm: seq<nat>, pick: nat)
    requires RandomFits(q, k, perm, pick) && DistinctEmails(q.students)
    ensures DistinctEmails(Setup(q, k, perm, pick).0.students)
  {
    SetupShufflesPool(q, k, perm, pick);
    DistinctEmailsReordered(q.students, Setup(q, k, perm, pick).0.students);
  }

  /** The state of `MainWindow` that the quiz logic reads and writes. */
  class MainWindow {
    var students: seq<Student>
    var choices: seq<Student>
    var correct: Option<Student>
    var trainLog: seq<Attempt>
    /** `len(self.buttons)`, fixed at construction. */
    const buttonCount: nat

    function State(): QuizState
      reads this
    {
      QuizState(students, choices, correct, trainLog)
    }

    ghost predicate Valid()
      reads this
    {
      Invariant(State(), buttonCount)
    }

    /** `MainWindow(students, db, k)`: the pool, the existing log rows,
        `k` buttons, and the first `setup_problem()`. A failing first round
        leaves `correct` unset (in the source the exception escapes). */
    constructor (pool: seq<Student>, log: seq<Attempt>, k: nat, perm: seq<nat>, pick: nat)
      requires RandomFits(Initial(pool, log), k, perm, pick)
      ensures Valid() && buttonCount == k
      ensures State() == Setup(Initial(pool, log), k, perm, pick).0
    {
      students, choices, correct, trainLog := pool, [], None, log;
      buttonCount := k;
      new;
      var _ := SetupProblem(perm, pick);
    }

    /** `setup_problem`: the pool is shuffled in place, then the sorted round
        and its correct answer replace the previous ones. */
    method SetupProblem(perm: seq<nat>, pick: nat) returns (outcome: RoundOutcome)
      requires Valid() && RandomFits(State(), buttonCount, perm, pick)
      modifies this
      ensures Valid()
      ensures (State(), outcome) == Setup(old(State()), buttonCount, perm, pick)
      ensures multiset(students) == multiset(old(students)) && trainLog == old(trainLog)
      ensures outcome == Ready ==> correct.Some? && correct.value in choices
    {
      ShuffleKeepsInvariant(State(), buttonCount, perm);
      PermuteMultiset(students, perm);
      students := Permute(students, perm);
      outcome := DealRound(pick);
    }

    /** The part of `setup_problem` after the shuffle: the round is sorted
        and its correct answer picked; the pool itself stays as it is. */
    method DealRound(pick: nat) returns (outcome: RoundOutcome)
      requires Valid() && PickFits(buttonCount, |students|, pick)
      modifies this
      ensures Valid()
      ensures (State(), outcome) == Deal(old(State()), buttonCount, pick)
      ensures students == old(students) && trainLog == old(trainLog)
      ensures outcome == Ready ==> correct.Some? && correct.value in choices
    {
      DealKeepsInvariant(State(), buttonCount, pick);
      var round := SortedRound(students[..RoundSize(buttonCount, |students|)]);
      if round.None? {
        return BadDisplayName;
      }
      choices := round.value;
      if |choices| == 0 {
        return EmptyRound;
      }
      correct := Some(choices[pick]);
      outcome := Ready;
    }

    /** `num_labels`: how many attempts the log holds. */
    function NumLabels(): nat
      reads this
    {
      LabelCount(State())
    }

    /** `on_button_click(i)`: the attempt is logged, scored by email, and a
        new round is set up. */
    method OnButtonClick(i: nat, perm: seq<nat>, pick: nat) returns (verdict: Verdict)
      requires Valid() && RandomFits(State(), buttonCount, perm, pick)
      modifies this
      ensures Valid()
      ensures (State(), verdict) == Click(old(State()), buttonCount, i, perm, pick)
      ensures verdict.Answered? ==> NumLabels() == old(NumLabels()) + 1
      ensures !verdict.Answered? ==> NumLabels() == old(NumLabels())
    {
      ClickKeepsInvariant(State(), buttonCount, i, perm, pick);
      if correct.None? {
        return NoRound;
      }
      if i >= |choices| {
        return IndexError;
      }
      var actual, guess := correct.value.email, choices[i].email;
      var answer := correct.value;
      trainLog := trainLog + [Attempt(actual, guess)];
      var next := SetupProblem(perm, pick);
      verdict := Answered(actual == guess, answer, next);
    }
  }
}
