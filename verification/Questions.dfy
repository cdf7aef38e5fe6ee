/**
  Answers to the questions of an investigation: ConfigureChallenge, SubmitAnswer and ChallengeState in
  internal/database/questions.go.  Times are nanoseconds; a transaction commits as a whole or changes nothing.
 */
module Questions {
  import opened Cooldown
  import opened Limits
  import opened Wrappers

  datatype Question = Question(id: string, revision: int, accepted: seq<string>, caseSensitive: bool)

  datatype Challenge = Challenge(flag: string, cooldown: Duration, cap: Duration, questions: seq<Question>)

  /** A row of investigation_progress. */
  datatype Progress = Progress(revision: int, attempts: nat, last: Option<int>, solvedAt: Option<int>,
      answer: Option<string>)

  // ----- Configuring ------------------------------------------------------------------------

  /** The row of a question: kept while the revision stays, started afresh when it changes. */
  function Upserted(progress: map<string, Progress>, q: Question): Progress {
    if q.id in progress && progress[q.id].revision == q.revision then progress[q.id]
    else Progress(q.revision, 0, None, None, None)
  }

  /** A row is kept as it is while the revision stays, and counts nothing after a change of the revision. */
  ghost predicate KeptOrFresh(progress: map<string, Progress>, q: Question, row: Progress) {
    if q.id in progress && progress[q.id].revision == q.revision then row == progress[q.id]
    else row.revision == q.revision && row.attempts == 0 && row.last.None? && row.solvedAt.None? && row.answer.None?
  }

  function UpsertAll(progress: map<string, Progress>, questions: seq<Question>): map<string, Progress>
    decreases |questions|
  {
    if questions == [] then progress
    else
      var before := UpsertAll(progress, questions[..|questions| - 1]);
      var q := questions[|questions| - 1];
      before[q.id := Upserted(before, q)]
  }

  ghost function IdsOf(questions: seq<Question>): set<string> {
    set i | 0 <= i < |questions| :: questions[i].id
  }

  /** The rows of the questions after the upserts, and no others. */
  ghost predicate Reconciled(progress: map<string, Progress>, questions: seq<Question>, rows: map<string, Progress>) {
    rows.Keys == IdsOf(questions) &&
    forall id :: id in rows ==> id in UpsertAll(progress, questions) && rows[id] == UpsertAll(progress, questions)[id]
  }

  /** The attempts that the rows still count. */
  ghost function KeptHistory(progress: map<string, Progress>, history: map<string, seq<int>>,
                             rows: map<string, Progress>): map<string, seq<int>> {
    map id | id in rows :: if id in progress && id in history && progress[id] == rows[id] then history[id] else []
  }

  /** How many of the kept attempts are not judged: those made before the waits were last configured otherwise. */
  ghost function KeptEarlier(progress: map<string, Progress>, history: map<string, seq<int>>, earlier: map<string, nat>,
                             rows: map<string, Progress>, same: bool): map<string, nat> {
    var kept := KeptHistory(progress, history, rows);
    map id | id in kept ::
      if same && kept[id] != [] && id in earlier then earlier[id] else |kept[id]|
  }

  ghost predicate SameWaits(a: Challenge, b: Challenge) {
    a.cooldown == b.cooldown && a.cap == b.cap
  }

  ghost predicate DistinctIds(questions: seq<Question>) {
    forall i, j :: 0 <= i < j < |questions| ==> questions[i].id != questions[j].id
  }

  /** Upserts of other ids do not matter. */
  lemma {:induction false} UpsertsStay(progress: map<string, Progress>, questions: seq<Question>)
    requires DistinctIds(questions)
    ensures forall i :: 0 <= i < |questions| ==>
              questions[i].id in UpsertAll(progress, questions) &&
              UpsertAll(progress, questions)[questions[i].id] == Upserted(progress, questions[i])
    ensures forall id :: id !in IdsOf(questions) ==>
              (id in UpsertAll(progress, questions) <==> id in progress) &&
              (id in progress ==> UpsertAll(progress, questions)[id] == progress[id])
    decreases |questions|
  {
    if questions != [] {
      var front, q := questions[..|questions| - 1], questions[|questions| - 1];
      UpsertsStay(progress, front);
      assert questions == front + [q];
      assert q.id !in IdsOf(front);
      assert forall id :: id !in IdsOf(questions) ==> id !in IdsOf(front) by {
        forall id | id in IdsOf(front)
          ensures id in IdsOf(questions)
        {
          var i :| 0 <= i < |front| && front[i].id == id;
          assert questions[i].id == id;
        }
      }
      assert questions[|front|].id == q.id;
    }
  }

  /** With distinct ids every question finds its own earlier row, unless its revision has changed. */
  lemma UpsertsAreIndependent(progress: map<string, Progress>, questions: seq<Question>)
    requires DistinctIds(questions)
    ensures forall i :: 0 <= i < |questions| ==>
              questions[i].id in UpsertAll(progress, questions) &&
              KeptOrFresh(progress, questions[i], UpsertAll(progress, questions)[questions[i].id])
    ensures forall id :: id !in IdsOf(questions) ==>
              (id in UpsertAll(progress, questions) <==> id in progress) &&
              (id in progress ==> UpsertAll(progress, questions)[id] == progress[id])
  {
    UpsertsStay(progress, questions);
    hide UpsertAll, IdsOf;
  }

  // ----- Attempts and the time between them ----------------------------------------------------

  /** Consecutive counted attempts from the one numbered start on are as far apart as the cooldown demands. */
  ghost predicate Spaced(history: seq<int>, start: nat, challenge: Challenge) {
    forall i :: start <= i < |history| && i > 0 ==>
        history[i] - history[i - 1] >= Required(challenge.cooldown, challenge.cap, i)
  }

  /** The waits after wrong answers m + 1 to k. */
  ghost function TotalWait(challenge: Challenge, m: nat, k: nat): nat
    requires m <= k
  {
    if m == k then 0 else TotalWait(challenge, m, k - 1) + Required(challenge.cooldown, challenge.cap, k)
  }

  /** From attempt m to attempt k, counted from 0, all the waits in between have passed. */
  lemma {:induction false} TimeBetweenAttempts(history: seq<int>, start: nat, challenge: Challenge, m: nat, k: nat)
    requires Spaced(history, start, challenge) && start <= m + 1 && m <= k < |history|
    ensures history[k] - history[m] >= TotalWait(challenge, m, k)
  {
    hide Required;
    if m < k {
      TimeBetweenAttempts(history, start, challenge, m, k - 1);
    }
  }

  /**
    The wait that is left: the required one less the time since the last attempt. A clock that has gone back makes
    it longer, until it does not fit in 64 bits and falls away altogether.
   */
  ghost function Waits(c: Challenge, row: Progress, now: int): Option<int> {
    if row.last.None? || Required(c.cooldown, c.cap, row.attempts) == 0 then None
    else
      var left := Required(c.cooldown, c.cap, row.attempts) - (now - row.last.value);
      if 0 < left <= MAX_INT64 then Some(left) else None
  }

  /** What an answer leads to. */
  datatype Outcome =
    | NotFound
    | Unavailable
    | Failed
    | TooSoon(remaining: int)
    | AlreadySolved(correct: bool)
    | Counted(correct: bool)

  datatype QuestionState = QuestionState(id: string, attempts: nat, solved: bool, solvedAt: Option<int>, answer: string)

  datatype ChallengeState = ChallengeState(questions: seq<QuestionState>, solved: nat, total: nat, completed: bool,
      flag: string)

  /** Subtracting times, which stops at the ends of the 64 bits. */
  function Since(now: int, last: int): Duration {
    if now - last > MAX_INT64 then MAX_INT64 else if now - last < MIN_INT64 then MIN_INT64 else now - last
  }

  /** The row of a question tells of its attempts; with a steady clock they keep their distances. */
  ghost predicate Recorded(p: Progress, h: seq<int>, start: nat, challenge: Challenge, steady: bool, clock: int) {
    p.attempts == |h| && p.last == (if h == [] then None else Some(h[|h| - 1])) &&
    (steady ==> Spaced(h, start, challenge) && (h != [] ==> h[|h| - 1] <= clock)) &&
    (p.solvedAt.Some? ==> h != [])
  }

  ghost predicate AllRecorded(progress: map<string, Progress>, history: map<string, seq<int>>,
                              earlier: map<string, nat>,
                              challenge: Challenge, steady: bool, clock: int) {
    progress.Keys == history.Keys == earlier.Keys &&
    forall id :: id in progress ==> Recorded(progress[id], history[id], earlier[id], challenge, steady, clock)
  }

  /** Under other waits the attempts made before are not judged any more; under the same ones they still are. */
  lemma RecordedAgain(p: Progress, h: seq<int>, start: nat, before: Challenge, after: Challenge, steady: bool,
                      clock: int)
    requires Recorded(p, h, start, before, steady, clock)
    ensures Recorded(p, h, |h|, after, steady, clock)
    ensures SameWaits(before, after) ==> Recorded(p, h, start, after, steady, clock)
  {
    hide Required;
  }

  /** An answer to a question, as it was asked then. */
  datatype Attempt = Attempt(question: Question, answer: string, time: int)

  /** What a counted attempt does to a row: only the right answer solves the question. */
  ghost predicate Counts(was: Progress, row: Progress, answer: string, now: int, correct: bool) {
    row.revision == was.revision && row.attempts == was.attempts + 1 && row.last == Some(now) &&
    row.solvedAt == (if correct then Some(now) else was.solvedAt) &&
    row.answer == (if correct then Some(answer) else was.answer)
  }

  /** A solved row that has lost its answer takes the next correct one, and nothing else changes. */
  ghost predicate Completes(was: Progress, row: Progress, answer: string, correct: bool) {
    row.revision == was.revision && row.attempts == was.attempts && row.last == was.last &&
    row.solvedAt == was.solvedAt && row.answer == if was.answer.None? && correct then Some(answer) else was.answer
  }

  class Investigation {
    var challenge: Challenge
    var progress: map<string, Progress>
    /** TrimSpace, and ToLower unless the case counts. */
    const normalize: (string, bool) -> string
    /** The times of all attempts counted for the current revision of a question. */
    ghost var history: map<string, seq<int>>
    /** How many of them came before the waits were last configured otherwise. */
    ghost var earlier: map<string, nat>
    /** The latest time seen, and whether the clock has never gone back. */
    ghost var clock: int
    ghost var steady: bool
    /** Every answer that was ever submitted to a question of the challenge. */
    ghost var submitted: set<Attempt>

    ghost predicate Valid()
      reads this
    {
      AllRecorded(progress, history, earlier, challenge, steady, clock) && AllEarned(progress, submitted)
    }

    /** An accepted answer to this revision of a question was submitted. */
    ghost predicate Right(a: Attempt, id: string, revision: int) {
      a.question.id == id && a.question.revision == revision && Accepted(a.question, a.answer)
    }

    /** A row is solved, and has its answer, through accepted answers to its own revision. */
    ghost predicate Earned(id: string, row: Progress, attempts: set<Attempt>) {
      (row.solvedAt.Some? ==>
         exists a :: a in attempts && Right(a, id, row.revision) && a.time == row.solvedAt.value) &&
      (row.answer.Some? ==> exists a :: a in attempts && Right(a, id, row.revision) && a.answer == row.answer.value)
    }

    ghost predicate AllEarned(rows: map<string, Progress>, attempts: set<Attempt>) {
      forall id :: id in rows ==> Earned(id, rows[id], attempts)
    }

    lemma MoreAttempts(rows: map<string, Progress>, attempts: set<Attempt>, a: Attempt)
      requires AllEarned(rows, attempts)
      ensures AllEarned(rows, attempts + {a})
    {
      hide Right;
      forall id | id in rows
        ensures Earned(id, rows[id], attempts + {a})
      {
        assert Earned(id, rows[id], attempts);
      }
    }

    lemma EarnedBy(rows: map<string, Progress>, attempts: set<Attempt>, a: Attempt, id: string, row: Progress)
      requires AllEarned(rows, attempts) && id in rows && a in attempts && a.question.id == id
      requires a.question.revision == rows[id].revision
      requires Counts(rows[id], row, a.answer, a.time, Accepted(a.question, a.answer)) ||
               Completes(rows[id], row, a.answer, Accepted(a.question, a.answer))
      ensures AllEarned(rows[id := row], attempts)
    {
      hide Accepted;
      assert Earned(id, rows[id], attempts);
      assert Accepted(a.question, a.answer) ==> Right(a, id, rows[id].revision);
      assert Earned(id, row, attempts);
      hide Earned;
    }

    lemma StillEarned(rows: map<string, Progress>, questions: seq<Question>, kept: map<string, Progress>)
      requires AllEarned(rows, submitted) && Reconciled(rows, questions, kept)
      ensures AllEarned(kept, submitted)
    {
      UpsertIsOldOrNew(rows, questions);
      hide UpsertAll, IdsOf, Right;
      forall id | id in kept
        ensures Earned(id, kept[id], submitted)
      {
        if id in rows && kept[id] == rows[id] {
          assert Earned(id, rows[id], submitted);
        }
      }
    }

    constructor (normalize: (string, bool) -> string)
      ensures Valid() && progress == map[] && challenge.questions == [] && steady && submitted == {}
    {
      this.normalize := normalize;
      challenge := Challenge("", 0, 0, []);
      progress, history, earlier, clock, steady, submitted := map[], map[], map[], 0, true, {};
    }

    /** Rows of the same revision are kept, changed questions start afresh, and other rows go. */
    method ConfigureChallenge(c: Challenge, commits: bool) returns (ok: bool)
      requires Valid()
      modifies `challenge, `progress, `history, `earlier
      ensures Valid()
      ensures ok == commits
      ensures ok ==> challenge == c && Reconciled(old(progress), c.questions, progress)
      ensures ok && DistinctIds(c.questions) ==>
                forall i :: 0 <= i < |c.questions| ==>
                  c.questions[i].id in progress &&
                  KeptOrFresh(old(progress), c.questions[i], progress[c.questions[i].id])
      ensures ok ==> history == KeptHistory(old(progress), old(history), progress)
      ensures ok ==> earlier == KeptEarlier(old(progress), old(history), old(earlier), progress,
                SameWaits(old(challenge), c))
      ensures !ok ==> history == old(history) && earlier == old(earlier)
      ensures !ok ==> challenge == old(challenge) && progress == old(progress)
    {
      hide AllRecorded, AllEarned, Reconciled, KeptOrFresh, DistinctIds, KeptHistory, KeptEarlier, SameWaits, UpsertAll;
      ok := commits;
      if !ok {
        return;
      }
      var rows := Reconcile(progress, c.questions);
      ghost var kept := KeptHistory(progress, history, rows);
      ghost var counts := KeptEarlier(progress, history, earlier, rows, SameWaits(challenge, c));
      StillRecorded(progress, history, earlier, challenge, c, steady, clock, rows);
      StillEarned(progress, c.questions, rows);
      RowsAreIndependent(progress, c.questions, rows);
      progress, history, earlier, challenge := rows, kept, counts, c;
    }

    /** The upserts in turn, then the removal of the rows that no question has. */
    static method Reconcile(progress: map<string, Progress>, questions: seq<Question>)
      returns (rows: map<string, Progress>)
      ensures Reconciled(progress, questions, rows)
    {
      hide UpsertAll, IdsOf, Upserted;
      rows := progress;
      var retained: set<string> := {};
      var i := 0;
      assert questions[..0] == [];
      NothingUpserted(progress);
      while i < |questions|
        invariant 0 <= i <= |questions| && rows == UpsertAll(progress, questions[..i]) &&
                    retained == IdsOf(questions[..i])
      {
        var q := questions[i];
        UpsertOneMore(progress, questions, i);
        UpsertedIs(rows, q);
        if q.id !in rows || rows[q.id].revision != q.revision {
          rows := rows[q.id := Progress(q.revision, 0, None, None, None)];
        }
        retained, i := retained + {q.id}, i + 1;
      }
      assert questions[..i] == questions;
      UpsertKeys(progress, questions);
      var removed := rows.Keys - retained;
      rows := rows - removed;
    }

    /** ConstantTimeCompare of the hashes, which stands for comparing the normalized texts. */
    method IsAccepted(q: Question, answer: string) returns (correct: bool)
      ensures correct <==> Accepted(q, answer)
    {
      correct := false;
      var i := 0;
      while i < |q.accepted|
        invariant 0 <= i <= |q.accepted|
        invariant correct <==> exists j ::
                    0 <= j < i && normalize(q.accepted[j], q.caseSensitive) == normalize(answer, q.caseSensitive)
      {
        if normalize(q.accepted[i], q.caseSensitive) == normalize(answer, q.caseSensitive) {
          correct := true;
        }
        i := i + 1;
      }
    }

    ghost predicate Asked(q: Question, id: string)
      reads `challenge
    {
      exists i :: 0 <= i < |challenge.questions| && challenge.questions[i] == q && q.id == id &&
        forall j :: 0 <= j < i ==> challenge.questions[j].id != id
    }

    method Find(id: string) returns (q: Option<Question>)
      ensures q.None? <==> forall i :: 0 <= i < |challenge.questions| ==> challenge.questions[i].id != id
      ensures q.Some? ==> Asked(q.value, id)
    {
      var i := 0;
      while i < |challenge.questions|
        invariant 0 <= i <= |challenge.questions| && forall j :: 0 <= j < i ==> challenge.questions[j].id != id
      {
        if challenge.questions[i].id == id {
          return Some(challenge.questions[i]);
        }
        i := i + 1;
      }
      q := None;
    }

    ghost predicate Accepted(q: Question, answer: string) {
      exists i :: 0 <= i < |q.accepted| && normalize(q.accepted[i], q.caseSensitive) ==
          normalize(answer, q.caseSensitive)
    }

    /** One answer: judged, refused for now, or counted; `commits` says whether the database takes the change. */
    method SubmitAnswer(id: string, answer: string, now: int, commits: bool)
      returns (outcome: Outcome, ghost asked: Question)
      requires Valid()
      modifies `progress, `history, `clock, `steady, `submitted
      ensures Valid() && steady == (old(steady) && now >= old(clock)) && clock == Later(old(clock), now)
      ensures outcome.NotFound? <==> forall i :: 0 <= i < |challenge.questions| ==> challenge.questions[i].id != id
      ensures submitted == old(submitted) + if outcome.NotFound? then {} else {Attempt(asked, answer, now)}
      ensures outcome.Counted? || outcome.AlreadySolved? ==>
                id in old(progress) && id in progress && progress == old(progress)[id := progress[id]]
      ensures outcome.Counted? || outcome.AlreadySolved? ==> old(progress)[id].revision == asked.revision
      ensures outcome.Counted? ==> Counts(old(progress)[id], progress[id], answer, now, outcome.correct)
      ensures outcome.Counted? ==>
                old(progress)[id].solvedAt.None? && history == old(history)[id := old(history)[id] + [now]]
      ensures !outcome.NotFound? ==> Asked(asked, id)
      ensures outcome.Unavailable? <==>
                !outcome.NotFound? && (id !in old(progress) || old(progress)[id].revision != asked.revision)
      ensures outcome.Failed? ==> !commits
      ensures outcome.Counted? || outcome.AlreadySolved? ==> (outcome.correct <==> Accepted(asked, answer))
      ensures outcome.AlreadySolved? ==>
                id in old(progress) && old(progress)[id].solvedAt.Some? && history == old(history)
      ensures outcome.AlreadySolved? ==> Completes(old(progress)[id], progress[id], answer, outcome.correct)
      ensures outcome.TooSoon? ==>
                id in old(progress) && Waits(challenge, old(progress)[id], now) == Some(outcome.remaining)
      ensures outcome.Counted? ==> Waits(challenge, old(progress)[id], now).None?
      ensures outcome.NotFound? || outcome.Unavailable? || outcome.Failed? || outcome.TooSoon? ==>
                progress == old(progress) && history == old(history)
    {
      hide AllRecorded, AllEarned, Recorded, Required, Spaced, Accepted, Asked, Waits;
      ClockMoves(progress, history, earlier, challenge, steady, clock, now);
      steady, clock := steady && now >= clock, Later(clock, now);
      var found := Find(id);
      asked := Question(id, 0, [], false);
      if found.None? {
        outcome := NotFound;
        return;
      }
      var q := found.value;
      asked := q;
      MoreAttempts(progress, submitted, Attempt(q, answer, now));
      submitted := submitted + {Attempt(q, answer, now)};
      var correct := IsAccepted(q, answer);
      if id !in progress || progress[id].revision != q.revision {
        outcome := Unavailable;
        return;
      }
      outcome := Judge(id, q, answer, now, correct, commits);
    }

    /** The transaction of an answer to a question whose row is of the current revision. */
    method Judge(id: string, q: Question, answer: string, now: int, correct: bool, commits: bool)
      returns (outcome: Outcome)
      requires Valid() && id in progress && progress[id].revision == q.revision && q.id == id
      requires Attempt(q, answer, now) in submitted && (correct <==> Accepted(q, answer)) && (steady ==> now == clock)
      modifies `progress, `history
      ensures Valid() && (outcome.Failed? || outcome.TooSoon? || outcome.Counted? || outcome.AlreadySolved?)
      ensures outcome.Failed? || outcome.TooSoon? ==> progress == old(progress) && history == old(history)
      ensures outcome.Failed? ==> !commits
      ensures outcome.TooSoon? ==> Waits(challenge, progress[id], now) == Some(outcome.remaining)
      ensures outcome.Counted? || outcome.AlreadySolved? ==>
                id in progress && progress == old(progress)[id := progress[id]] && outcome.correct == correct
      ensures outcome.Counted? ==>
                old(progress)[id].solvedAt.None? && Waits(challenge, old(progress)[id], now).None? &&
                id in old(history) && history == old(history)[id := old(history)[id] + [now]] &&
                Counts(old(progress)[id], progress[id], answer, now, correct)
      ensures outcome.AlreadySolved? ==>
                old(progress)[id].solvedAt.Some? && history == old(history) &&
                Completes(old(progress)[id], progress[id], answer, correct)
    {
      hide AllRecorded, AllEarned, Recorded, Required, Spaced, Accepted, Waits;
      var row := progress[id];
      if row.solvedAt.Some? {
        if !commits {
          outcome := Failed;
          return;
        }
        var now' := if row.answer.None? && correct then row.(answer := Some(answer)) else row;
        AnswerStored(progress, history, earlier, challenge, steady, clock, id, now');
        EarnedBy(progress, submitted, Attempt(q, answer, now), id, now');
        progress := progress[id := now'];
        outcome := AlreadySolved(correct);
        return;
      }
      var remaining := Remaining(challenge, row, now);
      if remaining.Some? {
        outcome := TooSoon(remaining.value);
        return;
      }
      if !commits {
        outcome := Failed;
        return;
      }
      NoWaitLeft(progress, history, earlier, challenge, steady, clock, id, now);
      var counted := row.(attempts := row.attempts + 1, last := Some(now));
      if correct {
        counted := counted.(solvedAt := Some(now), answer := Some(answer));
      }
      AttemptCounted(progress, history, earlier, challenge, steady, clock, id, now, counted);
      EarnedBy(progress, submitted, Attempt(q, answer, now), id, counted);
      progress := progress[id := counted];
      history := history[id := history[id] + [now]];
      outcome := Counted(correct);
    }

    /** What is left of the cooldown since the last attempt. */
    static method Remaining(c: Challenge, row: Progress, now: int) returns (remaining: Option<int>)
      ensures remaining == Waits(c, row, now)
    {
      hide Required;
      var cooldown := CooldownAfter(c.cooldown, c.cap, row.attempts);
      if row.last.Some? && cooldown > 0 {
        var left := Wrapped(cooldown - Since(now, row.last.value));
        if left > 0 {
          return Some(left);
        }
      }
      remaining := None;
    }

    /** Some accepted answer to the question was submitted. */
    ghost predicate Answered(q: Question)
      reads this
    {
      exists a :: a in submitted && Right(a, q.id, q.revision)
    }

    lemma SolvedIsAnswered(q: Question)
      requires Valid() && Available(q) && SolvedNow(q)
      ensures Answered(q)
    {
      hide Right, AllRecorded;
      assert Earned(q.id, progress[q.id], submitted);
    }

    /** The state that is shown: the flag only with every question solved. */
    method State() returns (r: Option<ChallengeState>)
      requires Valid()
      ensures r.Some? && r.value.completed ==>
                forall i :: 0 <= i < |challenge.questions| ==> Answered(challenge.questions[i])
      ensures r.Some? ==>
                r.value.solved == Solved(|challenge.questions|)
      ensures r.Some? <==> forall i :: 0 <= i < |challenge.questions| ==> Available(challenge.questions[i])
      ensures r.Some? ==>
                |r.value.questions| == r.value.total == |challenge.questions| && r.value.solved <= r.value.total
      ensures r.Some? ==> forall i :: 0 <= i < |challenge.questions| ==>
                Shows(challenge.questions[i], r.value.questions[i])
      ensures r.Some? ==> (r.value.completed <==>
                challenge.questions != [] &&
                forall i :: 0 <= i < |challenge.questions| ==> SolvedNow(challenge.questions[i]))
      ensures r.Some? ==> r.value.flag == if r.value.completed then challenge.flag else ""
    {
      hide AllRecorded, AllEarned, Answered;
      var questions: seq<QuestionState> := [];
      var solved, i := 0, 0;
      while i < |challenge.questions|
        invariant 0 <= i == |questions| <= |challenge.questions|
        invariant forall j :: 0 <= j < i ==>
                    Available(challenge.questions[j]) && Shows(challenge.questions[j], questions[j])
        invariant solved == Solved(i)
      {
        hide SolvedNow, Shows;
        var q := challenge.questions[i];
        OneMoreSolved(i);
        var current := Show(q);
        if current.None? {
          return None;
        }
        if current.value.solved {
          solved := solved + 1;
        }
        questions, i := questions + [current.value], i + 1;
      }
      var total := |challenge.questions|;
      SolvedCount(total);
      var completed := total > 0 && solved == total;
      if completed {
        AllAnswered();
      }
      r := Some(ChallengeState(questions, solved, total, completed, if completed then challenge.flag else ""));
    }

    method Show(q: Question) returns (r: Option<QuestionState>)
      ensures r.Some? <==> Available(q)
      ensures r.Some? ==> Shows(q, r.value) && (r.value.solved <==> SolvedNow(q))
    {
      if q.id !in progress || progress[q.id].revision != q.revision {
        return None;
      }
      var row := progress[q.id];
      if row.solvedAt.None? {
        return Some(QuestionState(q.id, row.attempts, false, None, ""));
      }
      var answer := if row.answer.Some? then row.answer.value else "";
      r := Some(QuestionState(q.id, row.attempts, true, row.solvedAt, answer));
    }

    lemma AllAnswered()
      requires Valid()
      requires forall i :: 0 <= i < |challenge.questions| ==>
                 Available(challenge.questions[i]) && SolvedNow(challenge.questions[i])
      ensures forall i :: 0 <= i < |challenge.questions| ==> Answered(challenge.questions[i])
    {
      forall i | 0 <= i < |challenge.questions|
        ensures Answered(challenge.questions[i])
      {
        SolvedIsAnswered(challenge.questions[i]);
      }
    }

    lemma {:induction false} SolvedCount(n: nat)
      requires n <= |challenge.questions|
      ensures var count := Solved(n);
              count <= n && (count == n <==> forall i :: 0 <= i < n ==> SolvedNow(challenge.questions[i]))
    {
      hide SolvedNow;
      if n > 0 {
        SolvedCount(n - 1);
        OneMoreSolved(n - 1);
      }
    }

    /** How many of the first n questions are solved. */
    ghost function Solved(n: nat): nat
      requires n <= |challenge.questions|
      reads this
    {
      |set i | 0 <= i < n && SolvedNow(challenge.questions[i])|
    }

    lemma OneMoreSolved(i: nat)
      requires i < |challenge.questions|
      ensures Solved(i + 1) ==
              Solved(i) + if SolvedNow(challenge.questions[i]) then 1 else 0
    {
      hide SolvedNow;
      var before := set j | 0 <= j < i && SolvedNow(challenge.questions[j]);
      var after := set j | 0 <= j < i + 1 && SolvedNow(challenge.questions[j]);
      assert after == before + if SolvedNow(challenge.questions[i]) then {i} else {};
    }

    ghost predicate Available(q: Question)
      reads this
    {
      q.id in progress && progress[q.id].revision == q.revision
    }

    ghost predicate SolvedNow(q: Question)
      reads this
    {
      q.id in progress && progress[q.id].solvedAt.Some?
    }

    ghost predicate Shows(q: Question, s: QuestionState)
      reads this
    {
      Available(q) && s.id == q.id && s.attempts == progress[q.id].attempts &&
          s.solved == progress[q.id].solvedAt.Some? &&
      s.solvedAt == progress[q.id].solvedAt &&
      s.answer == if s.solved && progress[q.id].answer.Some? then progress[q.id].answer.value else ""
    }
  }

  function Later(a: int, b: int): int {
    if a < b then b else a
  }

  lemma ClockMoves(progress: map<string, Progress>, history: map<string, seq<int>>, earlier: map<string, nat>,
                   challenge: Challenge,
                   steady: bool, clock: int, now: int)
    requires AllRecorded(progress, history, earlier, challenge, steady, clock)
    ensures AllRecorded(progress, history, earlier, challenge, steady && now >= clock, Later(clock, now))
  {
    hide Spaced;
    forall id | id in progress
      ensures Recorded(progress[id], history[id], earlier[id], challenge, steady && now >= clock, Later(clock, now))
    {
      assert Recorded(progress[id], history[id], earlier[id], challenge, steady, clock);
    }
  }

  lemma RowIs(progress: map<string, Progress>, history: map<string, seq<int>>, earlier: map<string, nat>,
              challenge: Challenge,
              steady: bool, clock: int, id: string)
    requires AllRecorded(progress, history, earlier, challenge, steady, clock) && id in progress
    ensures id in history && id in earlier && Recorded(progress[id], history[id], earlier[id], challenge, steady, clock)
  {}

  lemma RowChanged(progress: map<string, Progress>, history: map<string, seq<int>>, earlier: map<string, nat>,
                   challenge: Challenge,
                   steady: bool, clock: int, id: string, p: Progress, h: seq<int>)
    requires AllRecorded(progress, history, earlier, challenge, steady, clock) && id in progress
    requires Recorded(p, h, earlier[id], challenge, steady, clock)
    ensures AllRecorded(progress[id := p], history[id := h], earlier, challenge, steady, clock)
  {
    hide Recorded;
  }

  lemma AnswerStored(progress: map<string, Progress>, history: map<string, seq<int>>, earlier: map<string, nat>,
                     challenge: Challenge,
                     steady: bool, clock: int, id: string, row: Progress)
    requires AllRecorded(progress, history, earlier, challenge, steady, clock) && id in progress
    requires row == progress[id].(answer := row.answer)
    ensures AllRecorded(progress[id := row], history, earlier, challenge, steady, clock)
  {
    RowIs(progress, history, earlier, challenge, steady, clock, id);
    RowChanged(progress, history, earlier, challenge, steady, clock, id, row, history[id]);
    assert history[id := history[id]] == history;
  }

  lemma RequiredFits(c: Challenge, attempts: nat)
    ensures Required(c.cooldown, c.cap, attempts) <= MAX_INT64
  {}

  /** While the clock does not go back, no wait is left exactly if it has passed. */
  lemma NoWaitLeft(progress: map<string, Progress>, history: map<string, seq<int>>, earlier: map<string, nat>,
                   challenge: Challenge, steady: bool, clock: int, id: string, now: int)
    requires AllRecorded(progress, history, earlier, challenge, steady, clock) && id in progress
    requires Waits(challenge, progress[id], now).None? && (steady ==> now == clock)
    ensures steady && progress[id].last.Some? ==>
              now - progress[id].last.value >= Required(challenge.cooldown, challenge.cap, progress[id].attempts)
  {
    RowIs(progress, history, earlier, challenge, steady, clock, id);
    hide Required, Spaced;
    RequiredFits(challenge, progress[id].attempts);
  }

  /** An attempt that is let through is far enough from the one before it. */
  lemma AttemptCounted(progress: map<string, Progress>, history: map<string, seq<int>>, earlier: map<string, nat>,
                       challenge: Challenge,
                       steady: bool, clock: int, id: string, now: int, row: Progress)
    requires AllRecorded(progress, history, earlier, challenge, steady, clock) && id in progress
    requires row.attempts == progress[id].attempts + 1 && row.last == Some(now)
    requires steady ==> now == clock
    requires steady && progress[id].last.Some? ==>
               now - progress[id].last.value >= Required(challenge.cooldown, challenge.cap, progress[id].attempts)
    ensures id in history &&
            AllRecorded(progress[id := row], history[id := history[id] + [now]], earlier, challenge, steady, clock)
  {
    RowIs(progress, history, earlier, challenge, steady, clock, id);
    hide Required, AllRecorded;
    var p, h := progress[id], history[id];
    var more := h + [now];
    if steady {
      forall i | earlier[id] <= i < |more| && i > 0
        ensures more[i] - more[i - 1] >= Required(challenge.cooldown, challenge.cap, i)
      {
        if i < |h| {
          assert h[i] - h[i - 1] >= Required(challenge.cooldown, challenge.cap, i);
        }
      }
    }
    RowChanged(progress, history, earlier, challenge, steady, clock, id, row, more);
  }

  lemma UpsertedIs(rows: map<string, Progress>, q: Question)
    ensures rows[q.id := Upserted(rows, q)] ==
            if q.id in rows && rows[q.id].revision == q.revision then rows
            else rows[q.id := Progress(q.revision, 0, None, None, None)]
  {}

  lemma RowsAreIndependent(progress: map<string, Progress>, questions: seq<Question>, rows: map<string, Progress>)
    requires Reconciled(progress, questions, rows)
    ensures DistinctIds(questions) ==>
              forall i :: 0 <= i < |questions| ==>
                questions[i].id in rows && KeptOrFresh(progress, questions[i], rows[questions[i].id])
  {
    if DistinctIds(questions) {
      UpsertsAreIndependent(progress, questions);
      hide UpsertAll, KeptOrFresh;
    }
  }

  lemma NothingUpserted(progress: map<string, Progress>)
    ensures UpsertAll(progress, []) == progress && IdsOf([]) == {}
  {}

  lemma UpsertOneMore(progress: map<string, Progress>, questions: seq<Question>, i: nat)
    requires i < |questions|
    ensures var before, q := UpsertAll(progress, questions[..i]), questions[i];
            UpsertAll(progress, questions[..i + 1]) == before[q.id := Upserted(before, q)]
    ensures IdsOf(questions[..i + 1]) == IdsOf(questions[..i]) + {questions[i].id}
  {
    hide Upserted;
    assert questions[..i + 1][..i] == questions[..i];
    assert questions[..i + 1][i] == questions[i];
    assert forall k :: 0 <= k < i ==> questions[..i + 1][k] == questions[..i][k];
  }

  lemma {:induction false} UpsertKeys(progress: map<string, Progress>, questions: seq<Question>)
    ensures UpsertAll(progress, questions).Keys == progress.Keys + IdsOf(questions)
    decreases |questions|
  {
    if questions != [] {
      var front, q := questions[..|questions| - 1], questions[|questions| - 1];
      UpsertKeys(progress, front);
      assert questions == front + [q];
      assert IdsOf(questions) == IdsOf(front) + {q.id};
    }
  }

  /** A row is the one there was before, or counts nothing yet. */
  lemma {:induction false} UpsertIsOldOrNew(progress: map<string, Progress>, questions: seq<Question>)
    ensures forall id :: id in UpsertAll(progress, questions) ==>
              var p := UpsertAll(progress, questions)[id];
              (id in progress && p == progress[id]) ||
              (p.attempts == 0 && p.last == None && p.solvedAt == None && p.answer == None)
    decreases |questions|
  {
    if questions != [] {
      UpsertIsOldOrNew(progress, questions[..|questions| - 1]);
    }
  }

  lemma StillRecorded(progress: map<string, Progress>, history: map<string, seq<int>>, earlier: map<string, nat>,
                      before: Challenge, after: Challenge,
                      steady: bool, clock: int, rows: map<string, Progress>)
    requires AllRecorded(progress, history, earlier, before, steady, clock)
    requires Reconciled(progress, after.questions, rows)
    ensures AllRecorded(rows, KeptHistory(progress, history, rows),
                        KeptEarlier(progress, history, earlier, rows, SameWaits(before, after)), after, steady, clock)
  {
    UpsertIsOldOrNew(progress, after.questions);
    hide UpsertAll, IdsOf;
    var kept := KeptHistory(progress, history, rows);
    var counts := KeptEarlier(progress, history, earlier, rows, SameWaits(before, after));
    forall id | id in rows
      ensures Recorded(rows[id], kept[id], counts[id], after, steady, clock)
    {
      if id in progress && rows[id] == progress[id] {
        RecordedAgain(rows[id], history[id], earlier[id], before, after, steady, clock);
      }
    }
  }

  // ----- Over a run -------------------------------------------------------------------------------------

  /** What happens to an investigation: a start of the server with a manifest, or an answer. */
  datatype Command = Configure(challenge: Challenge) | Submit(id: string, answer: string, now: int)

  /** No start changes the waits. */
  ghost predicate KeepWaits(commands: seq<Command>, challenge: Challenge) {
    forall i :: 0 <= i < |commands| && commands[i].Configure? ==> SameWaits(commands[i].challenge, challenge)
  }

  /** An answer of a run, to a question of the configuration at that time. */
  ghost predicate Comes(a: Attempt, commands: seq<Command>, first: Challenge) {
    exists k :: 0 <= k < |commands| && commands[k] == Submit(a.question.id, a.answer, a.time) &&
      Configured(a.question, commands[..k], first)
  }

  ghost predicate Configured(q: Question, commands: seq<Command>, first: Challenge) {
    q in first.questions ||
    exists j :: 0 <= j < |commands| && commands[j].Configure? && q in commands[j].challenge.questions
  }

  lemma ComesNow(commands: seq<Command>, i: nat, now: Challenge, first: Challenge, q: Question)
    requires i < |commands| && commands[i].Submit? && q in now.questions && q.id == commands[i].id
    requires now == first || exists j :: 0 <= j < i && commands[j] == Configure(now)
    ensures Comes(Attempt(q, commands[i].answer, commands[i].now), commands[..i + 1], first)
  {
    var c := commands[..i + 1];
    assert c[i] == Submit(q.id, commands[i].answer, commands[i].now);
    assert c[..i] == commands[..i];
    if now != first {
      var j :| 0 <= j < i && commands[j] == Configure(now);
      assert commands[..i][j].Configure?;
    }
    assert Configured(q, c[..i], first);
  }

  lemma ComesEarlier(a: Attempt, commands: seq<Command>, n: nat, first: Challenge)
    requires n <= |commands| && Comes(a, commands[..n], first)
    ensures Comes(a, commands, first)
  {
    hide Configured;
    var k :| 0 <= k < n && commands[..n][k] == Submit(a.question.id, a.answer, a.time) &&
      Configured(a.question, commands[..n][..k], first);
    assert commands[..n][..k] == commands[..k];
  }

  /** Every counted attempt of every row is judged. */
  ghost predicate AllJudged(earlier: map<string, nat>) {
    forall id :: id in earlier ==> earlier[id] == 0
  }

  /**
    Any answers at any times and any restarts in between, each of which may fail: what Valid says of the attempts
    holds after all of them. As long as the waits stay the same, restarts included, it says it of all attempts.
   */
  method Run(store: Investigation, commands: seq<Command>)
    requires store.Valid()
    modifies store
    ensures store.Valid()
    ensures KeepWaits(commands, old(store.challenge)) ==> SameWaits(store.challenge, old(store.challenge))
    ensures KeepWaits(commands, old(store.challenge)) && old(AllJudged(store.earlier)) ==> AllJudged(store.earlier)
    ensures forall a :: a in store.submitted ==> a in old(store.submitted) || Comes(a, commands, old(store.challenge))
  {
    ghost var first, before, judged := store.challenge, store.submitted, AllJudged(store.earlier);
    ghost var same := KeepWaits(commands, first);
    var i := 0;
    while i < |commands|
      invariant 0 <= i <= |commands| && store.Valid()
      invariant same ==> SameWaits(store.challenge, first) && (judged ==> AllJudged(store.earlier))
      invariant store.challenge == first || exists j :: 0 <= j < i && commands[j] == Configure(store.challenge)
      invariant forall a :: a in store.submitted ==> a in before || Comes(a, commands[..i], first)
    {
      ghost var submitted := store.submitted;
      ghost var challenge := store.challenge;
      RunCommand(store, commands[i]);
      forall a | a in store.submitted && a !in before
        ensures Comes(a, commands[..i + 1], first)
      {
        if a in submitted {
          assert commands[..i + 1][..i] == commands[..i];
          ComesEarlier(a, commands[..i + 1], i, first);
        } else {
          ComesNow(commands, i, challenge, first, a.question);
        }
      }
      i := i + 1;
    }
    assert commands[..i] == commands;
  }

  lemma SameKeys(progress: map<string, Progress>, history: map<string, seq<int>>, earlier: map<string, nat>,
                 challenge: Challenge, steady: bool, clock: int)
    requires AllRecorded(progress, history, earlier, challenge, steady, clock)
    ensures history.Keys == earlier.Keys
  {}

  lemma JudgedStays(progress: map<string, Progress>, history: map<string, seq<int>>, earlier: map<string, nat>,
                    rows: map<string, Progress>)
    requires AllJudged(earlier) && history.Keys == earlier.Keys
    ensures AllJudged(KeptEarlier(progress, history, earlier, rows, true))
  {}

  method RunCommand(store: Investigation, command: Command)
    requires store.Valid()
    modifies store
    ensures store.Valid()
    ensures store.challenge == old(store.challenge) ||
              (command == Configure(store.challenge) && store.submitted == old(store.submitted))
    ensures SameWaits(store.challenge, old(store.challenge)) && old(AllJudged(store.earlier)) ==>
              AllJudged(store.earlier)
    ensures forall a :: a in store.submitted && a !in old(store.submitted) ==>
              command == Submit(a.question.id, a.answer, a.time) && a.question in store.challenge.questions
  {
    hide AllRecorded, Required, Waits, Counts, Completes, Reconciled, KeptOrFresh, DistinctIds;
    var commits := *;
    match command {
      case Configure(challenge) =>
        ghost var progress, history, earlier := store.progress, store.history, store.earlier;
        SameKeys(progress, history, earlier, store.challenge, store.steady, store.clock);
        var ok := store.ConfigureChallenge(challenge, commits);
        if AllJudged(earlier) {
          JudgedStays(progress, history, earlier, store.progress);
        }
      case Submit(id, answer, now) =>
        ghost var asked;
        var outcome;
        outcome, asked := store.SubmitAnswer(id, answer, now, commits);
    }
  }

  /** The waits that the configuration promises after wrong answers m + 1 to k. */
  ghost function TotalPromised(challenge: Challenge, m: nat, k: nat): int
    requires m <= k
  {
    if m == k then 0 else TotalPromised(challenge, m, k - 1) + Promised(challenge.cooldown, challenge.cap, k)
  }

  lemma {:induction false} PromiseIsKept(challenge: Challenge, m: nat, k: nat)
    requires m <= k && challenge.cooldown > 0 && challenge.cap <= HALF
    ensures TotalWait(challenge, m, k) == TotalPromised(challenge, m, k)
  {
    hide Promised;
    if m < k {
      PromiseIsKept(challenge, m, k - 1);
    }
  }

  /**
    With a positive cooldown, a cap that cannot overflow and a clock that never goes back: between attempts m and k
    of the current configuration lie at least the waits promised for every attempt in between.
   */
  lemma AttemptsTakeTheirTime(store: Investigation, id: string, m: nat, k: nat)
    requires store.Valid() && store.steady && id in store.progress
    requires store.challenge.cooldown > 0 && store.challenge.cap <= HALF
    ensures id in store.history && id in store.earlier && store.progress[id].attempts == |store.history[id]|
    ensures store.earlier[id] <= m + 1 && m <= k < |store.history[id]| ==>
              store.history[id][k] - store.history[id][m] >= TotalPromised(store.challenge, m, k)
  {
    RowIs(store.progress, store.history, store.earlier, store.challenge, store.steady, store.clock, id);
    hide Required, TotalWait, TotalPromised, Spaced;
    if store.earlier[id] <= m + 1 && m <= k < |store.history[id]| {
      TimeBetweenAttempts(store.history[id], store.earlier[id], store.challenge, m, k);
      PromiseIsKept(store.challenge, m, k);
    }
  }
}
