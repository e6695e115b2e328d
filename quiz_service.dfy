/**
 * The quiz service: generating a quiz for a concept, handling a student's answer
 * (response log, BKT update, forgetting-curve schedule) and assembling the daily
 * set of pending quizzes.
 */
module QuizService {
  import opened Wrappers
  import opened ForgettingCurve
  import opened MemoryStore
  import KtEngine

  datatype QuizError = QuestionNotFound | ConceptNotFound | UpstreamFailure

  function Min(a: nat, b: nat): nat {
    if a <= b then a else b
  }

  // ---------------------------------------------------------------------------
  // generateQuizForConcept
  // ---------------------------------------------------------------------------

  /**
   * generateQuizForConcept fails with ConceptNotFound for an unknown concept. The
   * retrieval, generation and persistence calls behind it are external; whether
   * they complete is the oracle `upstreamOk`. On success the quiz is about the
   * concept looked up.
   */
  function GenerateQuizForConcept(concepts: seq<Concept>, conceptId: string, upstreamOk: bool)
    : (r: Result<Concept, QuizError>)
    ensures r == Err(ConceptNotFound) <==> conceptId !in ConceptIds(concepts)
    ensures r.Ok? <==> conceptId in ConceptIds(concepts) && upstreamOk
    ensures r.Ok? ==> r.value in concepts && r.value.id == conceptId
  {
    match FindConcept(concepts, conceptId)
    case None => Err(ConceptNotFound)
    case Some(c) => if upstreamOk then Ok(c) else Err(UpstreamFailure)
  }

  // ---------------------------------------------------------------------------
  // submitResponse
  // ---------------------------------------------------------------------------

  /** Retention target of the schedule set after an answer. */
  const ResponseRetention: real := 0.7
  /** Lower bound on stability, in days. */
  const StabilityFloor: real := 0.5

  /** Stability in days: ten times the mastery, but never below the floor. */
  function Stability(mastery: real): (s: real)
    ensures s >= StabilityFloor && s >= 10.0 * mastery
    ensures s == StabilityFloor || s == 10.0 * mastery
  {
    if StabilityFloor >= 10.0 * mastery then StabilityFloor else 10.0 * mastery
  }

  /**
   * The schedule written by submitResponse, which inlines the forgetting curve with
   * target 0.7: now plus -stability * Math.log(0.7) days.
   */
  function ResponseNextReview(now: real, stability: real): (r: real)
    ensures stability > 0.0 ==> r > now
  {
    ReviewTime(now, stability, LnDefaultRetention)
  }

  /** An entry is the one tracking this student and this concept. */
  predicate Tracks(e: MemoryEntry, studentId: string, conceptId: string) {
    e.studentId == studentId && e.conceptId == conceptId
  }

  /** memoryEntry.findFirst from position i on. */
  function FindFirstFrom(es: seq<MemoryEntry>, studentId: string, conceptId: string, i: nat): (r: Option<nat>)
    requires i <= |es|
    ensures r.Some? ==> i <= r.value < |es| && Tracks(es[r.value], studentId, conceptId)
    ensures r.Some? ==> forall j :: i <= j < r.value ==> !Tracks(es[j], studentId, conceptId)
    ensures r.None? ==> forall j :: i <= j < |es| ==> !Tracks(es[j], studentId, conceptId)
    decreases |es| - i
  {
    if i == |es| then None
    else if Tracks(es[i], studentId, conceptId) then Some(i)
    else FindFirstFrom(es, studentId, conceptId, i + 1)
  }

  /** memoryEntry.findFirst: the first entry in store order that tracks the pair. */
  function FindFirst(es: seq<MemoryEntry>, studentId: string, conceptId: string): (r: Option<nat>)
    ensures r.Some? ==> r.value < |es| && Tracks(es[r.value], studentId, conceptId)
    ensures r.Some? ==> forall j :: 0 <= j < r.value ==> !Tracks(es[j], studentId, conceptId)
    ensures r.None? <==> forall j :: 0 <= j < |es| ==> !Tracks(es[j], studentId, conceptId)
  {
    FindFirstFrom(es, studentId, conceptId, 0)
  }

  /** The entry after an answer: BKT mastery, reviewed now, rescheduled by the forgetting curve. */
  function Reviewed(e: MemoryEntry, isCorrect: bool, now: real): (r: MemoryEntry)
    requires EntryValid(e)
    ensures r.studentId == e.studentId && r.conceptId == e.conceptId && r.courseId == e.courseId
    ensures r.mastery == KtEngine.UpdateMastery(e.mastery, isCorrect)
    ensures r.lastReview == Some(now) && r.nextReview > now
    ensures EntryValid(r)
  {
    var newMastery := KtEngine.UpdateMastery(e.mastery, isCorrect);
    var stability := Stability(newMastery);
    e.(mastery := newMastery, lastReview := Some(now), nextReview := ResponseNextReview(now, stability))
  }

  /** The entry store after an answer: only the first entry tracking the pair is reviewed. */
  function RecordReview(es: seq<MemoryEntry>, studentId: string, conceptId: string, isCorrect: bool, now: real)
    : (r: seq<MemoryEntry>)
    requires EntriesValid(es)
    ensures |r| == |es| && EntriesValid(r)
  {
    match FindFirst(es, studentId, conceptId)
    case None => es
    case Some(k) => es[k := Reviewed(es[k], isCorrect, now)]
  }

  datatype MasteryUpdate = MasteryUpdate(newMastery: real, nextReview: real)

  /** What submitResponse returns; `update` is present only when an entry tracks the concept. */
  datatype SubmitOutcome = SubmitOutcome(correct: bool, correctAnswer: string, update: Option<MasteryUpdate>)

  /**
   * submitResponse. An unknown question fails and changes nothing. Otherwise the
   * answer is logged, and the first entry tracking the student and the question's
   * concept (if any) gets the BKT update and a new schedule, which are returned.
   */
  method SubmitResponse(db: Database, studentId: string, questionId: string,
                        selectedOption: string, latencyMs: int, now: real)
    returns (r: Result<SubmitOutcome, QuizError>)
    requires db.Valid()
    modifies db
    ensures db.Valid()
    ensures db.questions == old(db.questions) && db.concepts == old(db.concepts)
    ensures db.courseIds == old(db.courseIds)
    ensures questionId !in old(db.questions) ==>
      r == Err(QuestionNotFound) &&
      db.entries == old(db.entries) && db.responses == old(db.responses)
    ensures questionId in old(db.questions) ==>
      var q := old(db.questions)[questionId];
      var isCorrect := selectedOption == q.answer;
      && r.Ok?
      && r.value.correct == isCorrect
      && r.value.correctAnswer == q.answer
      && db.responses == old(db.responses) + [Response(studentId, questionId, isCorrect, latencyMs, now)]
      && db.entries == RecordReview(old(db.entries), studentId, q.conceptId, isCorrect, now)
      && match FindFirst(old(db.entries), studentId, q.conceptId)
         case None => r.value.update == None
         case Some(k) => r.value.update == Some(MasteryUpdate(db.entries[k].mastery, db.entries[k].nextReview))
  {
    if questionId !in db.questions {
      return Err(QuestionNotFound);
    }
    var question := db.questions[questionId];
    var isCorrect := question.answer == selectedOption;

    db.responses := db.responses + [Response(studentId, questionId, isCorrect, latencyMs, now)];

    var entries := db.entries;
    var found := FindFirst(entries, studentId, question.conceptId);
    match found {
      case None =>
        r := Ok(SubmitOutcome(isCorrect, question.answer, None));
      case Some(k) =>
        var updated := Reviewed(entries[k], isCorrect, now);
        entries := entries[k := updated];
        r := Ok(SubmitOutcome(isCorrect, question.answer, Some(MasteryUpdate(updated.mastery, updated.nextReview))));
    }
    assert entries == RecordReview(db.entries, studentId, question.conceptId, isCorrect, now);
    ReviewKeepsReferences(db.entries, db.concepts, studentId, question.conceptId, isCorrect, now);
    db.entries := entries;
  }

  lemma ReviewKeepsReferences(es: seq<MemoryEntry>, cs: seq<Concept>, studentId: string, conceptId: string,
                              isCorrect: bool, now: real)
    requires EntriesValid(es) && EntriesReferToConcepts(es, cs)
    ensures EntriesReferToConcepts(RecordReview(es, studentId, conceptId, isCorrect, now), cs)
  {
  }

  /**
   * Only the first entry tracking the pair changes; in particular a later duplicate
   * entry for the same student and concept is never updated.
   */
  lemma {:induction false} OnlyFirstMatchReviewed(es: seq<MemoryEntry>, studentId: string, conceptId: string,
                                                  isCorrect: bool, now: real)
    requires EntriesValid(es)
    ensures var r := RecordReview(es, studentId, conceptId, isCorrect, now);
      && (forall i :: 0 <= i < |es| && !Tracks(es[i], studentId, conceptId) ==> r[i] == es[i])
      && (forall i, j :: 0 <= i < j < |es| && Tracks(es[i], studentId, conceptId) ==> r[j] == es[j])
      && (forall i :: 0 <= i < |es| && r[i] != es[i] ==> r[i].lastReview == Some(now) && now < r[i].nextReview)
  {
    var r := RecordReview(es, studentId, conceptId, isCorrect, now);
    match FindFirst(es, studentId, conceptId)
    case None =>
    case Some(k) =>
      forall i, j | 0 <= i < j < |es| && Tracks(es[i], studentId, conceptId)
        ensures r[j] == es[j]
      {
        assert k <= i;
      }
  }

  /** Without an entry tracking the pair, the store is left exactly as it was. */
  lemma UntrackedConceptLeavesStore(es: seq<MemoryEntry>, studentId: string, conceptId: string,
                                    isCorrect: bool, now: real)
    requires EntriesValid(es)
    requires forall i :: 0 <= i < |es| ==> !Tracks(es[i], studentId, conceptId)
    ensures RecordReview(es, studentId, conceptId, isCorrect, now) == es
  {
  }

  /**
   * Since mastery after an update is at least the transit rate, the stability
   * computed from it is ten times that mastery and lies in [1, 10] days: the 0.5 floor
   * never applies.
   */
  lemma ResponseStabilityRange(m: real, isCorrect: bool)
    requires KtEngine.IsProbability(m)
    ensures var s := Stability(KtEngine.UpdateMastery(m, isCorrect));
      s == 10.0 * KtEngine.UpdateMastery(m, isCorrect) && 1.0 <= s <= 10.0
  {
  }

  /** One retention-day: the time, in milliseconds, for stability 1 to decay to the target. */
  function RetentionDay(): (d: real)
    ensures d > 0.0
  {
    UnitInterval(LnDefaultRetention)
  }

  /**
   * The interval granted by an answer lies between one and ten retention-days,
   * and it is at least as long after a correct answer as after a wrong one.
   */
  lemma {:induction false} ReviewIntervalBounds(e: MemoryEntry, now: real)
    requires EntryValid(e)
    ensures var right := Reviewed(e, true, now).nextReview - now;
      var wrong := Reviewed(e, false, now).nextReview - now;
      RetentionDay() <= wrong <= right <= 10.0 * RetentionDay()
  {
    var sr := Stability(KtEngine.UpdateMastery(e.mastery, true));
    var sw := Stability(KtEngine.UpdateMastery(e.mastery, false));
    KtEngine.CorrectDominatesIncorrect(e.mastery);
    ResponseStabilityRange(e.mastery, true);
    ResponseStabilityRange(e.mastery, false);
    IntervalsOrdered(now, sw, sr, LnDefaultRetention);
  }

  lemma IntervalsOrdered(now: real, sw: real, sr: real, lnTarget: real)
    requires 1.0 <= sw <= sr <= 10.0 && lnTarget < 0.0
    ensures UnitInterval(lnTarget) <= ReviewTime(now, sw, lnTarget) - now
    ensures ReviewTime(now, sw, lnTarget) - now <= ReviewTime(now, sr, lnTarget) - now
    ensures ReviewTime(now, sr, lnTarget) - now <= 10.0 * UnitInterval(lnTarget)
  {
    var unit := UnitInterval(lnTarget);
    ReviewIntervalLinear(now, sw, lnTarget);
    ReviewIntervalLinear(now, sr, lnTarget);
    ScaleMonotone(1.0, sw, unit);
    ScaleMonotone(sw, sr, unit);
    ScaleMonotone(sr, 10.0, unit);
    assert ReviewTime(now, sr, lnTarget) - now == sr * unit;
    assert sr * unit <= 10.0 * unit;
  }

  lemma ScaleMonotone(a: real, b: real, k: real)
    requires a <= b && k > 0.0
    ensures a * k <= b * k
  {
  }

  // ---------------------------------------------------------------------------
  // getPendingQuizzes
  // ---------------------------------------------------------------------------

  /** At most this many quizzes are offered at once. */
  const MaxPending: nat := 3
  const TempIdPrefix: string := "temp-question-"
  const FallbackOptions: seq<string> := ["Concept", "Process", "Tool", "Metric"]
  const FallbackAnswer: string := "Concept"

  /**
   * The generator's JSON as far as the validation looks at it: a field is None when
   * missing (or not a string; for options, not an array).
   */
  datatype RawQuiz = RawQuiz(question: Option<string>, options: Option<seq<string>>, answer: Option<string>)

  datatype QuizData = QuizData(question: string, options: seq<string>, answer: string)

  /** A quiz as handed to the student. */
  datatype PendingQuiz = PendingQuiz(conceptId: string, conceptLabel: string, question: string,
                                     options: seq<string>, id: string)

  /** A truthy string field: present and not empty. */
  predicate Present(s: Option<string>) {
    s.Some? && s.value != ""
  }

  /** Generated data that the validation accepts. */
  predicate WellFormed(raw: Option<RawQuiz>) {
    raw.Some? && Present(raw.value.question) && Present(raw.value.answer) && raw.value.options.Some?
  }

  /**
   * The validation refuses missing data and an empty question or answer; an empty
   * options array still passes.
   */
  lemma WellFormedCases()
    ensures !WellFormed(None)
    ensures forall question, answer :: !WellFormed(Some(RawQuiz(question, None, answer)))
    ensures forall options, answer :: !WellFormed(Some(RawQuiz(Some(""), options, answer)))
    ensures forall question, options :: !WellFormed(Some(RawQuiz(question, options, Some(""))))
    ensures forall question: string, answer: string :: question != "" && answer != "" ==>
      WellFormed(Some(RawQuiz(Some(question), Some([]), Some(answer))))
  {
  }

  function FallbackQuiz(conceptName: string): QuizData {
    QuizData("What is " + conceptName + "? (Fallback)", FallbackOptions, FallbackAnswer)
  }

  /** The validation step: well-formed data passes unchanged, anything else becomes the fallback. */
  function ValidateQuiz(raw: Option<RawQuiz>, conceptName: string): (q: QuizData)
    ensures WellFormed(raw) ==>
      q == QuizData(raw.value.question.value, raw.value.options.value, raw.value.answer.value)
    ensures !WellFormed(raw) ==> q == FallbackQuiz(conceptName)
    ensures q.question != "" && q.answer != ""
  {
    if WellFormed(raw) then QuizData(raw.value.question.value, raw.value.options.value, raw.value.answer.value)
    else FallbackQuiz(conceptName)
  }

  function AsRaw(q: QuizData): RawQuiz {
    RawQuiz(Some(q.question), Some(q.options), Some(q.answer))
  }

  /**
   * The fallback names the concept, offers the four fixed options and its answer is
   * one of them; validating validated data (for any concept) changes nothing.
   */
  lemma FallbackQuizShape(conceptName: string)
    ensures var q := FallbackQuiz(conceptName);
      && q.question == "What is " + conceptName + "? (Fallback)"
      && q.options == ["Concept", "Process", "Tool", "Metric"]
      && q.answer == "Concept" && q.answer in q.options
  {
  }

  lemma ValidateIdempotent(raw: Option<RawQuiz>, conceptName: string, otherName: string)
    ensures ValidateQuiz(Some(AsRaw(ValidateQuiz(raw, conceptName))), otherName) == ValidateQuiz(raw, conceptName)
  {
  }

  /** Positions of the student's entries at or after `from`, in store order. */
  function StudentPositions(es: seq<MemoryEntry>, studentId: string, from: nat): (ps: seq<nat>)
    requires from <= |es|
    ensures forall k :: 0 <= k < |ps| ==> from <= ps[k] < |es| && es[ps[k]].studentId == studentId
    ensures forall i :: from <= i < |es| && es[i].studentId == studentId ==> i in ps
    ensures forall k, l :: 0 <= k < l < |ps| ==> ps[k] < ps[l]
    decreases |es| - from
  {
    if from == |es| then []
    else if es[from].studentId == studentId then [from] + StudentPositions(es, studentId, from + 1)
    else StudentPositions(es, studentId, from + 1)
  }

  predicate InRange(es: seq<MemoryEntry>, ps: seq<nat>) {
    forall k :: 0 <= k < |ps| ==> ps[k] < |es|
  }

  /** Positions ordered by ascending nextReview. */
  predicate SortedByReview(es: seq<MemoryEntry>, ps: seq<nat>)
    requires InRange(es, ps)
  {
    forall k, l :: 0 <= k < l < |ps| ==> es[ps[k]].nextReview <= es[ps[l]].nextReview
  }

  function InsertByReview(es: seq<MemoryEntry>, p: nat, ps: seq<nat>): (r: seq<nat>)
    requires p < |es| && InRange(es, ps)
    ensures multiset(r) == multiset(ps) + multiset{p}
    ensures InRange(es, r)
  {
    if ps == [] || es[p].nextReview <= es[ps[0]].nextReview then
      [p] + ps
    else
      assert ps == [ps[0]] + ps[1..];
      [ps[0]] + InsertByReview(es, p, ps[1..])
  }

  /** A position due no later than every member of a sorted list can go in front of it. */
  lemma ConsSorted(es: seq<MemoryEntry>, x: nat, s: seq<nat>)
    requires x < |es| && InRange(es, s) && SortedByReview(es, s)
    requires forall k :: 0 <= k < |s| ==> es[x].nextReview <= es[s[k]].nextReview
    ensures InRange(es, [x] + s) && SortedByReview(es, [x] + s)
  {
    var r := [x] + s;
    forall k, l | 0 <= k < l < |r| ensures es[r[k]].nextReview <= es[r[l]].nextReview {
      if k == 0 {
        assert r[l] == s[l - 1];
      } else {
        assert r[k] == s[k - 1] && r[l] == s[l - 1];
      }
    }
  }

  /** Inserting p into ps gives only p and members of ps. */
  lemma InsertBounded(es: seq<MemoryEntry>, p: nat, ps: seq<nat>, bound: real)
    requires p < |es| && InRange(es, ps)
    requires bound <= es[p].nextReview
    requires forall k :: 0 <= k < |ps| ==> bound <= es[ps[k]].nextReview
    ensures forall k :: 0 <= k < |InsertByReview(es, p, ps)| ==> bound <= es[InsertByReview(es, p, ps)[k]].nextReview
  {
    var r := InsertByReview(es, p, ps);
    forall k | 0 <= k < |r| ensures bound <= es[r[k]].nextReview {
      assert r[k] in multiset(r);
      if r[k] != p {
        assert r[k] in multiset(ps);
        var i :| 0 <= i < |ps| && ps[i] == r[k];
      }
    }
  }

  lemma {:induction false} InsertKeepsSorted(es: seq<MemoryEntry>, p: nat, ps: seq<nat>)
    requires p < |es| && InRange(es, ps) && SortedByReview(es, ps)
    ensures SortedByReview(es, InsertByReview(es, p, ps))
  {
    if ps == [] || es[p].nextReview <= es[ps[0]].nextReview {
      ConsSorted(es, p, ps);
    } else {
      var tail := ps[1..];
      assert ps == [ps[0]] + tail;
      assert SortedByReview(es, tail) by {
        forall k, l | 0 <= k < l < |tail| ensures es[tail[k]].nextReview <= es[tail[l]].nextReview {
          assert tail[k] == ps[k + 1] && tail[l] == ps[l + 1];
        }
      }
      InsertKeepsSorted(es, p, tail);
      assert forall k :: 0 <= k < |tail| ==> es[ps[0]].nextReview <= es[tail[k]].nextReview by {
        forall k | 0 <= k < |tail| ensures es[ps[0]].nextReview <= es[tail[k]].nextReview {
          assert tail[k] == ps[k + 1];
        }
      }
      InsertBounded(es, p, tail, es[ps[0]].nextReview);
      ConsSorted(es, ps[0], InsertByReview(es, p, tail));
    }
  }

  /** Stable insertion sort of positions by nextReview (the orderBy of the query). */
  function SortByReview(es: seq<MemoryEntry>, ps: seq<nat>): (r: seq<nat>)
    requires InRange(es, ps)
    ensures multiset(r) == multiset(ps)
    ensures InRange(es, r) && SortedByReview(es, r)
  {
    if ps == [] then []
    else
      assert ps == [ps[0]] + ps[1..];
      var rest := SortByReview(es, ps[1..]);
      InsertKeepsSorted(es, ps[0], rest);
      InsertByReview(es, ps[0], rest)
  }

  /** The student's entries with the earliest nextReview, at most three. */
  function SelectPending(es: seq<MemoryEntry>, studentId: string): (sel: seq<nat>)
    ensures InRange(es, sel) && SortedByReview(es, sel)
    ensures |sel| == Min(MaxPending, |StudentPositions(es, studentId, 0)|)
    ensures forall k :: 0 <= k < |sel| ==> es[sel[k]].studentId == studentId
    ensures forall k, l :: 0 <= k < l < |sel| ==> sel[k] != sel[l]
  {
    var sorted := SortByReview(es, StudentPositions(es, studentId, 0));
    SortedStudentPositions(es, studentId);
    PrefixKeepsOrder(es, studentId, sorted, Min(MaxPending, |sorted|));
    sorted[..Min(MaxPending, |sorted|)]
  }

  /** The student's positions, sorted: each of the student's entries once, by next review. */
  lemma SortedStudentPositions(es: seq<MemoryEntry>, studentId: string)
    ensures var ps := StudentPositions(es, studentId, 0);
      var sorted := SortByReview(es, ps);
      && |sorted| == |ps|
      && (forall k :: 0 <= k < |sorted| ==> es[sorted[k]].studentId == studentId)
      && (forall k, l :: 0 <= k < l < |sorted| ==> sorted[k] != sorted[l])
  {
    var ps := StudentPositions(es, studentId, 0);
    var sorted := SortByReview(es, ps);
    PermutationStaysDistinct(ps, sorted);
    assert |sorted| == |multiset(sorted)| == |multiset(ps)| == |ps|;
    forall k | 0 <= k < |sorted| ensures es[sorted[k]].studentId == studentId {
      assert sorted[k] in multiset(ps);
    }
  }

  /** A prefix of a sorted list of distinct positions of the student is one too. */
  lemma PrefixKeepsOrder(es: seq<MemoryEntry>, studentId: string, s: seq<nat>, m: nat)
    requires m <= |s| && InRange(es, s) && SortedByReview(es, s)
    requires forall k :: 0 <= k < |s| ==> es[s[k]].studentId == studentId
    requires forall k, l :: 0 <= k < l < |s| ==> s[k] != s[l]
    ensures InRange(es, s[..m]) && SortedByReview(es, s[..m])
    ensures forall k :: 0 <= k < m ==> es[s[..m][k]].studentId == studentId
    ensures forall k, l :: 0 <= k < l < m ==> s[..m][k] != s[..m][l]
  {
  }

  /** In a strictly increasing sequence every value occurs at most once. */
  lemma {:induction false} IncreasingOccursOnce(s: seq<nat>)
    requires forall k, l :: 0 <= k < l < |s| ==> s[k] < s[l]
    ensures forall x :: multiset(s)[x] <= 1
  {
    if s != [] {
      var rest := s[1..];
      assert s == [s[0]] + rest;
      IncreasingOccursOnce(rest);
      assert s[0] !in rest;
    }
  }

  /** A permutation of a strictly increasing sequence has no repeated value. */
  lemma PermutationStaysDistinct(ps: seq<nat>, r: seq<nat>)
    requires forall k, l :: 0 <= k < l < |ps| ==> ps[k] < ps[l]
    requires multiset(r) == multiset(ps)
    ensures forall k, l :: 0 <= k < l < |r| ==> r[k] != r[l]
  {
    IncreasingOccursOnce(ps);
    forall k, l | 0 <= k < l < |r| ensures r[k] != r[l] {
      if r[k] == r[l] {
        RepeatedOccursTwice(r, k, l);
        assert false;
      }
    }
  }

  /** A value found at two positions occurs at least twice. */
  lemma RepeatedOccursTwice(s: seq<nat>, k: nat, l: nat)
    requires k < l < |s| && s[k] == s[l]
    ensures multiset(s)[s[k]] >= 2
  {
    assert s == s[..l] + [s[l]] + s[l + 1..];
    assert s[..l][k] == s[k];
  }

  /** The pending selection is empty exactly when the student has no entry. */
  lemma {:induction false} SelectPendingEmpty(es: seq<MemoryEntry>, studentId: string)
    ensures SelectPending(es, studentId) == [] <==> forall i :: 0 <= i < |es| ==> es[i].studentId != studentId
  {
    var ps := StudentPositions(es, studentId, 0);
    if exists i :: 0 <= i < |es| && es[i].studentId == studentId {
      var i :| 0 <= i < |es| && es[i].studentId == studentId;
      assert i in ps;
    }
  }

  /**
   * The selection takes the earliest reviews: any of the student's entries left out
   * is due no earlier than every selected one.
   */
  lemma {:induction false} SelectPendingTakesEarliest(es: seq<MemoryEntry>, studentId: string, i: nat)
    requires i < |es| && es[i].studentId == studentId
    requires i !in SelectPending(es, studentId)
    ensures forall k :: 0 <= k < |SelectPending(es, studentId)| ==>
      es[SelectPending(es, studentId)[k]].nextReview <= es[i].nextReview
  {
    var ps := StudentPositions(es, studentId, 0);
    var sorted := SortByReview(es, ps);
    var sel := SelectPending(es, studentId);
    assert sel == sorted[..Min(MaxPending, |sorted|)];
    assert i in multiset(sorted) by { assert i in ps; }
    var n :| 0 <= n < |sorted| && sorted[n] == i;
    assert n >= |sel|;
  }

  /** Course of the fallback entries: the first course, or the empty string. */
  function FallbackCourseId(courseIds: seq<string>): string {
    if |courseIds| > 0 then courseIds[0] else ""
  }

  /** Entries created for a student with none: one per concept among the first three. */
  function FallbackEntries(concepts: seq<Concept>, courseIds: seq<string>, studentId: string, now: real)
    : (es: seq<MemoryEntry>)
    ensures |es| == Min(MaxPending, |concepts|)
    ensures forall k :: 0 <= k < |es| ==> es[k] == NewEntry(studentId, concepts[k].id, FallbackCourseId(courseIds), now)
  {
    seq(Min(MaxPending, |concepts|),
        k requires 0 <= k < Min(MaxPending, |concepts|) => NewEntry(studentId, concepts[k].id, FallbackCourseId(courseIds), now))
  }

  /** The entries quizzes are generated for. */
  function PendingEntries(es: seq<MemoryEntry>, concepts: seq<Concept>, courseIds: seq<string>,
                          studentId: string, now: real): (pend: seq<MemoryEntry>)
    ensures |pend| <= MaxPending
  {
    var sel := SelectPending(es, studentId);
    var created := FallbackEntries(concepts, courseIds, studentId, now);
    assert |created| <= MaxPending;
    if sel == [] then created else EntriesAt(es, sel)
  }

  function EntriesAt(es: seq<MemoryEntry>, ps: seq<nat>): (r: seq<MemoryEntry>)
    requires InRange(es, ps)
    ensures |r| == |ps| && forall k :: 0 <= k < |ps| ==> r[k] == es[ps[k]]
  {
    seq(|ps|, k requires 0 <= k < |ps| => es[ps[k]])
  }

  /** The entry store after getPendingQuizzes. */
  function StoreAfterPending(es: seq<MemoryEntry>, concepts: seq<Concept>, courseIds: seq<string>,
                             studentId: string, now: real): (r: seq<MemoryEntry>)
    ensures |es| <= |r| <= |es| + MaxPending && r[..|es|] == es
  {
    if SelectPending(es, studentId) == [] then es + FallbackEntries(concepts, courseIds, studentId, now)
    else es
  }

  /**
   * Entries are created only for a student without any, at most three, each new
   * (mastery 0.5, never reviewed, due now), for the first concepts in order; the
   * existing entries are kept as they are.
   */
  lemma {:induction false} PendingCreatesOnlyWhenEmpty(es: seq<MemoryEntry>, concepts: seq<Concept>,
                                                       courseIds: seq<string>, studentId: string, now: real)
    ensures var after := StoreAfterPending(es, concepts, courseIds, studentId, now);
      |es| <= |after| <= |es| + MaxPending && after[..|es|] == es
    ensures var after := StoreAfterPending(es, concepts, courseIds, studentId, now);
      |after| > |es| ==> forall i :: 0 <= i < |es| ==> es[i].studentId != studentId
    ensures var after := StoreAfterPending(es, concepts, courseIds, studentId, now);
      forall i :: |es| <= i < |after| ==>
        i - |es| < |concepts| &&
        after[i] == NewEntry(studentId, concepts[i - |es|].id, FallbackCourseId(courseIds), now)
  {
    SelectPendingEmpty(es, studentId);
    if SelectPending(es, studentId) == [] {
      var created := FallbackEntries(concepts, courseIds, studentId, now);
      var after := es + created;
      assert after[..|es|] == es;
      forall i | |es| <= i < |after|
        ensures i - |es| < |concepts|
        ensures after[i] == NewEntry(studentId, concepts[i - |es|].id, FallbackCourseId(courseIds), now)
      {
        assert after[i] == created[i - |es|];
      }
    }
  }

  /** Every entry a quiz is generated for belongs to the student. */
  lemma PendingEntriesBelongToStudent(es: seq<MemoryEntry>, concepts: seq<Concept>,
                                      courseIds: seq<string>, studentId: string, now: real)
    ensures var pend := PendingEntries(es, concepts, courseIds, studentId, now);
      forall k :: 0 <= k < |pend| ==> pend[k].studentId == studentId
  {
  }

  /** The quiz offered for one pending entry, with the saved question's id when the save succeeds. */
  function QuizFor(e: MemoryEntry, conceptName: string, raw: Option<RawQuiz>, stamp: string, saved: Option<string>)
    : (q: PendingQuiz)
    ensures q.conceptId == e.conceptId && q.conceptLabel == conceptName
    ensures q.question == ValidateQuiz(raw, conceptName).question && q.question != ""
    ensures q.options == ValidateQuiz(raw, conceptName).options
  {
    var data := ValidateQuiz(raw, conceptName);
    var tempId := TempIdPrefix + stamp;
    PendingQuiz(e.conceptId, conceptName, data.question, data.options,
                if data.question != "" && data.answer != "" && saved.Some? then saved.value else tempId)
  }

  /**
   * The save is always attempted, since validated data has a question and an answer: a
   * successful save gives the quiz the saved question's id, a failed one leaves the
   * temporary id; nothing else about the quiz depends on the save.
   */
  lemma QuizIdPatch(e: MemoryEntry, conceptName: string, raw: Option<RawQuiz>, stamp: string, saved: Option<string>)
    ensures var q := QuizFor(e, conceptName, raw, stamp, saved);
      && q.id == (if saved.Some? then saved.value else TempIdPrefix + stamp)
      && q == QuizFor(e, conceptName, raw, stamp, None).(id := q.id)
      && q.conceptId == e.conceptId && q.conceptLabel == conceptName
  {
  }

  /** The quizzes for the first n pending entries, in order. */
  function QuizzesFor(due: seq<MemoryEntry>, concepts: seq<Concept>, llm: seq<Option<RawQuiz>>,
                      stamps: seq<string>, saves: seq<Option<string>>, n: nat): (qs: seq<PendingQuiz>)
    requires n <= |due| && n <= |llm| && n <= |stamps| && n <= |saves|
    ensures |qs| == n
  {
    if n == 0 then []
    else
      QuizzesFor(due, concepts, llm, stamps, saves, n - 1)
      + [QuizFor(due[n - 1], LabelOf(concepts, due[n - 1].conceptId), llm[n - 1], stamps[n - 1], saves[n - 1])]
  }

  /** The k-th of those quizzes is the quiz for the k-th entry. */
  lemma {:induction false} QuizzesForAt(due: seq<MemoryEntry>, concepts: seq<Concept>, llm: seq<Option<RawQuiz>>,
                                        stamps: seq<string>, saves: seq<Option<string>>, n: nat)
    requires n <= |due| && n <= |llm| && n <= |stamps| && n <= |saves|
    ensures forall k :: 0 <= k < n ==>
      QuizzesFor(due, concepts, llm, stamps, saves, n)[k]
        == QuizFor(due[k], LabelOf(concepts, due[k].conceptId), llm[k], stamps[k], saves[k])
  {
    if n > 0 {
      QuizzesForAt(due, concepts, llm, stamps, saves, n - 1);
      var prev := QuizzesFor(due, concepts, llm, stamps, saves, n - 1);
      var all := QuizzesFor(due, concepts, llm, stamps, saves, n);
      assert all == prev + [QuizFor(due[n - 1], LabelOf(concepts, due[n - 1].conceptId), llm[n - 1], stamps[n - 1], saves[n - 1])];
      forall k | 0 <= k < n - 1
        ensures all[k] == QuizFor(due[k], LabelOf(concepts, due[k].conceptId), llm[k], stamps[k], saves[k])
      {
        assert all[k] == prev[k];
      }
    }
  }

  /** The question store after the saves made while assembling the first n quizzes. */
  function SaveQuestions(qs: map<string, Question>, pend: seq<MemoryEntry>, concepts: seq<Concept>,
                         llm: seq<Option<RawQuiz>>, saves: seq<Option<string>>, n: nat): map<string, Question>
    requires n <= |pend| && n <= |llm| && n <= |saves|
  {
    if n == 0 then qs
    else
      var prev := SaveQuestions(qs, pend, concepts, llm, saves, n - 1);
      var e := pend[n - 1];
      var data := ValidateQuiz(llm[n - 1], LabelOf(concepts, e.conceptId));
      if data.question != "" && data.answer != "" && saves[n - 1].Some? then
        prev[saves[n - 1].value := Question(data.question, data.options, data.answer, e.conceptId)]
      else prev
  }

  /** One more save: the question under the returned id, if the save succeeded. */
  lemma SaveQuestionsStep(qs: map<string, Question>, pend: seq<MemoryEntry>, concepts: seq<Concept>,
                          llm: seq<Option<RawQuiz>>, saves: seq<Option<string>>, n: nat)
    requires n < |pend| && n < |llm| && n < |saves|
    ensures var data := ValidateQuiz(llm[n], LabelOf(concepts, pend[n].conceptId));
      var prev := SaveQuestions(qs, pend, concepts, llm, saves, n);
      SaveQuestions(qs, pend, concepts, llm, saves, n + 1)
        == if saves[n].Some? then prev[saves[n].value := Question(data.question, data.options, data.answer, pend[n].conceptId)]
           else prev
  {
  }

  /** A question that no save names keeps its content. */
  lemma {:induction false} UnsavedQuestionsKept(qs: map<string, Question>, pend: seq<MemoryEntry>, concepts: seq<Concept>,
                                                llm: seq<Option<RawQuiz>>, saves: seq<Option<string>>, n: nat, id: string)
    requires n <= |pend| && n <= |llm| && n <= |saves|
    requires id in qs && forall k :: 0 <= k < n ==> saves[k] != Some(id)
    ensures var r := SaveQuestions(qs, pend, concepts, llm, saves, n);
      id in r && r[id] == qs[id]
  {
    if n > 0 {
      UnsavedQuestionsKept(qs, pend, concepts, llm, saves, n - 1, id);
    }
  }

  /** Every question id that was not there before is one a save returned. */
  lemma {:induction false} SavedIdsComeFromSaves(qs: map<string, Question>, pend: seq<MemoryEntry>, concepts: seq<Concept>,
                                                 llm: seq<Option<RawQuiz>>, saves: seq<Option<string>>, n: nat)
    requires n <= |pend| && n <= |llm| && n <= |saves|
    ensures var r := SaveQuestions(qs, pend, concepts, llm, saves, n);
      forall id :: id in r && id !in qs ==> exists k :: 0 <= k < n && saves[k] == Some(id)
  {
    if n > 0 {
      SavedIdsComeFromSaves(qs, pend, concepts, llm, saves, n - 1);
      var prev := SaveQuestions(qs, pend, concepts, llm, saves, n - 1);
      var r := SaveQuestions(qs, pend, concepts, llm, saves, n);
      forall id | id in r && id !in qs
        ensures exists k :: 0 <= k < n && saves[k] == Some(id)
      {
        if id in prev {
          var k :| 0 <= k < n - 1 && saves[k] == Some(id);
          assert 0 <= k < n && saves[k] == Some(id);
        } else {
          assert saves[n - 1] == Some(id);
        }
      }
    }
  }

  /** The last save under an id holds a question about that entry's concept. */
  lemma {:induction false} LastSaveHoldsConcept(qs: map<string, Question>, pend: seq<MemoryEntry>, concepts: seq<Concept>,
                                                llm: seq<Option<RawQuiz>>, saves: seq<Option<string>>, n: nat, k: nat)
    requires n <= |pend| && n <= |llm| && n <= |saves|
    requires k < n && saves[k].Some?
    requires forall l :: k < l < n ==> saves[l] != saves[k]
    ensures var r := SaveQuestions(qs, pend, concepts, llm, saves, n);
      saves[k].value in r && r[saves[k].value].conceptId == pend[k].conceptId
  {
    var prev := SaveQuestions(qs, pend, concepts, llm, saves, n - 1);
    var data := ValidateQuiz(llm[n - 1], LabelOf(concepts, pend[n - 1].conceptId));
    assert data.question != "" && data.answer != "";
    if k < n - 1 {
      LastSaveHoldsConcept(qs, pend, concepts, llm, saves, n - 1, k);
      assert saves[n - 1] != saves[k];
    }
  }

  /**
   * The fallback of getPendingQuizzes: a new entry for each of the first three
   * concepts, all in the first course, appended in concept order.
   */
  method CreateFallbackEntries(db: Database, studentId: string, now: real) returns (created: seq<MemoryEntry>)
    requires db.Valid()
    modifies db
    ensures db.Valid()
    ensures created == FallbackEntries(old(db.concepts), old(db.courseIds), studentId, now)
    ensures db.entries == old(db.entries) + created
    ensures db.responses == old(db.responses) && db.questions == old(db.questions)
    ensures db.concepts == old(db.concepts) && db.courseIds == old(db.courseIds)
  {
    ghost var spec := FallbackEntries(db.concepts, db.courseIds, studentId, now);
    var n := Min(MaxPending, |db.concepts|);
    var courseId := FallbackCourseId(db.courseIds);
    created := [];
    var j := 0;
    while j < n
      invariant 0 <= j <= n == |spec|
      invariant db.Valid()
      invariant created == spec[..j]
      invariant db.entries == old(db.entries) + created
      invariant db.responses == old(db.responses) && db.questions == old(db.questions)
      invariant db.concepts == old(db.concepts) && db.courseIds == old(db.courseIds)
    {
      var entry := NewEntry(studentId, db.concepts[j].id, courseId, now);
      assert entry == spec[j];
      assert db.concepts[j] in db.concepts;
      db.CreateEntry(entry);
      created := created + [entry];
      j := j + 1;
    }
    assert spec[..n] == spec;
  }

  /**
   * One turn of the quizzes loop: push the validated quiz with a temporary id; save
   * its question and, when the save returns an id, patch the last quiz's id to it.
   */
  method AddQuiz(db: Database, quizzes: seq<PendingQuiz>, entry: MemoryEntry, conceptName: string,
                 raw: Option<RawQuiz>, stamp: string, saved: Option<string>)
    returns (r: seq<PendingQuiz>)
    modifies db`questions
    ensures r == quizzes + [QuizFor(entry, conceptName, raw, stamp, saved)]
    ensures var data := ValidateQuiz(raw, conceptName);
      db.questions == if saved.Some? then old(db.questions)[saved.value := Question(data.question, data.options, data.answer, entry.conceptId)]
                      else old(db.questions)
  {
    var data := ValidateQuiz(raw, conceptName);
    r := quizzes + [PendingQuiz(entry.conceptId, conceptName, data.question, data.options, TempIdPrefix + stamp)];
    if data.question != "" && data.answer != "" {
      match saved {
        case Some(id) =>
          db.questions := db.questions[id := Question(data.question, data.options, data.answer, entry.conceptId)];
          r := r[|r| - 1 := r[|r| - 1].(id := id)];
        case None =>
      }
    }
  }

  /**
   * The quiz-assembly loop of getPendingQuizzes for the pending entries `due`. The
   * generator's output for the k-th entry is llm[k], the temporary id suffix is
   * stamps[k] and the save of its question yields saves[k] (the saved question's id,
   * or None when the save fails).
   */
  method AssembleQuizzes(db: Database, due: seq<MemoryEntry>,
                         llm: seq<Option<RawQuiz>>, stamps: seq<string>, saves: seq<Option<string>>)
    returns (quizzes: seq<PendingQuiz>)
    requires |llm| >= |due| && |stamps| >= |due| && |saves| >= |due|
    modifies db`questions
    ensures quizzes == QuizzesFor(due, db.concepts, llm, stamps, saves, |due|)
    ensures db.questions == SaveQuestions(old(db.questions), due, db.concepts, llm, saves, |due|)
  {
    var concepts := db.concepts;
    ghost var saved0 := db.questions;
    quizzes := [];
    var j := 0;
    while j < |due|
      invariant 0 <= j <= |due|
      invariant quizzes == QuizzesFor(due, concepts, llm, stamps, saves, j)
      invariant db.questions == SaveQuestions(saved0, due, concepts, llm, saves, j)
    {
      var entry := due[j];
      SaveQuestionsStep(saved0, due, concepts, llm, saves, j);
      quizzes := AddQuiz(db, quizzes, entry, LabelOf(concepts, entry.conceptId), llm[j], stamps[j], saves[j]);
      j := j + 1;
    }
  }

  /**
   * With fresh, distinct ids from the saves, every quiz whose save succeeded carries
   * the id of a stored question about its concept, and the questions stored before
   * are kept.
   */
  lemma SavedQuizzesStored(qs: map<string, Question>, due: seq<MemoryEntry>, concepts: seq<Concept>,
                           llm: seq<Option<RawQuiz>>, stamps: seq<string>, saves: seq<Option<string>>)
    requires |llm| >= |due| && |stamps| >= |due| && |saves| >= |due|
    requires forall k :: 0 <= k < |due| && saves[k].Some? ==> saves[k].value !in qs
    requires forall k, l :: 0 <= k < l < |due| && saves[k].Some? ==> saves[l] != saves[k]
    ensures var quizzes := QuizzesFor(due, concepts, llm, stamps, saves, |due|);
      var r := SaveQuestions(qs, due, concepts, llm, saves, |due|);
      forall k :: 0 <= k < |due| && saves[k].Some? ==>
        quizzes[k].id in r && r[quizzes[k].id].conceptId == due[k].conceptId
    ensures var r := SaveQuestions(qs, due, concepts, llm, saves, |due|);
      forall id :: id in qs ==> id in r && r[id] == qs[id]
  {
    var quizzes := QuizzesFor(due, concepts, llm, stamps, saves, |due|);
    var r := SaveQuestions(qs, due, concepts, llm, saves, |due|);
    QuizzesForAt(due, concepts, llm, stamps, saves, |due|);
    forall k | 0 <= k < |due| && saves[k].Some?
      ensures quizzes[k].id in r && r[quizzes[k].id].conceptId == due[k].conceptId
    {
      QuizIdPatch(due[k], LabelOf(concepts, due[k].conceptId), llm[k], stamps[k], saves[k]);
      LastSaveHoldsConcept(qs, due, concepts, llm, saves, |due|, k);
    }
    forall id | id in qs
      ensures id in r && r[id] == qs[id]
    {
      UnsavedQuestionsKept(qs, due, concepts, llm, saves, |due|, id);
    }
  }

  /**
   * getPendingQuizzes: the student's (at most three) entries with the earliest
   * nextReview, or, for a student with none, fallback entries created on the spot;
   * then one quiz per entry.
   */
  method GetPendingQuizzes(db: Database, studentId: string, now: real,
                           llm: seq<Option<RawQuiz>>, stamps: seq<string>, saves: seq<Option<string>>)
    returns (quizzes: seq<PendingQuiz>)
    requires db.Valid()
    requires |llm| >= MaxPending && |stamps| >= MaxPending && |saves| >= MaxPending
    requires forall k :: 0 <= k < MaxPending && saves[k].Some? ==> saves[k].value !in db.questions
    requires forall k, l :: 0 <= k < l < MaxPending && saves[k].Some? ==> saves[l] != saves[k]
    modifies db
    ensures db.Valid()
    ensures db.responses == old(db.responses) && db.concepts == old(db.concepts)
    ensures db.courseIds == old(db.courseIds)
    ensures db.entries == StoreAfterPending(old(db.entries), old(db.concepts), old(db.courseIds), studentId, now)
    ensures var pend := PendingEntries(old(db.entries), old(db.concepts), old(db.courseIds), studentId, now);
      && |quizzes| == |pend|
      && (forall k :: 0 <= k < |pend| ==>
            quizzes[k] == QuizFor(pend[k], LabelOf(db.concepts, pend[k].conceptId), llm[k], stamps[k], saves[k]))
      && db.questions == SaveQuestions(old(db.questions), pend, db.concepts, llm, saves, |pend|)
      && (forall k :: 0 <= k < |pend| && saves[k].Some? ==>
            quizzes[k].id in db.questions && db.questions[quizzes[k].id].conceptId == pend[k].conceptId)
    ensures forall id :: id in old(db.questions) ==> id in db.questions && db.questions[id] == old(db.questions)[id]
  {
    var entries := db.entries;
    var sel := SelectPending(entries, studentId);
    var due := EntriesAt(entries, sel);
    if |due| == 0 {
      due := CreateFallbackEntries(db, studentId, now);
    }
    assert due == PendingEntries(old(db.entries), old(db.concepts), old(db.courseIds), studentId, now);
    assert db.entries == StoreAfterPending(old(db.entries), old(db.concepts), old(db.courseIds), studentId, now);
    quizzes := AssembleQuizzes(db, due, llm, stamps, saves);
    QuizzesForAt(due, db.concepts, llm, stamps, saves, |due|);
    SavedQuizzesStored(old(db.questions), due, db.concepts, llm, stamps, saves);
  }
}
