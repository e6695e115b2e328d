/**
 * The scheduling service: the forgetting-curve review time and the periodic tick that
 * generates review quizzes for due entries and locks each one out for a day.
 */
module Scheduler {
  import opened Wrappers
  import opened ForgettingCurve
  import opened MemoryStore
  import QuizService

  /** Retention target used when the caller gives none. */
  const DefaultTargetRetention: real := 0.7
  /** A tick handles at most this many due entries. */
  const BatchSize: nat := 10

  // ---------------------------------------------------------------------------
  // calculateNextReview
  // ---------------------------------------------------------------------------

  /**
   * calculateNextReview: the time at which retention e^(-t/S) falls to the target,
   * -stability * ln(target) days after the last review.
   */
  function CalculateNextReview(ln: Log, lastReview: real, stability: real, targetRetention: real): (t: real)
    ensures stability > 0.0 && 0.0 < targetRetention < 1.0 ==> t > lastReview
  {
    if 0.0 < targetRetention < 1.0 then
      LogBelowOneNegative(ln, targetRetention);
      ReviewTime(lastReview, stability, ln(targetRetention))
    else
      ReviewTime(lastReview, stability, ln(targetRetention))
  }

  /** For a fixed last review and target, a larger stability gives a strictly later review. */
  lemma CalculateNextReviewIncreasing(ln: Log, lastReview: real, s1: real, s2: real, targetRetention: real)
    requires s1 < s2 && 0.0 < targetRetention < 1.0
    ensures CalculateNextReview(ln, lastReview, s1, targetRetention) < CalculateNextReview(ln, lastReview, s2, targetRetention)
  {
    LogBelowOneNegative(ln, targetRetention);
    ReviewTimeIncreasing(lastReview, s1, s2, ln(targetRetention));
  }

  /** Shifting the last review by d shifts the result by exactly d. */
  lemma CalculateNextReviewShift(ln: Log, lastReview: real, d: real, stability: real, targetRetention: real)
    ensures CalculateNextReview(ln, lastReview + d, stability, targetRetention)
         == CalculateNextReview(ln, lastReview, stability, targetRetention) + d
  {
    ReviewTimeShift(lastReview, d, stability, ln(targetRetention));
  }

  /** A more demanding retention target brings the review strictly forward. */
  lemma HigherTargetSooner(ln: Log, lastReview: real, stability: real, t1: real, t2: real)
    requires stability > 0.0 && 0.0 < t1 < t2 < 1.0
    ensures CalculateNextReview(ln, lastReview, stability, t2) < CalculateNextReview(ln, lastReview, stability, t1)
  {
    LogMonotone(ln, t1, t2);
    LogBelowOneNegative(ln, t2);
    ReviewTimeTargetMonotone(lastReview, stability, ln(t1), ln(t2));
  }

  /**
   * The schedule written after an answer is this curve at the default target: the
   * answer path's inlined computation agrees with calculateNextReview wherever the
   * logarithm gives 0.7 the runtime's value.
   */
  lemma ResponseScheduleIsDefaultCurve(ln: Log, now: real, stability: real)
    requires ln(DefaultTargetRetention) == LnDefaultRetention
    ensures QuizService.ResponseNextReview(now, stability) == CalculateNextReview(ln, now, stability, DefaultTargetRetention)
  {
  }

  // ---------------------------------------------------------------------------
  // handleCron
  // ---------------------------------------------------------------------------

  predicate Due(e: MemoryEntry, now: real) {
    e.nextReview <= now
  }

  /** Positions, from i on and in store order, of the first `limit` due entries. */
  function DueFrom(es: seq<MemoryEntry>, now: real, i: nat, limit: nat): (b: seq<nat>)
    requires i <= |es|
    ensures |b| <= limit
    ensures forall k :: 0 <= k < |b| ==> i <= b[k] < |es| && Due(es[b[k]], now)
    ensures forall k, l :: 0 <= k < l < |b| ==> b[k] < b[l]
    ensures forall x :: i <= x < |es| && Due(es[x], now) && x !in b ==>
      |b| == limit && forall k :: 0 <= k < |b| ==> b[k] < x
    decreases |es| - i
  {
    if i == |es| || limit == 0 then []
    else if Due(es[i], now) then [i] + DueFrom(es, now, i + 1, limit - 1)
    else DueFrom(es, now, i + 1, limit)
  }

  /**
   * The batch of a tick: at most ten due entries, in store order, and no due entry
   * is skipped unless the batch is full and every entry in it comes earlier.
   */
  function DueBatch(es: seq<MemoryEntry>, now: real): (b: seq<nat>)
    ensures |b| <= BatchSize
    ensures forall k :: 0 <= k < |b| ==> b[k] < |es| && Due(es[b[k]], now)
    ensures forall k, l :: 0 <= k < l < |b| ==> b[k] < b[l]
    ensures forall x :: 0 <= x < |es| && Due(es[x], now) && x !in b ==>
      |b| == BatchSize && forall k :: 0 <= k < |b| ==> b[k] < x
    ensures b == [] <==> forall x :: 0 <= x < |es| ==> !Due(es[x], now)
  {
    var b := DueFrom(es, now, 0, BatchSize);
    assert |b| > 0 ==> Due(es[b[0]], now);
    b
  }

  /** The rudimentary lockout: the next review is pushed to one day after the tick. */
  function Lockout(e: MemoryEntry, now: real): (r: MemoryEntry)
    ensures r.nextReview == now + MsPerDay
    ensures r == e.(nextReview := r.nextReview)
  {
    e.(nextReview := now + MsPerDay)
  }

  /**
   * Whether the tick's work for one entry completes: generateQuizForConcept finds the
   * concept and `ok` (the outcome of its external calls and of the update) holds.
   */
  predicate Processed(concepts: seq<Concept>, e: MemoryEntry, ok: bool) {
    QuizService.GenerateQuizForConcept(concepts, e.conceptId, ok).Ok?
  }

  predicate BatchInRange(es: seq<MemoryEntry>, batch: seq<nat>) {
    forall k :: 0 <= k < |batch| ==> batch[k] < |es|
  }

  /** The entry store after the first n iterations of the tick's loop. */
  function TickUpTo(es: seq<MemoryEntry>, batch: seq<nat>, concepts: seq<Concept>, now: real,
                    completes: seq<bool>, n: nat): (r: seq<MemoryEntry>)
    requires BatchInRange(es, batch) && n <= |batch| <= |completes|
    ensures |r| == |es|
  {
    if n == 0 then es
    else
      var prev := TickUpTo(es, batch, concepts, now, completes, n - 1);
      var p := batch[n - 1];
      if Processed(concepts, es[p], completes[n - 1]) then prev[p := Lockout(prev[p], now)] else prev
  }

  /**
   * The entry store after a tick at `now`; the k-th entry of the batch completes as
   * `completes[k]` says.
   */
  function Tick(es: seq<MemoryEntry>, concepts: seq<Concept>, now: real, completes: seq<bool>): (r: seq<MemoryEntry>)
    requires |completes| >= BatchSize
    ensures |r| == |es|
  {
    var batch := DueBatch(es, now);
    TickUpTo(es, batch, concepts, now, completes, |batch|)
  }

  /** Entries the loop has not reached, or never reaches, are as they were. */
  lemma {:induction false} TickUpToOutside(es: seq<MemoryEntry>, batch: seq<nat>, concepts: seq<Concept>, now: real,
                                           completes: seq<bool>, n: nat, i: nat)
    requires BatchInRange(es, batch) && n <= |batch| <= |completes|
    requires i < |es| && i !in batch[..n]
    ensures TickUpTo(es, batch, concepts, now, completes, n)[i] == es[i]
  {
    if n > 0 {
      assert batch[..n - 1] + [batch[n - 1]] == batch[..n];
      TickUpToOutside(es, batch, concepts, now, completes, n - 1, i);
    }
  }

  /**
   * Each entry of the batch ends up locked out exactly when its own work completes,
   * whatever happened to the other entries of the batch.
   */
  lemma {:induction false} TickUpToInside(es: seq<MemoryEntry>, batch: seq<nat>, concepts: seq<Concept>, now: real,
                                          completes: seq<bool>, n: nat, j: nat)
    requires BatchInRange(es, batch) && n <= |batch| <= |completes|
    requires forall k, l :: 0 <= k < l < |batch| ==> batch[k] < batch[l]
    requires j < n
    ensures var p := batch[j];
      TickUpTo(es, batch, concepts, now, completes, n)[p]
        == if Processed(concepts, es[p], completes[j]) then Lockout(es[p], now) else es[p]
  {
    if j == n - 1 {
      assert batch[j] !in batch[..n - 1];
      TickUpToOutside(es, batch, concepts, now, completes, n - 1, batch[j]);
    } else {
      TickUpToInside(es, batch, concepts, now, completes, n - 1, j);
      assert batch[n - 1] != batch[j];
    }
  }

  /**
   * The tick, entry by entry: a batch entry is locked out exactly when its own work
   * completes; every other entry is unchanged.
   */
  lemma TickPointwise(es: seq<MemoryEntry>, concepts: seq<Concept>, now: real, completes: seq<bool>)
    requires |completes| >= BatchSize
    ensures var batch := DueBatch(es, now);
      var r := Tick(es, concepts, now, completes);
      && (forall i :: 0 <= i < |es| && i !in batch ==> r[i] == es[i])
      && (forall j :: 0 <= j < |batch| ==>
            r[batch[j]] == if Processed(concepts, es[batch[j]], completes[j]) then Lockout(es[batch[j]], now) else es[batch[j]])
  {
    var batch := DueBatch(es, now);
    assert batch[..|batch|] == batch;
    forall i | 0 <= i < |es| && i !in batch
      ensures Tick(es, concepts, now, completes)[i] == es[i]
    {
      TickUpToOutside(es, batch, concepts, now, completes, |batch|, i);
    }
    forall j | 0 <= j < |batch|
      ensures Tick(es, concepts, now, completes)[batch[j]]
        == if Processed(concepts, es[batch[j]], completes[j]) then Lockout(es[batch[j]], now) else es[batch[j]]
    {
      TickUpToInside(es, batch, concepts, now, completes, |batch|, j);
    }
  }

  /** With nothing due, a tick changes nothing. */
  lemma NoDueNoChange(es: seq<MemoryEntry>, concepts: seq<Concept>, now: real, completes: seq<bool>)
    requires |completes| >= BatchSize
    requires forall i :: 0 <= i < |es| ==> !Due(es[i], now)
    ensures Tick(es, concepts, now, completes) == es
  {
  }

  /**
   * Only due entries of the batch change, so at most ten; and a tick touches nothing
   * but nextReview: mastery, lastReview and the identifying fields stay as they were.
   */
  lemma TickChangesOnlyBatchSchedules(es: seq<MemoryEntry>, concepts: seq<Concept>, now: real, completes: seq<bool>)
    requires |completes| >= BatchSize
    ensures var batch := DueBatch(es, now);
      var r := Tick(es, concepts, now, completes);
      && |batch| <= BatchSize
      && (forall i :: 0 <= i < |es| && r[i] != es[i] ==> i in batch && Due(es[i], now) && r[i].nextReview == now + MsPerDay)
      && (forall i :: 0 <= i < |es| ==> r[i] == es[i].(nextReview := r[i].nextReview))
  {
    TickPointwise(es, concepts, now, completes);
    var batch := DueBatch(es, now);
    forall i | 0 <= i < |es| && i in batch
      ensures Due(es[i], now)
    {
      var j :| 0 <= j < |batch| && batch[j] == i;
    }
  }

  /** A tick keeps every entry valid: a due entry's last review is before the tick, so before the lockout. */
  lemma TickPreservesValidity(es: seq<MemoryEntry>, concepts: seq<Concept>, now: real, completes: seq<bool>)
    requires |completes| >= BatchSize
    requires EntriesValid(es) && EntriesReferToConcepts(es, concepts)
    ensures EntriesValid(Tick(es, concepts, now, completes))
    ensures EntriesReferToConcepts(Tick(es, concepts, now, completes), concepts)
  {
    TickChangesOnlyBatchSchedules(es, concepts, now, completes);
  }

  /**
   * handleCron: fetch at most ten due entries; if there are none, stop; otherwise
   * generate a review quiz for each and, when that completes, push its next review to
   * a day later. A failure for one entry is caught and the loop goes on. The outcome
   * of the k-th entry's work is `completes[k]`. The question, quiz and audit rows
   * that work writes are not modelled, so nothing is said about the question store.
   */
  method HandleCron(db: Database, now: real, completes: seq<bool>)
    requires db.Valid()
    requires |completes| >= BatchSize
    modifies db
    ensures db.Valid()
    ensures db.entries == Tick(old(db.entries), old(db.concepts), now, completes)
    ensures db.responses == old(db.responses)
    ensures db.concepts == old(db.concepts) && db.courseIds == old(db.courseIds)
  {
    var dueEntries := DueBatch(db.entries, now);
    if |dueEntries| == 0 {
      return;
    }
    var entries := db.entries;
    var concepts := db.concepts;
    var j := 0;
    while j < |dueEntries|
      invariant 0 <= j <= |dueEntries|
      invariant db.entries == TickUpTo(entries, dueEntries, concepts, now, completes, j)
      invariant db.responses == old(db.responses) && db.questions == old(db.questions)
      invariant db.concepts == concepts && db.courseIds == old(db.courseIds)
    {
      var entry := entries[dueEntries[j]];
      var outcome := QuizService.GenerateQuizForConcept(concepts, entry.conceptId, completes[j]);
      if outcome.Ok? {
        var p := dueEntries[j];
        db.entries := db.entries[p := db.entries[p].(nextReview := now + MsPerDay)];
      }
      j := j + 1;
    }
    TickPreservesValidity(entries, concepts, now, completes);
  }
}
