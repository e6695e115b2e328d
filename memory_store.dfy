/**
 * The persistent state the spaced-repetition core reads and writes: memory entries
 * (one per tracked student/concept pair), the response log, questions and concepts.
 * A memory entry is identified by its position in the store.
 */
module MemoryStore {
  import opened Wrappers
  import KtEngine

  /** Spaced-repetition state of one student for one concept. Times are in milliseconds. */
  datatype MemoryEntry = MemoryEntry(
    studentId: string,
    conceptId: string,
    courseId: string,
    mastery: real,
    lastReview: Option<real>,
    nextReview: real)

  /** One logged answer; the log is append-only. */
  datatype Response = Response(
    studentId: string,
    questionId: string,
    isCorrect: bool,
    latencyMs: int,
    timestamp: real)

  datatype Question = Question(text: string, options: seq<string>, answer: string, conceptId: string)

  /** A concept; `name` is the label shown to the student. */
  datatype Concept = Concept(id: string, name: string)

  /** Mastery is a probability and the next review never precedes the last one. */
  predicate EntryValid(e: MemoryEntry) {
    KtEngine.IsProbability(e.mastery) &&
    (e.lastReview.Some? ==> e.lastReview.value <= e.nextReview)
  }

  predicate EntriesValid(es: seq<MemoryEntry>) {
    forall i :: 0 <= i < |es| ==> EntryValid(es[i])
  }

  function ConceptIds(cs: seq<Concept>): set<string> {
    set c | c in cs :: c.id
  }

  /** Every entry refers to an existing concept (the foreign key of the schema). */
  predicate EntriesReferToConcepts(es: seq<MemoryEntry>, cs: seq<Concept>) {
    forall i :: 0 <= i < |es| ==> es[i].conceptId in ConceptIds(cs)
  }

  /** Lookup of a concept by id: the first one in store order. */
  function FindConcept(cs: seq<Concept>, id: string): (r: Option<Concept>)
    ensures r.Some? ==> r.value in cs && r.value.id == id
    ensures r.None? <==> id !in ConceptIds(cs)
  {
    if cs == [] then None
    else
      assert ConceptIds(cs) == {cs[0].id} + ConceptIds(cs[1..]) by {
        assert cs == [cs[0]] + cs[1..];
      }
      if cs[0].id == id then Some(cs[0]) else FindConcept(cs[1..], id)
  }

  /** Label of a concept, the empty string when it does not exist. */
  function LabelOf(cs: seq<Concept>, id: string): string {
    match FindConcept(cs, id)
    case Some(c) => c.name
    case None => ""
  }

  /**
   * A newly tracked pair: even mastery, never reviewed, due immediately. Both the
   * ingestion path and the fallback of the pending-quiz path create entries this way.
   */
  function NewEntry(studentId: string, conceptId: string, courseId: string, now: real): (e: MemoryEntry)
    ensures EntryValid(e)
    ensures e.mastery == 0.5 && e.lastReview == None && e.nextReview == now
    ensures e.studentId == studentId && e.conceptId == conceptId && e.courseId == courseId
  {
    MemoryEntry(studentId, conceptId, courseId, 0.5, None, now)
  }

  /** The database the services share. */
  class Database {
    var entries: seq<MemoryEntry>
    var responses: seq<Response>
    var questions: map<string, Question>
    var concepts: seq<Concept>
    var courseIds: seq<string>

    ghost predicate Valid()
      reads this
    {
      EntriesValid(entries) && EntriesReferToConcepts(entries, concepts)
    }

    constructor (concepts: seq<Concept>, courseIds: seq<string>, questions: map<string, Question>)
      ensures Valid()
      ensures this.entries == [] && this.responses == []
      ensures this.concepts == concepts && this.courseIds == courseIds && this.questions == questions
    {
      this.entries := [];
      this.responses := [];
      this.questions := questions;
      this.concepts := concepts;
      this.courseIds := courseIds;
    }

    /** memoryEntry.create: appends one entry. */
    method CreateEntry(e: MemoryEntry)
      requires Valid() && EntryValid(e) && e.conceptId in ConceptIds(concepts)
      modifies this
      ensures Valid()
      ensures entries == old(entries) + [e]
      ensures responses == old(responses) && questions == old(questions)
      ensures concepts == old(concepts) && courseIds == old(courseIds)
    {
      entries := entries + [e];
    }
  }
}
