/**
 * The student statistics: concepts mastered, the current streak of active days, the
 * time spent answering and the average mastery behind the retention rate.
 */
module StudentService {
  import opened Wrappers
  import opened ForgettingCurve
  import opened MemoryStore
  import KtEngine
  import QuizService

  // ---------------------------------------------------------------------------
  // Concepts mastered
  // ---------------------------------------------------------------------------

  /** Mastery strictly above this counts as mastered. */
  const MasteryThreshold: real := 0.8

  predicate IsMastered(e: MemoryEntry) {
    e.mastery > MasteryThreshold
  }

  /** The count of the student's entries whose mastery is above the threshold. */
  function ConceptsMastered(es: seq<MemoryEntry>, studentId: string): (n: nat)
    ensures n <= |es|
  {
    if es == [] then 0
    else
      ConceptsMastered(es[..|es| - 1], studentId)
      + (if es[|es| - 1].studentId == studentId && IsMastered(es[|es| - 1]) then 1 else 0)
  }

  /** An entry at exactly the threshold, or one of another student, adds nothing to the count. */
  lemma ThresholdIsStrict(es: seq<MemoryEntry>, e: MemoryEntry, studentId: string)
    requires e.mastery <= MasteryThreshold || e.studentId != studentId
    ensures ConceptsMastered(es + [e], studentId) == ConceptsMastered(es, studentId)
  {
    assert (es + [e])[..|es|] == es;
  }

  /** Every entry of the student above the threshold adds exactly one. */
  lemma MasteredEntryCounts(es: seq<MemoryEntry>, e: MemoryEntry, studentId: string)
    requires e.mastery > MasteryThreshold && e.studentId == studentId
    ensures ConceptsMastered(es + [e], studentId) == ConceptsMastered(es, studentId) + 1
  {
    assert (es + [e])[..|es|] == es;
  }

  /** Raising masteries entry by entry, without changing owners, never lowers the count. */
  lemma {:induction false} MasteredCountMonotone(es: seq<MemoryEntry>, rs: seq<MemoryEntry>, studentId: string)
    requires |rs| == |es|
    requires forall i :: 0 <= i < |es| ==> rs[i].studentId == es[i].studentId && rs[i].mastery >= es[i].mastery
    ensures ConceptsMastered(rs, studentId) >= ConceptsMastered(es, studentId)
  {
    if es != [] {
      MasteredCountMonotone(es[..|es| - 1], rs[..|rs| - 1], studentId);
    }
  }

  /** A correct answer never lowers the number of concepts mastered. */
  lemma CorrectAnswerKeepsMastered(es: seq<MemoryEntry>, studentId: string, conceptId: string, now: real, owner: string)
    requires EntriesValid(es)
    ensures ConceptsMastered(QuizService.RecordReview(es, studentId, conceptId, true, now), owner)
         >= ConceptsMastered(es, owner)
  {
    var rs := QuizService.RecordReview(es, studentId, conceptId, true, now);
    forall i | 0 <= i < |es|
      ensures rs[i].studentId == es[i].studentId && rs[i].mastery >= es[i].mastery
    {
      KtEngine.CorrectNeverLowers(es[i].mastery);
    }
    MasteredCountMonotone(es, rs, owner);
  }

  // ---------------------------------------------------------------------------
  // Average mastery
  // ---------------------------------------------------------------------------

  function StudentEntryCount(es: seq<MemoryEntry>, studentId: string): (n: nat)
    ensures n <= |es|
  {
    if es == [] then 0
    else StudentEntryCount(es[..|es| - 1], studentId) + (if es[|es| - 1].studentId == studentId then 1 else 0)
  }

  /** The sum of the student's masteries; it lies between 0 and the number of the student's entries. */
  function MasterySum(es: seq<MemoryEntry>, studentId: string): (sum: real)
    ensures EntriesValid(es) ==> 0.0 <= sum <= StudentEntryCount(es, studentId) as real
  {
    if es == [] then 0.0
    else
      var init := es[..|es| - 1];
      assert EntriesValid(es) ==> EntriesValid(init) by {
        if EntriesValid(es) {
          forall i | 0 <= i < |init| ensures EntryValid(init[i]) {
            assert init[i] == es[i];
          }
        }
      }
      MasterySum(init, studentId) + (if es[|es| - 1].studentId == studentId then es[|es| - 1].mastery else 0.0)
  }

  /** The average mastery of the student's entries; 0 for a student with none. */
  function AverageMastery(es: seq<MemoryEntry>, studentId: string): (avg: real)
    requires EntriesValid(es)
    ensures 0.0 <= avg <= 1.0
    ensures StudentEntryCount(es, studentId) == 0 ==> avg == 0.0
  {
    var n := StudentEntryCount(es, studentId);
    if n == 0 then 0.0 else MasterySum(es, studentId) / n as real
  }

  // ---------------------------------------------------------------------------
  // Streak
  // ---------------------------------------------------------------------------

  /** The UTC calendar day of a timestamp, as a day number (the date part of its ISO string). */
  function DayOf(timestamp: real): (d: int)
    ensures d as real * MsPerDay <= timestamp < (d + 1) as real * MsPerDay
  {
    var x := timestamp / MsPerDay;
    assert x * MsPerDay == timestamp;
    x.Floor
  }

  /** The days on which the student answered at least once. */
  function ActiveDays(responses: seq<Response>, studentId: string): (days: set<int>)
    ensures forall r :: r in responses && r.studentId == studentId ==> DayOf(r.timestamp) in days
    ensures forall d :: d in days ==> exists r :: r in responses && r.studentId == studentId && DayOf(r.timestamp) == d
  {
    set r | r in responses && r.studentId == studentId :: DayOf(r.timestamp)
  }

  /** The active days up to and including d. */
  function Below(active: set<int>, d: int): set<int> {
    set x | x in active && x <= d
  }

  lemma BelowShrinks(active: set<int>, d: int)
    requires d in active
    ensures |Below(active, d - 1)| < |Below(active, d)|
  {
    assert Below(active, d) == Below(active, d - 1) + {d};
  }

  /** The length of the run of consecutive active days ending on day d. */
  function RunLength(active: set<int>, d: int): (n: nat)
    ensures n <= |Below(active, d)|
    ensures forall x :: d - n < x <= d ==> x in active
    ensures d - n !in active
    decreases |Below(active, d)|
  {
    if d !in active then 0
    else
      BelowShrinks(active, d);
      1 + RunLength(active, d - 1)
  }

  /**
   * The streak loop: count today if active, then walk back one day at a time while
   * the day is active.
   */
  method Streak(active: set<int>, today: int) returns (streak: nat)
    ensures streak == RunLength(active, today)
    ensures today !in active ==> streak == 0
    ensures forall x :: today - streak < x <= today ==> x in active
    ensures today - streak !in active
    ensures streak <= |active|
  {
    streak := 0;
    var currentCheck := today;
    if today in active {
      streak := 1;
      currentCheck := today - 1;
    }
    while true
      invariant currentCheck == today - streak
      invariant forall x :: currentCheck < x <= today ==> x in active
      invariant RunLength(active, today) == streak + RunLength(active, currentCheck)
      decreases |Below(active, currentCheck)|
    {
      if currentCheck in active {
        BelowShrinks(active, currentCheck);
        streak := streak + 1;
        currentCheck := currentCheck - 1;
      } else {
        break;
      }
    }
    BelowWithin(active, today);
  }

  lemma BelowWithin(active: set<int>, d: int)
    ensures |Below(active, d)| <= |active|
  {
    var below := Below(active, d);
    assert active == below + (active - below);
    assert below * (active - below) == {};
  }

  // ---------------------------------------------------------------------------
  // Time spent
  // ---------------------------------------------------------------------------

  /** The sum of the latencies of the student's responses. */
  function TotalLatency(responses: seq<Response>, studentId: string): (total: int)
    ensures (forall i :: 0 <= i < |responses| && responses[i].studentId == studentId ==> responses[i].latencyMs >= 0) ==>
      total >= 0
    ensures (forall i :: 0 <= i < |responses| ==> responses[i].studentId != studentId) ==> total == 0
  {
    if responses == [] then 0
    else
      TotalLatency(responses[..|responses| - 1], studentId)
      + (if responses[|responses| - 1].studentId == studentId then responses[|responses| - 1].latencyMs else 0)
  }

  /** Truncation toward zero. */
  function Trunc(x: real): int {
    if x >= 0.0 then x.Floor else -((-x).Floor)
  }

  /** Truncation leaves a fraction of the same sign as x, smaller than one. */
  lemma TruncFraction(x: real)
    ensures x >= 0.0 ==> 0.0 <= x - Trunc(x) as real < 1.0
    ensures x < 0.0 ==> -1.0 < x - Trunc(x) as real <= 0.0
  {
  }

  /** The remainder of JavaScript's %: it takes the sign of the dividend. */
  function JsRemainder(x: real, y: real): real
    requires y != 0.0
  {
    x - y * (Trunc(x / y) as real)
  }

  /** Math.floor(totalMs / 1000 / 60 / 60). */
  function Hours(totalMs: int): (h: int)
    ensures h as real * 3600000.0 <= totalMs as real < (h + 1) as real * 3600000.0
  {
    var x := totalMs as real / 1000.0 / 60.0 / 60.0;
    assert x * 3600000.0 == totalMs as real;
    x.Floor
  }

  /** Math.floor((totalMs / 1000 / 60) % 60). */
  function Minutes(totalMs: int): (m: int)
    ensures -60 <= m < 60
    ensures totalMs >= 0 ==> 0 <= m
  {
    var x := totalMs as real / 1000.0 / 60.0;
    TruncFraction(x / 60.0);
    JsRemainder(x, 60.0).Floor
  }

  lemma FloorShift(x: real, n: int)
    ensures (x - n as real).Floor == x.Floor - n
  {
  }

  /**
   * For a non-negative total, the minutes are those left over after whole hours, and
   * together they make up the whole minutes elapsed.
   */
  lemma {:induction false} HoursMinutesSplit(totalMs: int)
    requires totalMs >= 0
    ensures 0 <= Minutes(totalMs) < 60
    ensures Hours(totalMs) * 60 + Minutes(totalMs) == (totalMs as real / 60000.0).Floor
  {
    var x := totalMs as real / 1000.0 / 60.0;
    assert x == totalMs as real / 60000.0;
    assert x / 60.0 == totalMs as real / 1000.0 / 60.0 / 60.0;
    var h := Hours(totalMs);
    assert Trunc(x / 60.0) == h;
    FloorShift(x, 60 * h);
  }

  /** The decimal digits of n, without leading zeros. */
  function NatToString(n: nat): (s: string)
    ensures |s| >= 1
    ensures forall k :: 0 <= k < |s| ==> '0' <= s[k] <= '9'
    ensures s[0] == '0' ==> n == 0
  {
    if n < 10 then [DigitChar(n)]
    else NatToString(n / 10) + [DigitChar(n % 10)]
  }

  function DigitChar(d: nat): (c: char)
    requires d < 10
    ensures '0' <= c <= '9'
  {
    "0123456789"[d]
  }

  function DigitValue(c: char): nat
    requires '0' <= c <= '9'
  {
    (c as int - '0' as int) as nat
  }

  /** The number a string of decimal digits denotes. */
  function ParseNat(s: string): nat
    requires forall k :: 0 <= k < |s| ==> '0' <= s[k] <= '9'
  {
    if s == [] then 0 else ParseNat(s[..|s| - 1]) * 10 + DigitValue(s[|s| - 1])
  }

  /** Reading the digits back gives the number. */
  lemma {:induction false} ParseNatToString(n: nat)
    ensures ParseNat(NatToString(n)) == n
  {
    if n >= 10 {
      var s := NatToString(n);
      assert s[..|s| - 1] == NatToString(n / 10);
      ParseNatToString(n / 10);
    }
  }

  /** The number as a template literal writes it. */
  function IntToString(i: int): (s: string)
    ensures |s| >= 1
    ensures s == "0" <==> i == 0
    ensures s[0] == '-' || '0' <= s[0] <= '9'
  {
    if i < 0 then "-" + NatToString(-i) else NatToString(i)
  }

  /** "<hours>h <minutes>m" when there is at least an hour, "<minutes>m" otherwise. */
  function FormatTimeSpent(hours: int, minutes: int): (s: string)
    ensures |s| >= 2 && s[|s| - 1] == 'm'
    ensures s[0] != '<'
    ensures hours > 0 ==> |IntToString(hours)| + 2 <= |s| && s[..|IntToString(hours)| + 2] == IntToString(hours) + "h "
  {
    if hours > 0 then IntToString(hours) + "h " + IntToString(minutes) + "m"
    else IntToString(minutes) + "m"
  }

  /** The time spent as reported: "< 1m" replaces "0m" when some time was spent. */
  function TimeSpent(totalMs: int): (s: string)
    ensures s == "< 1m" || s == FormatTimeSpent(Hours(totalMs), Minutes(totalMs))
    ensures s == "< 1m" ==> totalMs > 0
    ensures |s| >= 2 && s[|s| - 1] == 'm'
  {
    var formatted := FormatTimeSpent(Hours(totalMs), Minutes(totalMs));
    if formatted == "0m" && totalMs > 0 then "< 1m" else formatted
  }

  lemma FormattedZero(hours: int, minutes: int)
    ensures FormatTimeSpent(hours, minutes) == "0m" <==> hours <= 0 && minutes == 0
  {
    if hours > 0 {
      assert |FormatTimeSpent(hours, minutes)| > 2;
    } else {
      var s := IntToString(minutes);
      if s + "m" == "0m" {
        assert s == (s + "m")[..|s|];
      }
    }
  }

  /** For a non-negative total, the report says "< 1m" exactly when under a minute but above zero. */
  lemma {:induction false} LessThanAMinute(totalMs: int)
    requires totalMs >= 0
    ensures TimeSpent(totalMs) == "< 1m" <==> 0 < totalMs < 60000
    ensures totalMs == 0 ==> TimeSpent(totalMs) == "0m"
  {
    HoursMinutesSplit(totalMs);
    FormattedZero(Hours(totalMs), Minutes(totalMs));
    var formatted := FormatTimeSpent(Hours(totalMs), Minutes(totalMs));
    if formatted != "0m" {
      assert formatted != "< 1m" by {
        if Hours(totalMs) > 0 {
          assert formatted[|formatted| - 1] == 'm' && |formatted| > 4;
          assert "< 1m"[0] == '<';
          assert formatted[0] != '<';
        } else {
          assert formatted[0] == IntToString(Minutes(totalMs))[0];
        }
      }
    }
  }

  /** With at least an hour spent, the report is "<hours>h <minutes>m". */
  lemma HoursShape(totalMs: int)
    requires Hours(totalMs) > 0
    ensures TimeSpent(totalMs) == IntToString(Hours(totalMs)) + "h " + IntToString(Minutes(totalMs)) + "m"
  {
    FormattedZero(Hours(totalMs), Minutes(totalMs));
  }

  // ---------------------------------------------------------------------------
  // getStats
  // ---------------------------------------------------------------------------

  /** The statistics reported; the retention rate is carried as the average mastery. */
  datatype Stats = Stats(conceptsMastered: nat, streak: string, timeSpent: string, averageMastery: real)

  /**
   * getStats at time `now`: mastered count, "<streak> Days", the time spent and the
   * average mastery of the student's entries.
   */
  method GetStats(db: Database, studentId: string, now: real) returns (stats: Stats)
    requires db.Valid()
    ensures stats.conceptsMastered == ConceptsMastered(db.entries, studentId)
    ensures stats.streak == NatToString(RunLength(ActiveDays(db.responses, studentId), DayOf(now))) + " Days"
    ensures stats.timeSpent == TimeSpent(TotalLatency(db.responses, studentId))
    ensures 0.0 <= stats.averageMastery <= 1.0
    ensures stats.averageMastery == AverageMastery(db.entries, studentId)
  {
    var masteredCount := ConceptsMastered(db.entries, studentId);
    var uniqueDates := ActiveDays(db.responses, studentId);
    var streak := Streak(uniqueDates, DayOf(now));
    var totalMs := TotalLatency(db.responses, studentId);
    stats := Stats(masteredCount, NatToString(streak) + " Days", TimeSpent(totalMs), AverageMastery(db.entries, studentId));
  }
}
