/** The per-student view's small computations: the Russian plural form used
    for "N make-ups", the absence summary, and the freshness rule for cached
    recommendations. */
module Grades {
  import opened Records
  import opened Grouping

  // ---------------------------------------------------------------------
  // Plural form

  /** The three word forms the caller passes: "one" (отработка), "few"
      (отработки), "many" (отработок). */
  datatype PluralForm = One | Few | Many

  function Abs(n: int): nat
  {
    if n < 0 then -n else n
  }

  /** The Russian plural rule in its usual statement: "one" when the last
      digit is 1 except for numbers ending in 11, "few" when the last digit
      is 2 to 4 except for numbers ending in 12 to 14, otherwise "many". */
  function RussianPlural(number: int): PluralForm
  {
    var a := Abs(number);
    if a % 10 == 1 && a % 100 != 11 then One
    else if 2 <= a % 10 <= 4 && !(12 <= a % 100 <= 14) then Few
    else Many
  }

  lemma LastDigitOfLastTwo(a: nat)
    ensures a % 100 % 10 == a % 10
  {
    var q, r := a / 100, a % 100;
    assert a == 10 * (10 * q + r / 10) + r % 10;
  }

  /** `getPluralForm`: drops the sign, keeps the last two digits, answers
      "many" for 5 to 20, then looks at the last digit alone. */
  method PluralFormOf(number: int) returns (f: PluralForm)
    ensures f == RussianPlural(number)
  {
    var n := Abs(number);
    LastDigitOfLastTwo(n);
    n := n % 100;
    if 5 <= n <= 20 {
      return Many;
    }
    n := n % 10;
    if n == 1 {
      return One;
    }
    if 2 <= n <= 4 {
      return Few;
    }
    return Many;
  }

  /** The form depends on the magnitude only. */
  lemma PluralIgnoresSign(number: int)
    ensures RussianPlural(-number) == RussianPlural(number)
  {
  }

  /** Numbers whose last two digits are 5 to 20 (11 to 14 among them) take
      "many". */
  lemma PluralManyForTeens(number: int)
    requires 5 <= Abs(number) % 100 <= 20
    ensures RussianPlural(number) == Many
  {
    var a := Abs(number);
    var t := a % 100;
    LastDigitOfLastTwo(a);
    assert a % 10 == (if t < 10 then t else if t < 20 then t - 10 else 0);
  }

  /** Outside 5 to 20 the last digit decides: 1 gives "one", 2 to 4 give
      "few", 0 and 5 to 9 give "many". */
  lemma PluralByLastDigit(number: int)
    requires !(5 <= Abs(number) % 100 <= 20)
    ensures Abs(number) % 10 == 1 ==> RussianPlural(number) == One
    ensures 2 <= Abs(number) % 10 <= 4 ==> RussianPlural(number) == Few
    ensures (Abs(number) % 10 == 0 || Abs(number) % 10 >= 5) ==> RussianPlural(number) == Many
  {
    LastDigitOfLastTwo(Abs(number));
  }

  /** Adding a hundred does not change the form. */
  lemma {:induction false} PluralPeriodic(n: nat)
    ensures RussianPlural(n + 100) == RussianPlural(n)
  {
    assert (n + 100) % 100 == n % 100;
    assert (n + 100) % 10 == n % 10;
  }

  // ---------------------------------------------------------------------
  // Absences

  /** What the absence card shows: the number of the student's 'н' records
      and those records grouped by subject. */
  datatype AbsenceSummary = AbsenceSummary(total: nat, bySubject: Groups)

  /** `totalAbsences` and `absencesBySubject`. */
  method SummarizeAbsences(userGrades: seq<Grade>) returns (r: AbsenceSummary)
    ensures r.total == |Absences(userGrades)|
    ensures r.bySubject.keys == KeysInOrder(Absences(userGrades), BySubject)
    ensures r.bySubject.members == SelectMap(Absences(userGrades), BySubject)
  {
    var absences := Absences(userGrades);
    var grouped := GroupBy(absences, BySubject);
    r := AbsenceSummary(|absences|, grouped);
  }

  /** The per-subject lists hold exactly the student's 'н' records of that
      subject, and their sizes add up to the total. */
  lemma AbsenceSummaryConsistent(userGrades: seq<Grade>, subject: string)
    ensures forall g :: g in Select(Absences(userGrades), BySubject, subject)
                    <==> g in userGrades && g.score == Absent && g.subject == subject
    ensures SizeSum(KeysInOrder(Absences(userGrades), BySubject), Absences(userGrades), BySubject)
         == |Absences(userGrades)|
  {
    SelectMembers(Absences(userGrades), BySubject, subject);
    GroupsPartition(Absences(userGrades), BySubject);
  }

  // ---------------------------------------------------------------------
  // Cached recommendations

  /** Twelve hours, in milliseconds. */
  const CacheDuration: int := 12 * 60 * 60 * 1000

  /** A generated text and the time it was stored. */
  datatype CacheEntry = CacheEntry(data: string, timestamp: int)

  /** `isCacheValid`: there is an entry and it is younger than the cache
      duration. */
  predicate IsFresh(entry: Option<CacheEntry>, now: int)
  {
    entry.Some? && now - entry.value.timestamp < CacheDuration
  }

  /** An entry stays fresh for twelve hours (43 200 000 ms) after it was
      stored, and a missing entry is never fresh: once an entry has expired
      it stays expired. */
  lemma FreshWindow(entry: Option<CacheEntry>, now: int, later: int)
    ensures CacheDuration == 43_200_000
    ensures !IsFresh(None, now)
    ensures entry.Some? ==> (IsFresh(entry, now) <==> now < entry.value.timestamp + CacheDuration)
    ensures !IsFresh(entry, now) && now <= later ==> !IsFresh(entry, later)
  {
  }

  /** The text stored when the recommendation service fails. */
  const FailureNotice: string := "Не удалось получить персональный совет из-за ошибки."

  /** How a request to the recommendation service ends. */
  datatype Outcome = Delivered(text: string) | Failed

  /** The state one recommendation panel keeps: whether its sheet is open,
      whether a request is under way, and the cached entry. */
  datatype Panel = Panel(open: bool, generating: bool, cache: Option<CacheEntry>)

  /** The effect's guard: the sheet is open, the data the request needs is
      there (`ready`), no request is under way and the cache is not fresh. */
  predicate ShouldFetch(p: Panel, ready: bool, now: int)
  {
    p.open && ready && !p.generating && !IsFresh(p.cache, now)
  }

  /** The guard admits a request exactly when the sheet is open, the data is ready, no
      request is under way, and either nothing is cached or the cached entry
      was stored at least twelve hours ago. */
  lemma FetchGuard(p: Panel, ready: bool, now: int)
    ensures ShouldFetch(p, ready, now)
            <==> p.open && ready && !p.generating
                 && (p.cache.None? || p.cache.value.timestamp + CacheDuration <= now)
  {
  }

  /** `setIsGenerating(true)` as the request starts. */
  function BeginFetch(p: Panel): (q: Panel)
    ensures q.generating && q.open == p.open && q.cache == p.cache
  {
    p.(generating := true)
  }

  /** The request ends: on success the text, on failure the notice, is
      stored stamped with the time it ended, and the panel is idle again. */
  function FinishFetch(p: Panel, outcome: Outcome, now: int): (q: Panel)
    ensures !q.generating && q.open == p.open
    ensures q.cache.Some? && q.cache.value.timestamp == now
    ensures q.cache.value.data == if outcome.Delivered? then outcome.text else FailureNotice
  {
    var text := match outcome
      case Delivered(t) => t
      case Failed => FailureNotice;
    Panel(p.open, false, Some(CacheEntry(text, now)))
  }

  /** While a request is under way the guard admits no second one. */
  lemma NoFetchWhileGenerating(p: Panel, ready: bool, now: int)
    ensures !ShouldFetch(BeginFetch(p), ready, now)
  {
  }

  /** Whatever the outcome, the guard admits no new request for twelve
      hours after one ends, and admits one once they have passed (sheet
      open, data ready); the effect then runs when its inputs change. */
  lemma FetchGatedByDuration(p: Panel, outcome: Outcome, ready: bool, stored: int, now: int)
    requires stored <= now
    ensures now < stored + CacheDuration ==> !ShouldFetch(FinishFetch(p, outcome, stored), ready, now)
    ensures now >= stored + CacheDuration && p.open && ready
            ==> ShouldFetch(FinishFetch(p, outcome, stored), ready, now)
  {
  }

  /** The per-subject analysis cache: storing an analysis for one subject
      makes that subject's entry fresh and leaves the others as they were. */
  function StoreAnalysis(cache: map<string, CacheEntry>, subject: string, text: string, now: int)
    : (r: map<string, CacheEntry>)
    ensures r.Keys == cache.Keys + {subject}
    ensures IsFresh(Some(r[subject]), now) && r[subject].data == text
    ensures forall s :: s in cache && s != subject ==> r[s] == cache[s]
  {
    cache[subject := CacheEntry(text, now)]
  }
}
