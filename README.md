# Grade analytics of the student portal

This project models, in Dafny, the analytics that the student portal's two
grade views compute over the flat list of grade records loaded from the
group's spreadsheet. Each record carries a student id and name, a subject, a
date, a topic, a mark, and optionally the sheet's own average for that
subject. A mark is a number, `'н'` (absent), `'б'` (excused), `'зачет'`
(credit) or empty.

- **The student's own view** (`components/Grades.tsx`) does four things:
  - groups the student's records by subject, keeping their order;
  - picks the Russian plural form for "N make-ups";
  - counts the student's absences and groups them by subject;
  - ranks the whole group by overall average. A student's overall average is
    the mean of one average per subject: the last one the sheet gives on that
    subject's rows. Students without any average are left out of the rating.

  The view also caches generated recommendations for twelve hours, and a new
  request starts only when the cached entry is stale and no request is under
  way. That gating is modelled too.
- **The teacher's dashboard** (`components/Dashboard.tsx`) builds one record
  per student. The record holds:
  - per subject: the first average on that subject's rows, the number of
    graded marks and the number of absences;
  - the student's overall mean;
  - the total number of absences.

  The list is then sorted by overall average, with a missing average counted
  as 0, and ranked. Finally it is sorted for display by last name, then by
  full name. The colour bands (86/71/56), the mark formatter and the last-name
  extraction are modelled as well.

The modules follow that structure:
- `Records`: the grade record, the absence filter and the display name.
- `Grouping`: the order-preserving group-by, a loop that pushes each record
  onto its key's list, specified by first-appearance keys and per-key
  selections.
- `Sorting`: `Array.prototype.sort`, which is stable. It is modelled as an
  in-place insertion sort on an array, specified by a stable-sort function.
- `Ranking`: the rank loop, both as it builds a new list and as it writes
  ranks in place, and its closed form.
- `Averages`: subject averages and the overall mean.
- `Grades` and `GradesRating`: the student's view.
- `DashboardFormat` and `Dashboard`: the teacher's dashboard.

Both views rank with the same loop. It starts from rank 0 and a last value of
-1. At each position whose value differs from the last one, the rank becomes
the position plus one. This is **competition ranking** (averages 90, 90, 80
get ranks 1, 1, 3), not dense ranking (1, 1, 2).

Two consequences of the loop are modelled as written:
- On the dashboard, the loop compares the averages themselves, but the sort
  before it counts a missing average as 0. A student without an average
  placed between two students averaging 0 therefore splits their tie: the
  student without an average and the student after them each start a new
  rank, so the three hold three different ranks. At the top of the list
  they get 1, 2, 3 (`Dashboard.MissingAverageSplitsTie`). At positions
  p + 1 to p + 3 the last two get p + 2 and p + 3
  (`Dashboard.MissingAverageBreaksRun`).
- A first value equal to the initial -1 would keep rank 0. The closed-form
  rank lemmas therefore assume the averages are not negative, as percentages
  are.

Numbers are exact reals. The current time, the collation behind
`localeCompare` and the text of a number are parameters.

## Model

| member | source | states |
|---|---|---|
| Records.Absences | components/Grades.tsx:153 | The absence list holds exactly the records marked 'н', and no more records than the input. |
| Records.StudentName | components/Dashboard.tsx:205 | The name is the first record's name when that is non-empty, otherwise "User " followed by the id; it is never empty. |
| Grouping.KeysInOrder | components/Grades.tsx:12-22 | No key is listed twice. |
| Grouping.KeysInOrderMembers | components/Grades.tsx:15-18 | A key is listed exactly when some record has it. |
| Grouping.SelectMembers | components/Grades.tsx:15-19 | A group holds exactly the records whose key is the group's key. |
| Grouping.GroupBy | components/Grades.tsx:12-22 | The reduce-and-push loop yields the keys in first-appearance order, and each key's list is that key's records in input order. |
| Grouping.GroupsPartition | components/Grades.tsx:12-22 | The groups together are a rearrangement of the input: nothing dropped or duplicated, and their sizes add up to the input's length. |
| Grouping.SelectKeepsOrder | components/Grades.tsx:13-20 | Grouping a concatenation concatenates the groups, so records keep their relative order within a group. |
| Grouping.AbsencesOfSelect | components/Grades.tsx:153-155 | Grouping the 'н' records by subject gives each subject's 'н' records. |
| Sorting.InsertAt | components/Dashboard.tsx:244 | One pass moves an element to the front past every element it must precede; the prefix becomes the stable insertion of that element, and the rest of the array is unchanged. |
| Sorting.InsertionSort | components/Dashboard.tsx:244 | The in-place sort leaves the array holding the stable sort of its old contents. |
| Sorting.SortPermutes | components/Grades.tsx:109 | Sorting is a permutation. |
| Sorting.SortSorted | components/Grades.tsx:109 | With a consistent comparator, the result is in comparator order. |
| Sorting.SortProjects | components/Dashboard.tsx:257 | Any field read off the sorted list is a rearrangement of the same field of the input. |
| Sorting.SortStable | components/Dashboard.tsx:257-276 | Elements the comparator calls equal keep their relative order. |
| Ranking.RunStart | components/Grades.tsx:111-119 | The run of equal values ending at a position starts where the value last changed. |
| Ranking.RankStep | components/Grades.tsx:113-118 | One iteration: a new value sets the rank to the position plus one; a repeated value keeps the previous rank. |
| Ranking.RankLoopStep | components/Grades.tsx:113-118 | From the rank and the last value left by the previous position, the loop body computes the closed-form rank of the current one. |
| Ranking.RanksNonDecreasing | components/Grades.tsx:111-119 | Ranks never decrease along the list. |
| Ranking.RunSharesRank | components/Grades.tsx:114-118 | Equal consecutive values share a rank. |
| Ranking.CompetitionRank | components/Grades.tsx:111-119 | On a list sorted best first, with no value equal to the initial -1, the rank is one plus the number of strictly better entries. |
| Ranking.RankInto | components/Grades.tsx:111-119 | The `map` with `currentRank` and `lastScore` builds a new list in which every entry carries its closed-form rank. |
| Ranking.RankInPlace | components/Dashboard.tsx:246-254 | The `forEach` that writes `student.rank` in place leaves every record with its closed-form rank and changes nothing else. |
| Averages.FirstAvg | components/Dashboard.tsx:222-223 | The first average on the rows, or none exactly when no row has one. |
| Averages.LastAvg | components/Grades.tsx:90-95 | The last average on the rows, which is the value the map keeps, or none exactly when no row has one. |
| Averages.MeanBounds | components/Grades.tsx:101-103 | A mean lies between the least and the greatest value averaged. |
| Averages.SubjectAveragesFromRows | components/Grades.tsx:89-97 | Every subject average comes from a row of the sheet; there are none exactly when no subject has an average. |
| Averages.PickedNoneIff | components/Dashboard.tsx:222-223 | A subject has no average exactly when none of its rows has one. |
| Averages.OverallNoneIff | components/Grades.tsx:100-106 | A student has no overall average exactly when none of their rows carries an average. |
| Averages.OverallAverage | components/Dashboard.tsx:233-238 | There is no overall average exactly when no subject has an average. |
| Averages.MeanOf | components/Dashboard.tsx:234-237 | The `reduce` sum divided by the length: none for no values, otherwise a mean that, times the number of values, gives their sum. |
| Averages.OverallBounds | components/Dashboard.tsx:233-238 | When the sheet's averages lie in a range, so does the overall average. |
| Averages.OverallAtLeast | components/Dashboard.tsx:233-238 | When no average on the sheet is below a bound, neither is the overall average. |
| Grades.PluralFormOf | components/Grades.tsx:26-40 | The step-by-step `n %= 100`, `n %= 10` selector returns the Russian plural form in its usual statement (one / few / many, with 11-14 as many). |
| Grades.PluralIgnoresSign | components/Grades.tsx:27 | The form depends only on the magnitude. |
| Grades.PluralManyForTeens | components/Grades.tsx:28-31 | Last two digits 5 to 20 give the "five" form. |
| Grades.PluralByLastDigit | components/Grades.tsx:32-39 | Otherwise last digit 1 gives "one", 2-4 give "two", 0 and 5-9 give "five". |
| Grades.PluralPeriodic | components/Grades.tsx:28 | Adding 100 does not change the form. |
| Grades.SummarizeAbsences | components/Grades.tsx:152-160 | The total is the number of 'н' records, and the grouping is the order-preserving grouping of those records by subject. |
| Grades.AbsenceSummaryConsistent | components/Grades.tsx:152-160 | A subject's absence list holds exactly that subject's 'н' records, and the list sizes add up to the total. |
| Grades.BeginFetch | components/Grades.tsx:136 | Starting a request marks the panel busy and changes nothing else. |
| Grades.FinishFetch | components/Grades.tsx:137-145 | Success stores the text and failure stores the fixed notice, both stamped with the current time, and the panel is idle again. |
| Grades.NoFetchWhileGenerating | components/Grades.tsx:131 | The guard admits no second request while one is under way. |
| Grades.FetchGatedByDuration | components/Grades.tsx:131-134 | After a request ends, the guard admits none for twelve hours; once they have passed, it admits one when the sheet is open and the data is ready. |
| Grades.StoreAnalysis | components/Grades.tsx:256 | Storing a subject's analysis makes that entry fresh with the new text and leaves the other subjects' entries unchanged. |
| Grades.FreshWindow | components/Grades.tsx:132 | `isCacheValid`: the duration is 43 200 000 ms; a missing entry is never fresh; an entry is fresh exactly before its time plus the duration; once expired it stays expired. |
| Grades.FetchGuard | components/Grades.tsx:131-134 | The effect's guard admits a request exactly when the sheet is open, the data is ready, no request is under way, and nothing is cached or the entry is at least twelve hours old. |
| GradesRating.UserRowSomeIff | components/Grades.tsx:86-106 | A student gets a rating entry exactly when one of their rows carries an average. |
| GradesRating.RowsMembers | components/Grades.tsx:86-106 | The entries are exactly the averaged students' entries. |
| GradesRating.RankUsers | components/Grades.tsx:113-119 | Ranking keeps each entry's id, name and average, in order. |
| GradesRating.FindUser | components/Grades.tsx:121 | Finds the first entry with the id, or none exactly when no entry has it. |
| GradesRating.ComputeRating | components/Grades.tsx:73-127 | The method computes the rating function; empty data or no user gives an empty list and no current entry. |
| GradesRating.UserAverages | components/Grades.tsx:86-106 | The per-user loop gives the averaged students' entries in first-appearance order. |
| GradesRating.SortAndRank | components/Grades.tsx:108-119 | The in-place sort followed by the rank loop gives the stable sort, each entry with its closed-form rank. |
| GradesRating.RankUsersKeys | components/Grades.tsx:113-119 | Ranking keeps the averages in order, and each rank is the closed-form rank over them. |
| GradesRating.AvgDescTotal | components/Grades.tsx:109 | The comparator is a consistent order. |
| GradesRating.AvgDescIsCompare | components/Grades.tsx:109 | The sort keeps `a` before `b` exactly when `b.avg - a.avg` is not positive; the comparator changes sign when swapped and is zero exactly for equal averages. |
| GradesRating.RatingOnlyAveraged | components/Grades.tsx:86-106 | Every ranked student has an average on the sheet, and their entry is the one their records determine. |
| GradesRating.RatingEveryAveraged | components/Grades.tsx:86-106 | Every student with an average on the sheet is ranked. |
| GradesRating.RatingIdsDistinct | components/Grades.tsx:77-106 | No student is ranked twice. |
| GradesRating.RatingSortedDesc | components/Grades.tsx:109 | The rating lists averages in non-increasing order. |
| GradesRating.RatingRanksNonDecreasing | components/Grades.tsx:111-119 | Ranks never decrease down the rating. |
| GradesRating.RankedAvgs | components/Grades.tsx:108-119 | The rating's averages are those of the stable sort by average, in that order, and each rank is the closed-form rank over them. |
| GradesRating.RatingKeys | components/Grades.tsx:108-119 | The averages down the rating are in non-increasing order, and each rank is the closed-form rank over them. |
| GradesRating.RatingTiesShareRank | components/Grades.tsx:114-118 | Equal averages share a rank. |
| GradesRating.RatingCompetition | components/Grades.tsx:108-119 | With non-negative averages, a rank is one plus the number of students with a strictly higher average. |
| GradesRating.RatingCurrent | components/Grades.tsx:121 | The current entry exists exactly when the user is ranked, and is their entry. |
| GradesRating.TiesSkipRanks | components/Grades.tsx:111-119 | Averages 90, 90, 80 get ranks 1, 1, 3. |
| DashboardFormat.ScoreHueIntervals | components/Dashboard.tsx:24-27 | Each colour is exactly one interval: at least 86, 71 to 86, 56 to 71, below 56. |
| DashboardFormat.ScoreHueMonotone | components/Dashboard.tsx:24-27 | A higher score never gets a worse colour. |
| DashboardFormat.AvgGradeColor | components/Dashboard.tsx:21-28 | The neutral style is used exactly when there is no average. |
| DashboardFormat.ScorePillColor | components/Dashboard.tsx:30-41 | Grey exactly for 'н', blue exactly for 'зачет', plain exactly for an empty mark. |
| DashboardFormat.BandsAgree | components/Dashboard.tsx:34-38 | An average and a numeric mark with the same value get the same band. |
| DashboardFormat.FormatScoreEmptyIff | components/Dashboard.tsx:43-49 | Only an empty mark is shown as empty text; the three letter marks are one letter each and differ from each other. |
| DashboardFormat.FormatScoreInjective | components/Dashboard.tsx:43-49 | When a number's text is never empty nor Н, Б or З, and two numbers share a text only if equal, different marks are never shown alike. |
| DashboardFormat.Split | components/Dashboard.tsx:259 | `split(' ')` always gives at least one piece, so `parts[0]` is always defined. |
| DashboardFormat.LastName | components/Dashboard.tsx:258-262 | Both branches of the conditional give the last piece of the split. |
| DashboardFormat.JoinSplit | components/Dashboard.tsx:259 | Joining the pieces of `split(' ')` with spaces gives the name back, and no piece holds a space. |
| DashboardFormat.SplitJoin | components/Dashboard.tsx:259 | Splitting space-free words joined by spaces gives the words back. |
| DashboardFormat.LastNameIsLastWord | components/Dashboard.tsx:258-262 | The last name holds no space and is what follows the name's last space; it is the whole name when the name has no space. |
| Dashboard.ScoreCounts | components/Dashboard.tsx:218-219 | The graded marks are the numeric and 'зачет' ones, and graded, 'н', 'б' and empty marks add up to all records. |
| Dashboard.AbsentCountIsAbsences | components/Dashboard.tsx:206 | Counting 'н' marks gives the length of the absence list. |
| Dashboard.CountWhere | components/Dashboard.tsx:218-219 | The `filter(...).length` count is at most the number of records, zero exactly when no record matches, and the number of records exactly when every record matches. |
| Dashboard.AnalyzeStudent | components/Dashboard.tsx:204-241 | The per-student loop builds the student's record. |
| Dashboard.SubjectEntries | components/Dashboard.tsx:216-231 | The per-subject loop builds every subject's entry and collects the subject averages in order. |
| Dashboard.TotalAbsencesAddUp | components/Dashboard.tsx:206-219 | A student's absence total is the sum of their subjects' absence counts. |
| Dashboard.SubjectsOfStudent | components/Dashboard.tsx:208-231 | A record lists exactly the subjects of the student's records, each described by that subject's records alone. |
| Dashboard.SubjectAverageFirst | components/Dashboard.tsx:222-223 | A subject's average is the first one on its rows, and is null exactly when no row of that subject has one. |
| Dashboard.AnalysesOf | components/Dashboard.tsx:204 | One record per distinct student. |
| Dashboard.AnalysesIds | components/Dashboard.tsx:198-204 | The records' ids are the student ids in first-appearance order. |
| Dashboard.AnalyzeAll | components/Dashboard.tsx:198-241 | The loop over the grouped students builds every student's record in order. |
| Dashboard.WithRanks | components/Dashboard.tsx:246-254 | The rank loop changes only the rank field. |
| Dashboard.BuildDashboard | components/Dashboard.tsx:195-277 | Grouping, analysis, both in-place sorts and the rank loop compute the dashboard function; no data gives an empty list. |
| Dashboard.DashboardPermutation | components/Dashboard.tsx:257 | The display sort is a permutation of the ranked records: no record and no rank changes. |
| Dashboard.DashboardIds | components/Dashboard.tsx:198-204 | The ids shown are a rearrangement of the distinct student ids. |
| Dashboard.DashboardOnePerStudent | components/Dashboard.tsx:198-205 | Exactly one record per distinct student id. |
| Dashboard.DashboardRecords | components/Dashboard.tsx:204-240 | Every record shown is its student's analysis with a rank: name, average, absences and subjects come from that student's records. |
| Dashboard.RankedRecord | components/Dashboard.tsx:204-254 | Every ranked record is its student's analysis with a rank. |
| Dashboard.ByOverallDescTotal | components/Dashboard.tsx:244 | The rank sort's comparator is a consistent order. |
| Dashboard.ByOverallDescIsCompare | components/Dashboard.tsx:244 | The sort keeps `a` before `b` exactly when `(b ?? 0) - (a ?? 0)` is not positive; the comparator changes sign when swapped, and a missing average compares equal to 0. |
| Dashboard.RanksOfRanked | components/Dashboard.tsx:246-254 | Each rank is the loop's closed-form rank over the sorted averages. |
| Dashboard.RankedSortedDesc | components/Dashboard.tsx:244 | The rank sort puts higher averages first, counting a missing one as 0. |
| Dashboard.RankedRanksNonDecreasing | components/Dashboard.tsx:246-254 | Ranks never decrease in rank order. |
| Dashboard.RankedKeys | components/Dashboard.tsx:244-254 | Down the ranked list the averages, a missing one read as 0, never increase, and each rank is the closed-form rank over them. |
| Dashboard.RankedTiesShareRank | components/Dashboard.tsx:248-253 | Equal averages other than 0 share a rank, whatever other students lack an average. |
| Dashboard.RankedCompetition | components/Dashboard.tsx:244-254 | With non-negative sheet averages, and unless some student lacks an average while another averages 0, a rank is one plus the number of students with a strictly higher average (a missing one counted as 0). |
| Dashboard.MissingAverageSplitsTie | components/Dashboard.tsx:244-251 | Averages 0, none, 0 sort alike but get ranks 1, 2, 3. |
| Dashboard.MissingAverageBreaksRun | components/Dashboard.tsx:248-253 | Averages 0, none, 0 at any positions p, p + 1, p + 2: the last two start new ranks p + 2 and p + 3. |
| Dashboard.DisplayOrderTotal | components/Dashboard.tsx:257-276 | Last name, then full name, is a consistent order when the collation is. |
| Dashboard.DisplayCompareSwap | components/Dashboard.tsx:264-275 | With a consistent collation, the comparator changes sign when swapped, and it is zero exactly when both the last names and the full names collate equal. |
| Dashboard.DashboardSorted | components/Dashboard.tsx:257-276 | The dashboard is in last-name, then full-name order. |
| Dashboard.DashboardStable | components/Dashboard.tsx:257-276 | Students whose names the order cannot tell apart stay in rank order. |

## Left out

- Grouping.GroupBy: the views group into a plain `{}` object. A key naming an `Object.prototype` member (`constructor`, `toString`, `valueOf`, `__proto__`) finds a truthy value there, so no array is created, and `acc[key].push` throws a TypeError. The model groups such keys like any other, so this error path is not modelled.
- Object key order: `Object.entries` lists integer-like keys (numeric student ids, for example) first, in numeric order, and the rest in insertion order. The model lists every key in insertion order.
- Grades: the overall average averages subjects in the order the map first received a value for each, and the model in the order the subjects first appear. With exact arithmetic the mean is the same.
- Numbers are exact reals: IEEE-754 summation error and `toFixed` display rounding are not modelled.
- `localeCompare(…, 'ru')` is a comparator parameter. Sortedness and stability of the display order are proved for collations that are antisymmetric and transitive.
- The text of a number (`toString`) is a parameter of `FormatScore`.
- Grades.PluralFormOf: integers only; the source also accepts non-integral numbers, which the views never pass.
- The recommendation service (`getRatingAnalysis`, `getAbsenceAnalysis`) is an outcome parameter (text or failure); its requests are not modelled.
- `Date.now()` is an integer parameter in milliseconds. Date formatting with `toLocaleString` is not modelled.
- The React lifecycle (state, memoisation, effect re-runs), JSX, CSS classes, `BottomSheet` and `SubjectGradeCard` are not modelled; colours are an enumeration of bands.
- The dashboard's name search (`toLowerCase`/`includes`) depends on Unicode case mapping and is not modelled.
- The sorted subject lists at components/Grades.tsx:188 and in the student card, the card's per-subject sheet filters, and the lecture-absence grouping reuse the modelled grouping and filters; they are not modelled separately.
- Sorting with a comparator that is not a consistent order is not characterised: `Array.prototype.sort` then gives an implementation-defined order.
