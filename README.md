# Go exercises: a verified model of their core

This project models the core of a collection of Go exercises in Dafny and
proves properties about that model:

- **unpack** (`develop/dev02`) expands strings such as `a4bc2d5e`. Each
  digit repeats the rune before it, and a backslash escapes digits and
  backslashes. The model also covers the three error cases.
- **sort** (`develop/dev03`) covers the default path of `sortLines`: lines
  sorted by text, optionally de-duplicated (`-u`) and reversed (`-r`).
  It also covers `unique` and the in-place `reverse`.
- **anagram search** (`develop/dev04`): `sortString`, `isAnagram`, the
  quadratic `findAnagram`, and `findAnagramFast` with its buckets of
  anagrams.
- **grep** (`develop/dev05`) covers the context helpers `addAfter`,
  `addBefore`, `addContext` and `flagHandler`, which share a set of
  already printed lines. It also covers `grep` with its match counter and
  the `-i`, `-v`, `-c`, `-n` and `-F` flags.
- **cut** (`develop/dev06`) covers `-f`, `-d` and `-s`. The printed line
  is returned as a string.
- **calendar server** (`develop/dev11`) covers the event store with
  create, update, delete and the day, week and month queries. It also
  covers request parsing (`parseEvent`, `parseId`, `parseParams`) and the
  handlers' decision logic: method check, parse errors, store errors and
  the status codes.
- **patterns**: the builder, facade and factory-method examples.

How Go's semantics are modelled:

- **The command-line flags** of the exercises are parameters.
- **Grep's shared set** is a `Seen` object whose field the helpers update.
- **The store's map** of events is a field of the `EventStore` class.
- **Go's map iteration order** is unspecified. It becomes a parameter
  `order` that enumerates the keys; every result is proved for any such
  order.
- **Regular expressions** in grep's non-fixed path are a parameter: a
  compiled matcher, or `None` when the pattern does not compile.
- **Time** is an integer count of seconds since 1970-01-01 00:00 UTC. A
  query's start is local midnight in a zone a fixed number of seconds east
  of UTC. Europe/Moscow is `MoscowOffset` = 10800. `AddDate` normalises
  out-of-range months and days the way Go's `time.Date` does.
- **Integers** are unbounded. `strconv.Atoi` rejects values outside the
  signed 64-bit range, as Go's does.

Where the exercise text and the code disagree, the model follows the code:

- The calendar server answers 400 for every failure, including a
  duplicate id on create and a missing id on update or delete. The
  exercise text asks for 503 for business errors.
- Event windows are strict on both ends (`After(begin) && Before(end)`).
  With a zone east of UTC, the day window still selects exactly the
  events dated on that local day (`DayWindow`). With a UTC start it would
  select nothing (`UtcDayWindowEmpty`).
- A GET request that lacks `user_id` or `date` but has two or three form
  keys makes the handler index a missing slice and panic. The model
  answers `Aborted`, meaning no response is written by the handler.

## Model

| member | source | states |
|---|---|---|
| Unpack.Spec | develop/dev02/task.go:40-100 | on any error the returned string is empty |
| Unpack.WriteBlock | develop/dev02/task.go:30-37 | a non-zero count appends the rune count-1 more times and resets the count; a zero count writes nothing |
| Unpack.Unpack | develop/dev02/task.go:40-100 | the loop over the runes returns exactly the result and error of the rune-by-rune specification, with empty output on error |
| Unpack.UnpackPack | develop/dev02/task.go:40-100 | for any runs of 1..9 equal runes, encoding them (digits escaped) and unpacking gives back the expanded runs without error |
| Unpack.PlainUnchanged | develop/dev02/task.go:72-77 | a string without digits or backslashes unpacks to itself |
| Unpack.LeadingDigit | develop/dev02/task.go:84-85 | a digit in first position is the "number in zero position" error |
| Unpack.AdjacentDigits | develop/dev02/task.go:82-83 | two adjacent digits anywhere, the first of them not escaped (the run up to it has no pending backslash), make unpack fail with empty output |
| Unpack.ZeroCount | develop/dev02/task.go:86-87 | a 0 anywhere that is not escaped makes unpack fail with empty output |
| Unpack.EscapedErrors | develop/dev02/task.go:81-87 | escapes do not hide the errors: `\\45` is an invalid string, `\\0` and `a\40` have a zero count |
| Unpack.TestPlain | develop/dev02/task_test.go:10-16 | the empty string and "abcd" unpack to themselves |
| Unpack.TestCounts | develop/dev02/task_test.go:18-20 | "a4bc2d5e" unpacks to "aaaabccddddde" |
| Unpack.TestTrailingCount | develop/dev02/task_test.go:22-24 | "a4c2" unpacks to "aaaacc" |
| Unpack.TestErrors | develop/dev02/task_test.go:26-36 | "4abcd" fails with the zero-position error; "a45" and "aa2c0" fail with empty output |
| Unpack.DigitsOnly | develop/dev02/task.go:17 | "45" is refused with empty output |
| Unpack.TestEscapedDigits | develop/dev02/task_test.go:38-40 | `abc\3\2` unpacks to "abc32" |
| Unpack.TestEscapedDigitCount | develop/dev02/task_test.go:42-44 | `qwe\45` unpacks to "qwe44444" |
| Unpack.TestEscapedBackslash | develop/dev02/task_test.go:46-48 | `qwe\\5` unpacks to qwe followed by five backslashes |
| SortUtil.Unique | develop/dev03/task.go:147-157 | the loop keeps exactly the lines of the specification: the first line of each text |
| SortUtil.UniqueFromProperties | develop/dev03/task.go:147-157 | the kept lines are a subsequence of the input, no two share a text, and every input text is kept |
| SortUtil.UniqueKeepsFirst | develop/dev03/task.go:150-154 | the first line with a given text is the one kept |
| SortUtil.UniqueIdempotent | develop/dev03/task.go:147-157 | de-duplicating twice is de-duplicating once |
| SortUtil.Reversed | develop/dev03/task.go:160-164 | the reversal has the same length and holds element n-1-i at position i |
| SortUtil.Reverse | develop/dev03/task.go:160-164 | the swap loop leaves the array holding the reversal of its old contents |
| SortUtil.ReversedTwice | develop/dev03/task.go:160-164 | reversing twice gives back the lines |
| SortUtil.ReversedMultiset | develop/dev03/task.go:160-164 | reversal is a permutation |
| SortUtil.ReversedSorted | develop/dev03/task.go:139-141 | reversing lines sorted by text gives a permutation in descending order |
| SortUtil.SortInPlace | develop/dev03/task.go:135-137 | the array ends up holding its old lines sorted by text |
| SortUtil.SortLinesProperties | develop/dev03/task.go:77-143 | the default path returns a permutation of the (optionally de-duplicated) input, ascending by text or descending under -r, with distinct texts under -u |
| SortUtil.SortLines | develop/dev03/task.go:77-143 | the result is the default-path specification of the old input; without -u the input array itself is sorted in place |
| Common.FreshProperties | develop/dev05/task.go:168-171 | skipping already printed lines prints nothing twice and nothing already printed, and afterwards every line is printed |
| Common.FreshAppend | develop/dev05/task.go:162-172 | printing a then b with a shared set is printing a, then b against the set grown by a |
| Common.FreshIdempotent | develop/dev05/task.go:168-171 | de-duplicating twice is de-duplicating once |
| Common.SortByProperties | develop/dev03/task.go:135-137 | sorting by a key is a permutation into ascending key order |
| Common.SortByKeepsDistinctKeys | develop/dev03/task.go:79-81 | sorting keeps distinct keys distinct |
| Common.LessEqTotal | develop/dev03/task.go:136 | Go string comparison is total |
| Common.LessEqTransitive | develop/dev03/task.go:136 | Go string comparison is transitive |
| Common.LessEqAntisymmetric | develop/dev03/task.go:136 | Go string comparison is antisymmetric |
| Anagram.SortStringSpec | develop/dev04/task.go:77-83 | sortString returns the runes of its argument in ascending order, as a permutation |
| Anagram.SameSorting | develop/dev04/task.go:77-83 | two words sort to the same string exactly when they have the same multiset of runes |
| Anagram.IsAnagram | develop/dev04/task.go:29-40 | isAnagram holds exactly when both words have the same multiset of runes, which makes it reflexive, symmetric and transitive |
| Anagram.Lower | develop/dev04/task.go:45-47 | each word is replaced by its lower-case form |
| Anagram.LowerInPlace | develop/dev04/task.go:45-47 | the array ends up holding the lower-cased words |
| Anagram.ScanKeys | develop/dev04/task.go:53-58 | the scan over the keys appends the word to exactly the groups whose key is its anagram, and reports uniqueness when there is none |
| Anagram.FindAnagram | develop/dev04/task.go:43-69 | the words are lower-cased in place and the result is the grouping specification of the lower-cased words |
| Anagram.GroupsProperties | develop/dev04/task.go:43-69 | each key is the first word of its anagram class and heads its group, groups hold only anagrams of their key, distinct keys are not anagrams, and every word lands in some group |
| Anagram.AddToBucket | develop/dev04/task.go:94-105 | one word of the first loop performs the specification step: the word joins the bucket of its sorted runes unless it is there, or opens a bucket holding only itself |
| Anagram.BuildSets | develop/dev04/task.go:91-106 | the first loop builds exactly the specified buckets of the lower-cased words, keyed by sorted runes |
| Anagram.FindAnagramFast | develop/dev04/task.go:85-118 | the result satisfies the result specification over the lower-cased words |
| Anagram.FastShape | develop/dev04/task.go:108-114 | every listed anagram set has at least two words, is sorted, has no duplicates and contains its key |
| Anagram.FastMembers | develop/dev04/task.go:94-105 | every word of a set is an anagram of its key and one of the lower-cased input words |
| Anagram.FastFirstSeen | develop/dev04/task.go:112 | each key is the first word of the input in its anagram class |
| Anagram.FastDisjoint | develop/dev04/task.go:94-105 | no word is in two sets |
| Anagram.FastCoverage | develop/dev04/task.go:108-111 | a word is listed exactly when another, different input word is its anagram |
| GoStrings.AtoiItoa | develop/dev05/task.go:164 | parsing the decimal spelling of a 64-bit integer gives it back |
| GoStrings.ToLowerIdempotent | develop/dev05/task.go:217-219 | lower-casing twice is lower-casing once |
| GoStrings.JoinSplit | develop/dev06/task.go:33 | joining the split fields with the delimiter gives back the line |
| GoStrings.SplitWithoutSeparator | develop/dev06/task.go:33 | a line without the delimiter splits into the line alone |
| Grep.RenderReadsBack | develop/dev05/task.go:82-86 | a printed line ends with the line text; under -n it starts with the line number, which reads back, and a space |
| Grep.AfterWindow | develop/dev05/task.go:76-112 | the lines addAfter visits: count lines from the match on, cut at the end of input |
| Grep.BeforeWindow | develop/dev05/task.go:119-156 | the lines addBefore visits: count lines up to the match, cut at the start of input |
| Grep.AddLines | develop/dev05/task.go:76-112 | the loop prints the rendered lines not yet in the set and adds all of them to the set |
| Grep.AddAfter | develop/dev05/task.go:76-112 | the fresh rendered lines of the after-window are returned, and the set grows by that window |
| Grep.AddBefore | develop/dev05/task.go:119-156 | the fresh rendered lines of the before-window are returned, and the set grows by that window |
| Grep.AddMatch | develop/dev05/task.go:186-195 | the matched line is printed once, only if not yet printed, and added to the set |
| Grep.AddContext | develop/dev05/task.go:159-175 | before-window, match and after-window, each of width -C, printed without repeats against the shared set |
| Grep.FlagHandler | develop/dev05/task.go:178-201 | -C takes precedence; otherwise the before-window under -B, the match, and the after-window under -A, printed without repeats |
| Grep.Grep | develop/dev05/task.go:204-257 | an uncompilable pattern is an error with no output; otherwise the output is the count of selected lines under -c, else the candidates of every selected line with repeats dropped |
| Grep.HandleLine | develop/dev05/task.go:231-243 | one line: lower-cased under -i, selected when its match differs from -v; a selected line returns its candidates not yet printed, and all of them join the set |
| Grep.CountIsSelectedLines | develop/dev05/task.go:236-243 | the counter equals the number of selected lines |
| Grep.OutputProperties | develop/dev05/task.go:231-254 | the printed lines have no duplicates, are exactly the candidate lines, and include every selected line |
| Grep.MatchInCandidates | develop/dev05/task.go:178-201 | the flag handler's candidates always contain the matched line |
| Grep.MatchCollected | develop/dev05/task.go:231-244 | every selected line's rendering is among the collected candidates |
| Grep.IgnoreCaseCapitalPattern | develop/dev05/task.go:233-236 | under -i -F a pattern with a capital letter matches no line, because only the line is lower-cased |
| Grep.AfterShowsOneLineLess | develop/dev05/task.go:76-112 | -A N shows the match and the N-1 lines after it, because addAfter counts from the match |
| Cut.Cut | develop/dev06/task.go:32-47 | the requested column when it exists; otherwise an empty line under -s and the whole line without it |
| Cut.CutOccursInLine | develop/dev06/task.go:32-47 | the printed text always occurs in the input line |
| Cut.UndelimitedLineIsFirstField | develop/dev06/task.go:33-46 | a line without the delimiter is its own first field; any other field prints the line, or nothing under -s |
| Cut.MissingFieldPrintsLine | develop/dev06/task.go:34-46 | a missing field prints the whole line without -s and nothing with it |
| Cut.SecondTabColumn | develop/dev06/task.go:26-47 | with the default tab delimiter, field 2 of "a\tb" is "b"; a missing field 3 under -s is empty |
| CalendarDates.DaysIn | develop/dev11/task.go:158-173 | month lengths lie between 28 and 31 |
| CalendarDates.Epoch | develop/dev11/task.go:61-69 | 1970-01-01 is day 0 and the zero time is instant -62135596800 |
| CalendarDates.MonthCarry | develop/dev11/task.go:158-173 | month 13 of a year is month 1 of the next, as AddDate normalises |
| CalendarDates.MonthLater | develop/dev11/task.go:158-173 | one month after any day of month m is DaysIn(m) days later, also when the day rolls over |
| CalendarDates.ParseDate | develop/dev11/task.go:61-69 | an accepted date is a real day of a real month with a four-digit year |
| CalendarDates.ParseFormat | develop/dev11/task.go:61-69 | parsing a formatted valid date gives it back |
| CalendarDates.FormatParse | develop/dev11/task.go:61-69 | every accepted string is the formatting of what it parses to |
| CalendarDates.ParseExamples | develop/dev11/task.go:61-69 | 2019-09-09 and 2020-02-29 parse; 2019-02-29, 2019-13-01 and 2019-9-09 are refused |
| CalendarStore.ListsSingle | develop/dev11/task.go:124-139 | a listing of a single key is that one event |
| CalendarStore.EventStore.constructor | develop/dev11/task.go:82-86 | a new store is empty |
| CalendarStore.EventStore.Create | develop/dev11/task.go:88-98 | a known id is refused with "event already exists" and nothing changes; otherwise the event is stored under its id |
| CalendarStore.EventStore.Update | develop/dev11/task.go:100-110 | an unknown id is refused with "event does not exist" and nothing changes; otherwise the event replaces the stored one |
| CalendarStore.EventStore.Delete | develop/dev11/task.go:112-122 | an unknown id is refused with "event does not exist" and nothing changes; otherwise exactly that id is removed |
| CalendarStore.EventStore.Scan | develop/dev11/task.go:130-136 | for any enumeration order, the loop lists each stored event of the user strictly inside the window exactly once |
| CalendarStore.EventStore.GetForDay | develop/dev11/task.go:124-139 | the user's events strictly between begin and begin plus one day, each once |
| CalendarStore.EventStore.GetForWeek | develop/dev11/task.go:141-156 | the user's events strictly between begin and begin plus seven days, each once |
| CalendarStore.EventStore.GetForMonth | develop/dev11/task.go:158-173 | the user's events strictly between begin and begin plus one month, each once |
| CalendarStore.WindowDays | develop/dev11/task.go:132 | east of UTC, the strict window from local midnight to local midnight holds exactly the event days from the first day up to the last one, excluded |
| CalendarStore.DayWindow | develop/dev11/task.go:124-139 | east of UTC, the day query selects exactly the events dated on that day |
| CalendarStore.WeekWindow | develop/dev11/task.go:141-156 | east of UTC, the week query selects the seven days from the start date |
| CalendarStore.MonthWindow | develop/dev11/task.go:158-173 | east of UTC, the month query selects the days of the start month counted from the start day |
| CalendarStore.UtcDayWindowEmpty | develop/dev11/task.go:128-132 | with a UTC start the strict day window is empty and the week loses its first day |
| CalendarStore.Lifecycle | develop/dev11/task.go:88-122 | create, duplicate create, update, delete, repeated delete and update of a deleted event give the expected errors, and the store ends empty |
| CalendarApi.ParseEvent | develop/dev11/task.go:217-239 | an event is accepted exactly when the body decodes, its date parses, the id and user_id are non-negative and the name is not empty; it then carries the decoded fields |
| CalendarApi.ParseEventOrder | develop/dev11/task.go:223-236 | the checks run in the order id, user_id, name, and every refusal has its message |
| CalendarApi.AcceptedDate | develop/dev11/task.go:61-69 | an accepted date is the zero time (field absent) or UTC midnight of a valid date |
| CalendarApi.ParseId | develop/dev11/task.go:205-214 | a body that decodes gives its id, 0 when the field is absent; one that does not decode is an error |
| CalendarApi.ParseParams | develop/dev11/task.go:242-265 | with fewer than two or more than three keys the answer is "wrong params"; an accepted query has a 64-bit user id and a valid date at local midnight in the given zone |
| CalendarApi.ParseParamsValues | develop/dev11/task.go:253-262 | an accepted query's user id and date are the parsed first values of user_id and date |
| CalendarApi.ParseParamsTypical | develop/dev11/task.go:242-265 | a form with the spelled user id and formatted date is accepted with exactly those values |
| CalendarApi.EventServer.CreateEvent | develop/dev11/task.go:284-303 | a non-POST request, then a parse error, then a duplicate id are answered 400 in that order with the store unchanged; otherwise 200 with the stored event |
| CalendarApi.EventServer.UpdateEvent | develop/dev11/task.go:305-324 | a non-POST request, then a parse error, then an unknown id are answered 400 with the store unchanged; otherwise the event replaces the stored one |
| CalendarApi.EventServer.DeleteEvent | develop/dev11/task.go:326-345 | a non-POST request, then a malformed body, then an unknown id are answered 400; otherwise the id is removed and echoed back |
| CalendarApi.EventServer.GetEvents | develop/dev11/task.go:347-396 | a non-GET request or a parameter error is answered 400, a missing key aborts, and otherwise the reply lists the matching events in the Moscow-time window |
| CalendarApi.Session | develop/dev11/task.go:284-362 | a created event is listed by the day query of its date, a second create and a one-parameter query are refused, and a GET to create is a wrong method |
| Builder.MakeTitle | patterns/builder.go:30-32 | "# ", the title, then a newline |
| Builder.MakeString | patterns/builder.go:34-36 | "## ", the text, then a newline |
| Builder.MakeItems | patterns/builder.go:38-44 | the loop appends one bullet line per item, in order |
| Builder.ItemsAppend | patterns/builder.go:38-44 | appending an item appends its bullet line |
| Builder.Construct | patterns/builder.go:16-25 | the director produces "# Title\n## String\n- Item1\n- Item2\n\n" |
| Builder.ExampleDocument | patterns/builder.go:16-25 | the example document is the title line, the subtitle line, the bullets Item1 and Item2 and the closing blank line |
| Builder.Bullets | patterns/builder.go:40-42 | one "- " line per item, in order |
| Builder.DocumentLines | patterns/builder.go:16-25 | split into lines, a document gives back its title, subtitle and items, followed by two empty lines |
| Facade.GetNameByMail | patterns/facade.go:13-15 | the stored name for a known mail; the result is empty exactly when the mail is unknown |
| Facade.NameOfPage | patterns/facade.go:20-22 | a name read back from a page sits between the greeting and the ending that title writes |
| Facade.Title | patterns/facade.go:20-22 | the name reads back from the title it produces |
| Facade.MakeWelcomePage | patterns/facade.go:27-35 | the welcome page names the stored name for the mail, or the empty name for an unknown mail |
| Facade.TitleInjective | patterns/facade.go:20-22 | different names give different titles |
| Facade.ExamplePages | patterns/facade.go:37-44 | the pages for a@a.com and b@b.com greet a and b; an unknown mail greets the empty name |
| FactoryMethod.Transport.constructor | patterns/factory_method.go:13-16 | a transport holds the given name and type |
| FactoryMethod.Transport.SetName | patterns/factory_method.go:18-20 | the name reads back and the type is unchanged |
| FactoryMethod.Transport.SetType | patterns/factory_method.go:26-28 | the type reads back and the name is unchanged |
| FactoryMethod.NewTruck | patterns/factory_method.go:43-51 | a new truck with the given name and type |
| FactoryMethod.NewShip | patterns/factory_method.go:58-66 | a new ship with the given name and type |
| FactoryMethod.Example | patterns/factory_method.go:68-76 | names and types read back as set, and renaming the ship leaves the truck alone |

## Left out

- I/O is left out: reading files and standard input, printing, and the SIGINT handling in cut's reader. Every operation returns what the original prints.
- The calendar server's HTTP plumbing is left out: the listener, routing, LoggingMiddleware, `main`, and JSON encoding of replies (including `null` for an empty list). Bodies arrive already decoded, as the fields the JSON decoder would fill in.
- The store's read-write mutex is left out: the model is sequential.
- `time.LoadLocation("Europe/Moscow")` is replaced by the fixed offset of 3 hours east of UTC. Daylight saving and historical offsets are not modelled.
- The texts of library errors (JSON decoding, strconv, time.Parse) are not modelled; only their presence is.
- CalendarApi.EventServer.GetEvents: a `user_id` or `date` key that is missing makes the handler panic; the model reports `Aborted` in place of the recovered panic that the HTTP server produces.
- SortUtil.SortLines: only the default path, without -k and -n, is modelled. The column and numeric comparators there are not strict weak orders and depend on float parsing and a regular expression.
- SortUtil.SortInPlace: sort.Slice is not stable; the model fixes one order, an insertion sort, and proves the order-independent properties: a permutation, sorted by text.
- Anagram.FindAnagramFast: the buckets are values in a map of words, so the aliasing of `*setOfAnagrams` pointers is not modelled. Go's random map order decides which bucket is visited first, and the result does not depend on it.
- GoStrings.ToLower maps case for ASCII and the Cyrillic block U+0400..U+042F only; other scripts, and invalid UTF-8, are not modelled.
- Grep.Grep: regular-expression matching is a parameter, not a model of Go's regexp package.
- Grep.AfterWindow: integers are unbounded, so the 64-bit wrap-around of `idx+count` in addAfter is not modelled. For a count above MaxInt64 - idx the sum wraps negative and slicing `input[idx:idx+count]` panics; the model cuts the window at the end of input instead.
- Grep.AddAfter: the same wrap-around of `idx+count`, and the panic it causes for counts above MaxInt64 - idx, is not modelled.
- Grep.AddContext and Grep.FlagHandler call addAfter with the -C or -A count, and inherit that gap for counts above MaxInt64 - idx.
- The Go interfaces behind the builder (`Builder`) and the factory (`ITransport`) are not modelled as dispatch; the text builder and the two concrete transports are modelled directly.
- The transports' `Deliver` method, which only prints, and their float fields (fuel consumption, capacity) are not modelled.
- The exercises dev01, dev07, dev08, dev09 and dev10 are not part of this model.
