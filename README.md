# VolcanoAnalyzer query layer in Dafny

This project models the query layer of `VolcanoAnalyzer`. That layer holds one
ordered list of eruption records, loaded once from a JSON file, and answers
read-only questions about it: how many records there are, which erupted in the
1980s, which reached VEI 6, the deadliest record, the share with a tsunami, the
most common volcano type, the count per country, the distinct types, names
picked out by several filters or by elevation, and the agents of death of the
ten deadliest records.

Every query in the Java class is one stream pipeline with no local state, so
each becomes a Dafny function over `seq<Volcano>`:

- `wrappers.dfy`: `Option` (Java's `null`) and `Result` (the unchecked exception a query would throw).
- `streams.dfy`: the stream stages the queries use, on ordered sequential streams.
  These are `filter`, `map`, `filter(..).map(..)`, `count`, `flatMap`, `distinct` and `max`.
  The module also defines what "subsequence" and "first occurrence" mean.
- `stable_sort.dfy`: `sorted` with a descending comparator on a natural-number key.
  Java's object sort is stable, and insertion sort yields the same unique stable order.
- `java_text.dfy`: `Integer.parseInt` on digit strings, its inverse `Integer.toString`, and `String.split` on a one-character separator.
- `volcanoes.dfy`: the record (the Java field `type` is `volcanoType` here) and the conversions the queries share (deaths as a number, agent tokens).
- `volcano_analyzer.dfy`: the queries.
- `analyzer_examples.dfy`: the answers worked out on small concrete collections.

Design points followed from the code:

- `mostDeadly` reduces with `maxBy`, which keeps the running maximum unless a later record has strictly more deaths. Ties therefore go to the earliest record.
- `causedTsunami` divides a `long` by an `int`, so the percentage is truncated to a whole number before it is widened to `double`. Both operands are non-negative, so Dafny's division gives the same value. An empty list divides by zero, and this is modelled as `Failure(DivisionByZero)`.
- `mostCommonType` calls `get()` on an empty `Optional` when the list is empty; this is `Failure(NoSuchElement)`.
- `mostDeadly` and `topAgentsOfDeath` parse `deaths` inside their comparator. A comparator is only called once there are two records. So the precondition `DeathsComparable` asks for well-formed deaths fields only in that case.
- The sort comparator of `topAgentsOfDeath` subtracts one parsed deaths value from the other. Deaths values are between 0 and `Integer.MAX_VALUE`, so that `int` subtraction cannot wrap around, and the comparator orders by deaths, largest first.
- `split(",")` keeps leading and interior empty pieces and drops trailing ones. A string without a comma comes back whole. The code never splits an empty agent.
- The code has no empty-list guard: each `Failure` stands for the exception the code throws.
- `limit(10)` is fixed (`TopLimit`).

## Model

| member | source | states |
|---|---|---|
| `VolcanoAnalyzer.NumbVolcanoes` | src/main/java/VolcanoAnalyzer.java:33-35 | the number of records, counted with repetition; 0 exactly for an empty list |
| `VolcanoAnalyzer.EruptedInEighties` | src/main/java/VolcanoAnalyzer.java:33-40 | a record is in the result iff it is in the list with 1980 <= year < 1990; the result is a subsequence of the list holding every such record (length = their count), so it is never longer than `numbVolcanoes` |
| `VolcanoAnalyzer.HighVEI` | src/main/java/VolcanoAnalyzer.java:42-45 | a name is in the result iff some record with VEI >= 6 has it; the result holds, position by position, the name of each record with VEI >= 6, in list order (names may repeat) |
| `VolcanoAnalyzer.NamesWithVEIAtLeast` | src/main/java/VolcanoAnalyzer.java:43 | the same for any VEI threshold t |
| `VolcanoAnalyzer.HighVEIAntitone` | src/main/java/VolcanoAnalyzer.java:43 | raising the threshold gives a subsequence of the names, so never more names |
| `VolcanoAnalyzer.MostDeadly` | src/main/java/VolcanoAnalyzer.java:47-51 | None exactly on an empty list; otherwise a record of the list whose deaths ("" as 0) are >= every record's |
| `VolcanoAnalyzer.MostDeadlyIsFirstMaximum` | src/main/java/VolcanoAnalyzer.java:48-50 | on a non-empty list the result is at some position k, has the most deaths, and every record before k has strictly fewer (ties go to the earliest) |
| `Streams.MaxBy` | src/main/java/VolcanoAnalyzer.java:48-50 | the `max` reduction returns the first element or one of the rest, and its key is >= every key |
| `Streams.MaxByIsFirst` | src/main/java/VolcanoAnalyzer.java:48-50 | the `max` reduction returns the earliest element with the largest key |
| `Volcanoes.Deaths` | src/main/java/VolcanoAnalyzer.java:49 | an empty deaths field counts 0; a valid field is within int range |
| `Volcanoes.DeathsOfPrinted` | src/main/java/VolcanoAnalyzer.java:49 | a deaths field holding the decimal form of n is worth n |
| `JavaText.ParseDecimal` | src/main/java/VolcanoAnalyzer.java:49 | the parsed value of a digit string is below 10 to the power of its length |
| `JavaText.ParseDecimalLeadingZero` | src/main/java/VolcanoAnalyzer.java:49 | a leading zero does not change the parsed value |
| `JavaText.ParseDecimalString` | src/main/java/VolcanoAnalyzer.java:49 | parsing the decimal form of n gives n |
| `JavaText.DecimalStringParse` | src/main/java/VolcanoAnalyzer.java:49 | printing the parsed value gives back a digit string that has no leading zero |
| `VolcanoAnalyzer.CausedTsunami` | src/main/java/VolcanoAnalyzer.java:53-55 | fails with DivisionByZero exactly on an empty list; otherwise p is in 0..100 and p * n <= 100 * (records with tsu == "tsu") < (p + 1) * n, i.e. the truncated percentage |
| `VolcanoAnalyzer.TypeCounts` | src/main/java/VolcanoAnalyzer.java:59 | the grouping map has exactly the types that occur as keys, each mapped to its number of records |
| `VolcanoAnalyzer.MaxByCountIsMostCommon` | src/main/java/VolcanoAnalyzer.java:60-61 | whatever order the map entries are visited in, the maximum by count is a type that occurs and that no type outnumbers |
| `VolcanoAnalyzer.MostCommonType` | src/main/java/VolcanoAnalyzer.java:57-62 | fails with NoSuchElement exactly on an empty list; otherwise a type some record has, whose count is >= every type's count |
| `VolcanoAnalyzer.EruptionsByCountry` | src/main/java/VolcanoAnalyzer.java:64-66 | the number of occurrences of exactly `country` among the records' countries, and at most `numbVolcanoes` |
| `VolcanoAnalyzer.CountryCount` | src/main/java/VolcanoAnalyzer.java:65 | the size of the filtered list equals the multiplicity of the country among all countries |
| `VolcanoAnalyzer.VolcanoTypes` | src/main/java/VolcanoAnalyzer.java:72-74 | no duplicates; a type is listed iff some record has it; listed types appear in the order of their first occurrence |
| `Streams.Distinct` | src/main/java/VolcanoAnalyzer.java:73 | `distinct` keeps every element once and orders them by first occurrence |
| `VolcanoAnalyzer.NorthernCount` | src/main/java/VolcanoAnalyzer.java:77 | counts the records with latitude > 0 (at most n); it is 0 iff none is north and n iff all are |
| `VolcanoAnalyzer.ManyFilters` | src/main/java/VolcanoAnalyzer.java:80-84 | a name is in the result iff a record with year > 1800, tsu == "", latitude < 0 and VEI == 5 has it; position by position, the result holds the name of each such record, in list order |
| `VolcanoAnalyzer.ElevatedVolcanoes` | src/main/java/VolcanoAnalyzer.java:86-89 | a name is in the result iff a record with elevation >= e has it; position by position, the result holds the name of each such record, in list order |
| `VolcanoAnalyzer.ElevatedVolcanoesAntitone` | src/main/java/VolcanoAnalyzer.java:87 | a higher threshold gives a subsequence of the names, so never more names |
| `StableSort.SortDescending` | src/main/java/VolcanoAnalyzer.java:92-94 | the sort is descending by deaths and a permutation of the input, and records with equal deaths keep their input order |
| `StableSort.SortOfSorted` | src/main/java/VolcanoAnalyzer.java:92-94 | a list already in descending order of deaths comes out of the sort unchanged |
| `StableSort.SortIdempotent` | src/main/java/VolcanoAnalyzer.java:92-94 | sorting the sorted list again changes nothing |
| `StableSort.TakeOfSorted` | src/main/java/VolcanoAnalyzer.java:92-95 | the first n of the stable sort are sorted and drawn from the input; no record left out has more deaths than a kept one; for each deaths value, the kept records are the earliest ones |
| `VolcanoAnalyzer.TopRanked` | src/main/java/VolcanoAnalyzer.java:92-95 | exactly min(10, n) records, drawn from the list and in descending order of deaths; none left out outranks a kept one; among equal deaths the earliest are kept |
| `Volcanoes.AgentTokens` | src/main/java/VolcanoAnalyzer.java:95 | an empty agent gives no tokens; an agent without a comma gives itself; otherwise the pieces between commas with only the trailing empty pieces dropped (a prefix of all pieces that does not end in "") |
| `JavaText.Split` | src/main/java/VolcanoAnalyzer.java:95 | `split` with no separator gives the string alone; otherwise a prefix of the pieces that ends in a non-empty piece, and only empty pieces are dropped |
| `JavaText.DropTrailingEmpty` | src/main/java/VolcanoAnalyzer.java:95 | the result is a prefix of the input that does not end in an empty piece, and everything dropped is empty |
| `JavaText.JoinPieces` | src/main/java/VolcanoAnalyzer.java:95 | joining the pieces with the separator gives back the string |
| `JavaText.PiecesJoin` | src/main/java/VolcanoAnalyzer.java:95 | splitting a join of separator-free pieces gives back the pieces |
| `VolcanoAnalyzer.TokensOfOrder` | src/main/java/VolcanoAnalyzer.java:95-96 | the flattened tokens are the records' tokens record after record: those of record i follow directly those of the records before it, and the last record's tokens end the list |
| `VolcanoAnalyzer.RankedTokens` | src/main/java/VolcanoAnalyzer.java:95-96 | a token occurs in the flattened list iff it is a token of some ranked record; the ranked records' tokens come record after record, in split order |
| `VolcanoAnalyzer.TopAgentsOfDeath` | src/main/java/VolcanoAnalyzer.java:91-97 | no duplicates; a token is listed iff it is a token of one of the ten ranked records; tokens are ordered by their first occurrence along the ranking |
| `Streams.Filter` | src/main/java/VolcanoAnalyzer.java:39 | `filter` keeps exactly the elements satisfying the predicate, as a subsequence whose length is their count |
| `Streams.Select` | src/main/java/VolcanoAnalyzer.java:43 | `filter(p).map(f)` holds exactly the images of the elements satisfying p; position i holds the image of the i-th kept element |
| `Streams.Map` | src/main/java/VolcanoAnalyzer.java:43 | `map` keeps the length, and position i holds the image of element i |
| `Streams.Flatten` | src/main/java/VolcanoAnalyzer.java:96 | an element of the `flatMap` result is exactly an element of one of the pieces |
| `Streams.FlattenConcat` | src/main/java/VolcanoAnalyzer.java:96 | flattening distributes over concatenation |
| `Streams.FlattenOrder` | src/main/java/VolcanoAnalyzer.java:96 | piece i follows directly the flattening of the pieces before it |
| `AnalyzerExamples.RepeatedNameHighVEI` | src/main/java/VolcanoAnalyzer.java:42-45 | records named X (VEI 3), Y (VEI 7), X (VEI 7) give [Y, X] |
| `AnalyzerExamples.TsunamiQuarter` | src/main/java/VolcanoAnalyzer.java:54 | one tsunami among four records gives 25 |
| `AnalyzerExamples.TsunamiEmpty` | src/main/java/VolcanoAnalyzer.java:54 | an empty list is a division by zero |
| `AnalyzerExamples.CountryExactMatch` | src/main/java/VolcanoAnalyzer.java:65 | a "Japanese Empire" record does not count for "Japan" |
| `AnalyzerExamples.ThreeBeatTwo` | src/main/java/VolcanoAnalyzer.java:57-62 | with types [x, y, x, y, x] the most common type is x |
| `AnalyzerExamples.StratovolcanoMostCommon` | src/main/java/VolcanoAnalyzer.java:57-62 | three stratovolcanoes and two calderas give "Stratovolcano" |
| `AnalyzerExamples.HundredBeatsUnknown` | src/main/java/VolcanoAnalyzer.java:47-51 | deaths "100" beat an empty deaths field |
| `AnalyzerExamples.SplitTwoTokens` | src/main/java/VolcanoAnalyzer.java:95 | "Ash,Lava" splits into "Ash" and "Lava" |
| `AnalyzerExamples.SplitKeepsLeadingEmpty` | src/main/java/VolcanoAnalyzer.java:95 | ",Ash" splits into "" and "Ash" |
| `AnalyzerExamples.SplitKeepsInteriorEmpty` | src/main/java/VolcanoAnalyzer.java:95 | "Ash,,Lava" splits into "Ash", "" and "Lava" |
| `AnalyzerExamples.SplitDropsTrailingEmpty` | src/main/java/VolcanoAnalyzer.java:95 | "x,y,," splits into x and y, for any non-empty tokens without a comma (e.g. "Ash,Lava,,") |
| `AnalyzerExamples.SplitOnlySeparator` | src/main/java/VolcanoAnalyzer.java:95 | "," splits into nothing |
| `AnalyzerExamples.RankedAgentsOfThree` | src/main/java/VolcanoAnalyzer.java:91-97 | three records in strictly descending order of deaths, with agents "x,y", "x" and none, give [x, y] |
| `AnalyzerExamples.TopAgentsExample` | src/main/java/VolcanoAnalyzer.java:91-97 | deaths 500, 300, 100 with agents "Ash,Lava", "Ash", "" give ["Ash", "Lava"] |

## Left out

- `loadVolcanoes` (resource lookup, file reading, Jackson deserialisation) is I/O and a foreign library. The record list is an input to every query instead.
- The state of the class is not modelled. The `volcanos` field is assigned once by the loader and then only read, so each query takes the list as a parameter. A query run before loading (a `NullPointerException`) is not modelled.
- `averageElevation` is left out: it is a `double` sum and division, and floating point is not modelled.
- `percentNorth` is only modelled up to its numerator, `NorthernCount`. The final `double` division is not modelled, nor its NaN result on an empty list.
- `VolcanoAnalyzer.CausedTsunami`: the result is the whole number that Java widens to `double`; the `double` itself is not modelled.
- `Volcanoes.ValidDeaths`: `Integer.parseInt` also accepts a leading `+` or `-` sign, and decimal digits outside ASCII (any character `Character.digit` maps to a value). Such fields are excluded by the precondition, not modelled. Values beyond `Integer.MAX_VALUE` are excluded too: the source throws `NumberFormatException` on them.
- `Volcanoes.Deaths`: the function is total, but its value means nothing for a malformed field. The queries that read it require well-formed fields wherever the comparator would parse them.
- `VolcanoAnalyzer.MostCommonType`: among tied types, Java's choice depends on `HashMap` iteration order, which is not modelled. The model visits the types in first-seen order. Its contract states only that the result is a most common type, and `MaxByCountIsMostCommon` shows this holds for any visiting order.
- `StableSort.SortDescending`: the model is insertion sort, not TimSort. Only the result agrees; the sequence of comparisons may differ.
- Latitude and elevation are exact reals. The queries only compare them with 0 or with a threshold, so `double` rounding and NaN are not modelled.
- Java arrays and lists are both Dafny sequences. The 32-bit bound on list sizes is not modelled.
- Null fields, and the `NullPointerException`s they would cause, are not modelled.
