# GitHub metadata updater, modelled in Dafny

This project models the batch job of docs.rs (cratesfyi) that refreshes the
GitHub metadata stored for each crate: `src/utils/github_updater.rs`.

The job runs in four steps:

1. One SQL query selects one release per crate name. It considers crates whose
   GitHub data is missing or more than a day old, and releases whose
   repository URL looks like a GitHub URL. Of these it keeps the release that
   sorts first under `release_time DESC`: an undated one, since NULL sorts
   first, and otherwise the newest.
2. For each selected row, `get_github_path` extracts `owner/repo` from the URL.
3. `get_github_fields` fetches `https://api.github.com/repos/{path}` and reads
   five fields out of the JSON answer, with a default for each.
4. An `UPDATE` writes those fields back, with the counts narrowed to `i32`. A
   failure in any of the three per-row steps is logged and swallowed. The job
   pauses once per row.

Modules, one per concern of the source:

- `Wrappers`: `Option` and `Result`, and `UnwrapOr`.
- `GithubPath`: `get_github_path`. The regex search is written out as a
  scanner:
  - the leftmost match, with greedy owner and repository groups;
  - `.git` handling: a repository group that ends in `.git` keeps only what
    comes before the *first* `.git`, so `y.github.io.git` gives `y`.

  The scanner is proved sound and complete against a declarative statement of
  the pattern.
- `GithubFields`: the exchange with the API and the field defaulting of
  `get_github_fields`.
  - The exchange is given by its outcome.
  - The JSON body is given already parsed.
  - The RFC 3339 parser is a function parameter.
- `CrateStore`, three parts:
  - the `crates` table;
  - the `UPDATE` and its `as i32` narrowing;
  - the meaning of the selection query (the join; the anchored regex filter
    whose `.` is a wildcard; the staleness test; `DISTINCT ON (name) ... ORDER
    BY name, release_time DESC`).
- `GithubUpdater`: the job as imperative code.
  - `ProcessRow` is the body of the `for` loop, `UpdateRows` the loop, and
    `RunGithubUpdater` the function.
  - Each is proved against specification functions over the rows of a pass.
  - A trace records the visible actions in order: `Request`, `Execute` (the
    `UPDATE`) and `Sleep`.
  - Lemmas about the trace and the table state what a pass guarantees.

The outside world is a set of parameters:
- whether the query succeeds;
- for the k-th row, `envs[k]`, which holds:
  - the API response;
  - the `Utc::now()` reading;
  - the database clock for `NOW()`;
  - whether the `UPDATE` succeeds.

The filter of the query and the extractor do not accept the same URLs:
- `http://github.com` is selected, yet yields no path.
- `https://githubXcom/o/r` is selected, because the `.` before `com` matches
  any character.
- `git+https://github.com/o/r` yields a path, yet is never selected, because
  the filter is anchored at the start.

The lemmas `FilterPassesBareHost`, `FilterDotIsWildcard` and
`FilterAnchoredExtractorNot` exhibit these three URLs. `BareHostRowOnlyPauses`
shows what the job does with the first one: it only pauses.

The `~` operator of the query is case-sensitive, and the model keeps it so:
`HTTPS://github.com/o/r` is not selected.

## Model

| member | source | states |
|---|---|---|
| Wrappers.UnwrapOr | src/utils/github_updater.rs:114-119 | `unwrap_or` gives the carried value, or the default when there is none |
| GithubPath.FindCaptureLeftmostGreedy | src/utils/github_updater.rs:131-135 | a capture found by the scanner is a match of the pattern. No match starts earlier. Among matches at that start, the owner is the same and every repository group is a prefix of the captured one (greedy groups) |
| GithubPath.GetGithubPathNoneIff | src/utils/github_updater.rs:130-147 | the extractor returns `None` exactly when no position of the URL starts `http(s)://github.com/O/R` with O and R non-empty runs of `[A-Za-z0-9_.-]` |
| GithubPath.GetGithubPathSome | src/utils/github_updater.rs:132-143 | a result is `owner + "/" + StripGit(repo)` of the leftmost match. The owner is non-empty and contains no `/` |
| GithubPath.GetGithubPathWhole | src/utils/github_updater.rs:130-143 | a URL that is exactly host, owner, `/`, repository gives `owner/StripGit(repo)` |
| GithubPath.BeforeFirst | src/utils/github_updater.rs:138 | `split(sep).next()`: a prefix of the string, in which `sep` occurs nowhere, ending where `sep` first occurs or at the end |
| GithubPath.StripGitKeeps | src/utils/github_updater.rs:137-141 | a repository group that does not end in `.git` is returned unchanged |
| GithubPath.StripGitFirstPiece | src/utils/github_updater.rs:137-141 | a group ending in `.git` is cut at the first `.git`. The result is a prefix without any `.git` in it, at least four characters shorter |
| GithubPath.StripGitCratesfyi | src/utils/github_updater.rs:137-138 | `cratesfyi.git` becomes `cratesfyi` |
| GithubPath.StripGitGithubIo | src/utils/github_updater.rs:137-138 | `y.github.io.git` becomes `y`, since the first `.git` is inside `.github` |
| GithubPath.ExampleHttps | src/utils/github_updater.rs:156-159 | `https://github.com/onur/cratesfyi` gives `onur/cratesfyi` |
| GithubPath.ExampleHttp | src/utils/github_updater.rs:160-163 | `http://github.com/onur/cratesfyi` gives `onur/cratesfyi` |
| GithubPath.ExampleGitSuffix | src/utils/github_updater.rs:164-167 | `https://github.com/onur/cratesfyi.git` gives `onur/cratesfyi` |
| GithubPath.ExampleNameCharacters | src/utils/github_updater.rs:168-171 | digits, capitals, `_` and `-` are kept: `onur23cmD_M_R_L_/crates_fy-i` |
| GithubPath.ExampleDotInRepo | src/utils/github_updater.rs:172-175 | `docopt/docopt.rs` keeps its `.rs` |
| GithubPath.ExampleEarlierGit | src/utils/github_updater.rs:137-143 | `https://github.com/y/y.github.io.git` gives `y/y` |
| GithubFields.ToUtc | src/utils/github_updater.rs:125 | `with_timezone(&Utc)`: the UTC instant plus the offset is the local reading |
| GithubFields.ToUtcSameInstant | src/utils/github_updater.rs:125 | readings of one instant in any offset convert to that instant |
| GithubFields.AsStr | src/utils/github_updater.rs:113 | `as_str` succeeds exactly on strings and returns the string |
| GithubFields.AsI64 | src/utils/github_updater.rs:118-121 | `as_i64` succeeds exactly on integers within the i64 range, and returns them |
| GithubFields.Get | src/utils/github_updater.rs:112 | `obj.get(key)` is defined exactly for keys of the object and returns their value |
| GithubFields.FromObject | src/utils/github_updater.rs:110-127 | the three counts are always within the i64 range |
| GithubFields.FromObjectCopiesOrDefaults | src/utils/github_updater.rs:110-121 | description and counts are copied when present with the right type. Otherwise they are `""` and `0` |
| GithubFields.FromObjectLastCommit | src/utils/github_updater.rs:122-126 | a `pushed_at` string the parser accepts becomes its UTC instant. Otherwise it is `now`, for a parser that rejects `""`: absent and non-string values reach the parser as `""` |
| GithubFields.FromObjectIgnoresOtherKeys | src/utils/github_updater.rs:110-127 | keys other than the five named ones do not affect the result |
| GithubFields.FromObjectExample | src/utils/github_updater.rs:110-127 | `{"description":"x","stargazers_count":5}` gives `("x", 5, 0, 0, now)`, for a parser that rejects `""` |
| GithubFields.ApiUrl | src/utils/github_updater.rs:86 | the request address is `https://api.github.com/repos/` followed by the path |
| GithubFields.GetGithubFields | src/utils/github_updater.rs:97-110 | success exactly for status 200 with a readable, parseable body, and then the fields come from `FromObject`. A failed send, another status, a failed read and malformed JSON each give their own error |
| GithubFields.GetGithubFieldsNeverFailsOnFields | src/utils/github_updater.rs:107-127 | a 200 answer with an object body never fails, whatever fields it has or lacks |
| CrateStore.AsI32 | src/utils/github_updater.rs:53-55 | `as i32` gives a value in the i32 range, congruent to the input modulo 2^32, and equal to the input when it fits |
| CrateStore.AsI32Unique | src/utils/github_updater.rs:53-55 | `as i32` is the only i32 value congruent to the input modulo 2^32 (the low 32 bits, read as signed) |
| CrateStore.AsI32Examples | src/utils/github_updater.rs:53-55 | 2^31 becomes -2^31, 2^32+5 becomes 5, and -1 stays -1 |
| CrateStore.WriteBack | src/utils/github_updater.rs:45-58 | the `UPDATE`'s bindings: the description and last commit are copied. The counts are narrowed as by `AsI32`. The last update is the database clock |
| CrateStore.ApplyUpdate | src/utils/github_updater.rs:44-50 | the `UPDATE` keeps the number of rows |
| CrateStore.ApplyUpdateRows | src/utils/github_updater.rs:44-50 | `WHERE id = $6`: rows with that id get the new columns. All other rows are unchanged, and ids and names never change |
| CrateStore.ApplyUpdateLastWins | src/utils/github_updater.rs:44-50 | of two UPDATEs of the same crate, the second one decides the row |
| CrateStore.ApplyUpdateIdempotent | src/utils/github_updater.rs:44-50 | repeating the same UPDATE changes nothing |
| CrateStore.WriteBackSameContent | src/utils/github_updater.rs:44-58 | writing the same fields at two clock readings gives rows that differ only in the last-update column |
| CrateStore.JoinCrateMembers | src/utils/github_updater.rs:28-32 | the join for one crate holds exactly its qualifying releases |
| CrateStore.JoinMembers | src/utils/github_updater.rs:28-32 | the join holds exactly the qualifying pairs: a matching crate id, a non-NULL URL accepted by the filter, and a stale crate |
| CrateStore.NameLessIrreflexive | src/utils/github_updater.rs:33 | the name order is strict |
| CrateStore.NameLessTransitive | src/utils/github_updater.rs:33 | the name order is transitive |
| CrateStore.NameLessTotal | src/utils/github_updater.rs:33 | any two distinct names are ordered |
| CrateStore.Insert | src/utils/github_updater.rs:24-33 | inserting a row gives a non-empty result, headed by the new row or by the previous head |
| CrateStore.DistinctOnSpec | src/utils/github_updater.rs:24-33 | `DISTINCT ON (name)`: sorted strictly by name, the same set of names as the input, and no row of its name sorts before the kept one under `release_time DESC`, where NULL sorts first |
| CrateStore.SelectSpec | src/utils/github_updater.rs:23-35 | the query's rows come from qualifying pairs, in name order. Each holds a qualifying release of its crate name that no other sorts before under `release_time DESC` (NULL first, then the newest), and every crate with a qualifying release is represented |
| CrateStore.SortsBeforeStrictTotal | src/utils/github_updater.rs:33 | `release_time DESC` is a strict order, total up to equal times, with NULL before any time and later times before earlier ones |
| CrateStore.JoinTwoReleases | src/utils/github_updater.rs:28-32 | a crate joined with two qualifying releases gives both join rows, in the order of `releases` |
| CrateStore.DistinctOnNullFirst | src/utils/github_updater.rs:24-33 | of a dated and an undated row of one name, `DISTINCT ON` keeps the undated one |
| CrateStore.NullReleaseTimeSelected | src/utils/github_updater.rs:24-33 | of a dated and an undated qualifying release of one crate, the query returns the undated one |
| CrateStore.SortedNamesDistinct | src/utils/github_updater.rs:24 | the query returns at most one row per crate name |
| CrateStore.FilterPassesBareHost | src/utils/github_updater.rs:30 | `http://github.com` passes the filter but yields no path |
| CrateStore.FilterDotIsWildcard | src/utils/github_updater.rs:30 | `https://githubXcom/o/r` passes the filter, because its `.` is unescaped, and yields no path |
| CrateStore.FilterAnchoredExtractorNot | src/utils/github_updater.rs:30 | `git+https://github.com/o/r` fails the anchored filter, and the unanchored extractor finds a path in it |
| GithubUpdater.AttemptOf | src/utils/github_updater.rs:40-58 | the extraction, fetch and bindings of one row. There is no path exactly when `get_github_path` gives `None`. Otherwise the fetch outcome is `get_github_fields`'s, and success carries the `WriteBack` columns |
| GithubUpdater.Runs | src/utils/github_updater.rs:23-38 | one run per query row, in order, each made of that row and its own answers |
| GithubUpdater.ProcessRow | src/utils/github_updater.rs:36-69 | the loop body: its outcome, appended effects and new table are the per-row specification of that row |
| GithubUpdater.UpdateRows | src/utils/github_updater.rs:23-70 | the loop: its outcomes, trace and table are those of the pass over all rows, in query order |
| GithubUpdater.RunGithubUpdater | src/utils/github_updater.rs:20-73 | a failed query is returned as an error, with nothing done. Otherwise every selected row is processed and the result is `Ok(())` |
| GithubUpdater.RowShape | src/utils/github_updater.rs:40-69 | a row's effects are one of three shapes: pause only when there is no path; request and pause when the fetch fails; request, UPDATE with the fetched fields, and pause otherwise. There is exactly one pause, last, and the outcome agrees |
| GithubUpdater.RowCounts | src/utils/github_updater.rs:40-61 | a row requests its address exactly when it has a path, and issues its UPDATE exactly when the fetch succeeded |
| GithubUpdater.RowTableChange | src/utils/github_updater.rs:40-61 | a row changes the table only when its outcome is `Updated`, and then by the UPDATE its trace records |
| GithubUpdater.PassSleeps | src/utils/github_updater.rs:23-70 | a pass pauses exactly once per row |
| GithubUpdater.PassOutcomesAt | src/utils/github_updater.rs:23-64 | a pass has one outcome per row, in row order, each the outcome of that row alone |
| GithubUpdater.PassRequests | src/utils/github_updater.rs:40-42 | the requests of a pass are one per row that has a path, in row order. No fetch happens without a path |
| GithubUpdater.PassExecutes | src/utils/github_updater.rs:42-61 | the UPDATEs of a pass are one per row whose fetch succeeded, in row order. There is none after a failed fetch |
| GithubUpdater.PassEffectsAppend | src/utils/github_updater.rs:23-70 | the trace of a pass is the trace of its first rows followed by that of the rest |
| GithubUpdater.PassTableAppend | src/utils/github_updater.rs:23-70 | the table after a pass is the rest of the rows applied to the table the first rows left |
| GithubUpdater.PassSplit | src/utils/github_updater.rs:40-70 | whatever became of row k, the rows after it run as they would alone, on the table row k left |
| GithubUpdater.FailedRowContinues | src/utils/github_updater.rs:40-70 | a row that is not updated leaves the table as it was, ends with its pause, and does not stop the rows after it |
| GithubUpdater.RowWithoutPath | src/utils/github_updater.rs:40-69 | a row without a path contributes its pause and nothing else |
| GithubUpdater.PassTableFrame | src/utils/github_updater.rs:44-50 | a pass never changes ids or names. A crate not updated in the pass keeps its row |
| GithubUpdater.ThreeRowsMiddleWithoutPath | src/utils/github_updater.rs:40-69 | of three rows whose middle one has no path, the first and third are requested in that order, the middle one only pauses, and there are three pauses |
| GithubUpdater.BareHostRowOnlyPauses | src/utils/github_updater.rs:30-41 | a selected `http://github.com` row only pauses |

## Left out

- FromObjectLastCommit: the default `now` for an absent or non-string `pushed_at` is proved only for parsers that reject the empty string. RFC 3339 admits no empty date-time, but the parser is a parameter here.
- FromObjectExample: like `FromObjectLastCommit`, it assumes `RejectsEmpty(parse)`, a parser that rejects the empty string, for the same reason.
- The HTTP exchange is represented by its outcome, a `Response`: status and body. Not modelled are the client, the `User-Agent` header, basic authentication from `CRATESFYI_GITHUB_USERNAME`/`CRATESFYI_GITHUB_ACCESSTOKEN`, and reading the body (lines 79-105). All of these are network I/O.
- JSON text parsing (line 107) is foreign library code. The body is given as a parsed `Json` value, or as `Malformed`.
- The internals of RFC 3339 parsing (line 122) are foreign library code. The parser is the parameter `parse`.
- The panic of `as_object().unwrap()` on a non-object body (line 108) is not modelled. The precondition `ObjectOnSuccess` excludes that input.
- Unicode `\w` in the pattern (line 131) is approximated by ASCII letters, digits and `_`.
- JSON numbers that are floats are modelled as values that are not `i64`. Floating-point arithmetic plays no part.
- The database is modelled only by its meaning: the table is a sequence of rows, `NOW()` is a clock parameter, and the query and the `UPDATE` are functions. Connections and SQL execution are not modelled.
- The pause duration (two seconds, line 69) is not modelled. Pauses are counted in the trace instead.
- Wall-clock time is not modelled. `Utc::now()` is a per-row parameter.
- IsStale: `INTERVAL '1 day'` (line 31) is a fixed 86,400 seconds on one UTC time line. The model does not capture a calendar day in the session time zone, which is 23 or 25 hours across a daylight-saving change, or the time-zone conversion before the comparison.
- The debug log line (line 63) is not modelled, because it has no effect on state. Each row's outcome is returned instead, and it carries the logged error kind.
- Concurrency and interleaving with other writers of `crates` are not modelled: one environment answers per row, and nothing else changes the table during a pass.
- Name ordering is code-point lexicographic, which is C collation. Other collations are not modelled.
- Among releases of one crate with equal release times, the model keeps the one listed first. Postgres leaves that choice unspecified.
- The `?` on the query's row iteration is modelled as one failure of the whole query. A failure part-way through the rows is not modelled.
- Row decoding (lines 36-38) is not modelled. The crate id is an unbounded integer. A NULL repository URL is modelled: it never passes the filter, so the decoding of column 2 as a `String` never sees one.
