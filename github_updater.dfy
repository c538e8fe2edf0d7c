/**
 * The batch job `github_updater`: it runs the selection query once, then for
 * each returned row extracts the GitHub path, fetches the repository's
 * metadata, writes it back, and pauses for the rate limit; a failure on one
 * row is logged and never stops the rows after it.
 *
 * What the outside world answers is given to the job instead of asked for:
 * whether the query succeeds, and for the k-th row the response of the API
 * request, the clock readings, and whether the UPDATE succeeds (`envs[k]`).
 * The job's visible actions are recorded, in order, in a trace of effects.
 */
module GithubUpdater {
  import opened Wrappers
  import opened GithubFields
  import opened CrateStore
  import GithubPath

  /** A visible action of the job. */
  datatype Effect =
    | Request(url: string)                        // the API request for one repository
    | Execute(id: int, columns: GithubColumns)    // the UPDATE of one crate
    | Sleep                                       // the pause for the rate limit

  /** How a row ended; every outcome but `Updated` is only logged. */
  datatype RowOutcome =
    | Updated
    | NoGithubPath
    | FetchFailed(error: FetchError)
    | PersistFailed

  /**
   * What the world answers while a row is processed: the response to the
   * API request, the `Utc::now()` reading the fetcher would take, the
   * database clock for NOW(), and whether the UPDATE succeeds.
   */
  datatype RowEnv = RowEnv(response: Response, now: Instant, dbNow: Instant, persistOk: bool)

  /** The error `?` propagates when the selection query fails. */
  datatype DbError = QueryError

  /** Each response that succeeds carries a JSON object (see `ObjectOnSuccess`). */
  predicate EnvsAdmissible(envs: seq<RowEnv>) {
    forall k :: 0 <= k < |envs| ==> ObjectOnSuccess(envs[k].response)
  }

  // ---------------------------------------------------------------------------
  // The specification of one row and of the whole pass

  /**
   * How far the fetch got for a row: no path in its URL, or the path and
   * either the columns the fetched fields give for the UPDATE or the error
   * `get_github_fields` returned.
   */
  datatype Attempt = NoPath | Fetched(path: string, result: Result<GithubColumns, FetchError>)

  /** A row of the query together with what became of its fetch and whether its UPDATE succeeds. */
  datatype RowRun = RowRun(row: Candidate, attempt: Attempt, persistOk: bool)

  /** The extraction, the fetch and the bindings of the UPDATE for one row: the `and_then` chain up to `execute`. */
  function AttemptOf(row: Candidate, env: RowEnv, parse: string -> Option<DateTime>): (a: Attempt)
    requires ObjectOnSuccess(env.response)
    ensures a.NoPath? <==> GithubPath.GetGithubPath(row.repositoryUrl).None?
    ensures var f := GetGithubFields(env.response, env.now, parse);
      a.Fetched? ==>
      a.path == GithubPath.GetGithubPath(row.repositoryUrl).value &&
      (a.result.Success? <==> f.Success?) &&
      (f.Success? ==> a.result.value == WriteBack(f.value, env.dbNow)) &&
      (f.Failure? ==> a.result.error == f.error)
  {
    match GithubPath.GetGithubPath(row.repositoryUrl)
    case None => NoPath
    case Some(path) =>
      match GetGithubFields(env.response, env.now, parse)
      case Failure(e) => Fetched(path, Failure(e))
      case Success(fields) => Fetched(path, Success(WriteBack(fields, env.dbNow)))
  }

  /** What becomes of `row` when the world answers `env`. */
  function RunOf(row: Candidate, env: RowEnv, parse: string -> Option<DateTime>): (run: RowRun)
    requires ObjectOnSuccess(env.response)
  {
    RowRun(row, AttemptOf(row, env, parse), env.persistOk)
  }

  /** The runs of a pass: each query row with its own answers. */
  function Runs(rows: seq<Candidate>, envs: seq<RowEnv>, parse: string -> Option<DateTime>): (runs: seq<RowRun>)
    requires |envs| == |rows| && EnvsAdmissible(envs)
    ensures |runs| == |rows|
    ensures forall k :: 0 <= k < |rows| ==> runs[k] == RunOf(rows[k], envs[k], parse)
  {
    seq(|rows|, k requires 0 <= k < |rows| => RunOf(rows[k], envs[k], parse))
  }

  /** How the row ended. */
  function Outcome(run: RowRun): (o: RowOutcome) {
    match run.attempt
    case NoPath => NoGithubPath
    case Fetched(_, Failure(e)) => FetchFailed(e)
    case Fetched(_, Success(_)) => if run.persistOk then Updated else PersistFailed
  }

  /** The effects of one row: the request, if there is a path; the UPDATE, if the fetch succeeded; the pause, always. */
  function RowEffects(run: RowRun): (es: seq<Effect>) {
    match run.attempt
    case NoPath => [Sleep]
    case Fetched(path, Failure(_)) => [Request(ApiUrl(path)), Sleep]
    case Fetched(path, Success(cols)) => [Request(ApiUrl(path)), Execute(run.row.id, cols), Sleep]
  }

  /** The table after one row: the UPDATE's effect when it succeeded, else unchanged. */
  function RowTable(table: seq<CrateRow>, run: RowRun): (t: seq<CrateRow>) {
    match run.attempt
    case Fetched(_, Success(cols)) =>
      if run.persistOk then ApplyUpdate(table, run.row.id, cols) else table
    case _ => table
  }

  /** The trace of a pass, row after row. */
  function PassEffects(runs: seq<RowRun>): (es: seq<Effect>)
    decreases |runs|
  {
    if runs == [] then []
    else PassEffects(runs[..|runs| - 1]) + RowEffects(runs[|runs| - 1])
  }

  /** The outcomes of a pass, row after row. */
  function PassOutcomes(runs: seq<RowRun>): (os: seq<RowOutcome>)
    decreases |runs|
  {
    if runs == [] then []
    else PassOutcomes(runs[..|runs| - 1]) + [Outcome(runs[|runs| - 1])]
  }

  /** The table after a pass. */
  function PassTable(table: seq<CrateRow>, runs: seq<RowRun>): (t: seq<CrateRow>)
    decreases |runs|
  {
    if runs == [] then table
    else RowTable(PassTable(table, runs[..|runs| - 1]), runs[|runs| - 1])
  }

  // ---------------------------------------------------------------------------
  // The job

  /**
   * The body of the loop for one row: the `and_then` chain of path
   * extraction, fetch and UPDATE, then the pause. Its effects are appended
   * to `trace` as they happen.
   */
  method ProcessRow(row: Candidate, env: RowEnv, parse: string -> Option<DateTime>, table0: seq<CrateRow>, trace0: seq<Effect>)
    returns (outcome: RowOutcome, table: seq<CrateRow>, trace: seq<Effect>)
    requires ObjectOnSuccess(env.response)
    ensures var run := RunOf(row, env, parse);
      outcome == Outcome(run) && trace == trace0 + RowEffects(run) && table == RowTable(table0, run)
  {
    table := table0;
    trace := trace0;
    var path := GithubPath.GetGithubPath(row.repositoryUrl);
    if path.None? {
      outcome := NoGithubPath;
    } else {
      trace := trace + [Request(ApiUrl(path.value))];
      var fetched := GetGithubFields(env.response, env.now, parse);
      if fetched.Failure? {
        outcome := FetchFailed(fetched.error);
      } else {
        var cols := WriteBack(fetched.value, env.dbNow);
        trace := trace + [Execute(row.id, cols)];
        if env.persistOk {
          table := ApplyUpdate(table, row.id, cols);
          outcome := Updated;
        } else {
          outcome := PersistFailed;
        }
      }
    }
    // the pause for the rate limit comes whatever became of the row
    trace := trace + [Sleep];
  }

  /**
   * The `for` loop of `github_updater` over the rows the query returned:
   * each row in turn, in order, whatever became of the rows before it.
   */
  method UpdateRows(rows: seq<Candidate>, envs: seq<RowEnv>, parse: string -> Option<DateTime>, table0: seq<CrateRow>)
    returns (table: seq<CrateRow>, outcomes: seq<RowOutcome>, trace: seq<Effect>)
    requires |envs| == |rows| && EnvsAdmissible(envs)
    ensures var runs := Runs(rows, envs, parse);
      outcomes == PassOutcomes(runs) && trace == PassEffects(runs) && table == PassTable(table0, runs)
  {
    table := table0;
    outcomes := [];
    trace := [];
    ghost var runs := Runs(rows, envs, parse);
    var i := 0;
    while i < |rows|
      invariant 0 <= i <= |rows|
      invariant outcomes == PassOutcomes(runs[..i])
      invariant trace == PassEffects(runs[..i])
      invariant table == PassTable(table0, runs[..i])
    {
      assert runs[i] == RunOf(rows[i], envs[i], parse);
      var outcome;
      outcome, table, trace := ProcessRow(rows[i], envs[i], parse, table, trace);
      PassStep(table0, runs, i);
      outcomes := outcomes + [outcome];
      i := i + 1;
    }
    assert runs[..i] == runs;
  }

  /**
   * `github_updater`. The query reads `crates` (with `releases`) at the
   * database clock `queryClock`; if it fails, its error is returned and
   * nothing else happens. Otherwise every selected row is processed, in the
   * query's order, and the result is `Ok(())` whatever happened to the rows.
   */
  method RunGithubUpdater(crates: seq<CrateRow>, releases: seq<ReleaseRow>, queryClock: Instant, queryOk: bool,
                          envs: seq<RowEnv>, parse: string -> Option<DateTime>)
    returns (res: Result<(), DbError>, table: seq<CrateRow>, outcomes: seq<RowOutcome>, trace: seq<Effect>)
    requires queryOk ==> |envs| == |Select(crates, releases, queryClock)|
    requires EnvsAdmissible(envs)
    ensures !queryOk ==> res == Failure(QueryError) && table == crates && outcomes == [] && trace == []
    ensures queryOk ==>
      var runs := Runs(Select(crates, releases, queryClock), envs, parse);
      res == Success(()) && outcomes == PassOutcomes(runs) && trace == PassEffects(runs) && table == PassTable(crates, runs)
  {
    if !queryOk {
      return Failure(QueryError), crates, [], [];
    }
    var rows := Select(crates, releases, queryClock);
    table, outcomes, trace := UpdateRows(rows, envs, parse, crates);
    res := Success(());
  }

  // ---------------------------------------------------------------------------
  // Properties of a pass

  /** The number of pauses in a trace. */
  function Sleeps(t: seq<Effect>): (n: nat) {
    multiset(t)[Sleep]
  }

  /** The addresses requested, in order. */
  function Requests(t: seq<Effect>): (us: seq<string>)
    ensures |us| <= |t|
  {
    if t == [] then []
    else (if t[0].Request? then [t[0].url] else []) + Requests(t[1..])
  }

  /** The crates updated, in order. */
  function Executes(t: seq<Effect>): (ids: seq<int>)
    ensures |ids| <= |t|
  {
    if t == [] then []
    else (if t[0].Execute? then [t[0].id] else []) + Executes(t[1..])
  }

  lemma {:induction false} RequestsAppend(a: seq<Effect>, b: seq<Effect>)
    ensures Requests(a + b) == Requests(a) + Requests(b)
    decreases |a|
  {
    if a != [] {
      var h := if a[0].Request? then [a[0].url] else [];
      assert (a + b)[0] == a[0] && (a + b)[1..] == a[1..] + b;
      RequestsAppend(a[1..], b);
      assert Requests(a + b) == h + Requests(a[1..] + b);
      assert Requests(a) == h + Requests(a[1..]);
      assert h + (Requests(a[1..]) + Requests(b)) == (h + Requests(a[1..])) + Requests(b);
    } else {
      assert a + b == b;
    }
  }

  lemma {:induction false} ExecutesAppend(a: seq<Effect>, b: seq<Effect>)
    ensures Executes(a + b) == Executes(a) + Executes(b)
    decreases |a|
  {
    if a != [] {
      var h := if a[0].Execute? then [a[0].id] else [];
      assert (a + b)[0] == a[0] && (a + b)[1..] == a[1..] + b;
      ExecutesAppend(a[1..], b);
      assert Executes(a + b) == h + Executes(a[1..] + b);
      assert Executes(a) == h + Executes(a[1..]);
      assert h + (Executes(a[1..]) + Executes(b)) == (h + Executes(a[1..])) + Executes(b);
    } else {
      assert a + b == b;
    }
  }

  /** A reference list of the addresses a pass must request: one per row whose URL yields a path, in row order. */
  function ExpectedRequests(runs: seq<RowRun>): (paths: seq<string>)
    decreases |runs|
  {
    if runs == [] then []
    else
      var a := runs[|runs| - 1].attempt;
      ExpectedRequests(runs[..|runs| - 1]) + (if a.Fetched? then [ApiUrl(a.path)] else [])
  }

  /** One more row adds its address, if it has a path, at the end of the reference list. */
  lemma {:induction false} ExpectedRequestsSnoc(runs: seq<RowRun>, run: RowRun)
    ensures ExpectedRequests(runs + [run]) ==
      ExpectedRequests(runs) + (if run.attempt.Fetched? then [ApiUrl(run.attempt.path)] else [])
  {
    var rs := runs + [run];
    assert rs[..|rs| - 1] == runs;
    assert rs[|rs| - 1] == run;
  }

  /** A reference list of the crates a pass must try to update: the rows whose fetch succeeded, in row order. */
  function ExpectedExecutes(runs: seq<RowRun>): (ids: seq<int>)
    decreases |runs|
  {
    if runs == [] then []
    else
      var r := runs[|runs| - 1];
      ExpectedExecutes(runs[..|runs| - 1]) + (if r.attempt.Fetched? && r.attempt.result.Success? then [r.row.id] else [])
  }

  /** The requests and UPDATEs in each of the three shapes a row's effects take. */
  lemma ShapeCounts(u: string, id: int, cols: GithubColumns)
    ensures Requests([Sleep]) == [] && Executes([Sleep]) == []
    ensures Requests([Request(u), Sleep]) == [u] && Executes([Request(u), Sleep]) == []
    ensures Requests([Request(u), Execute(id, cols), Sleep]) == [u] && Executes([Request(u), Execute(id, cols), Sleep]) == [id]
  {
    assert [Sleep][1..] == [];
    assert [Request(u), Sleep][1..] == [Sleep];
    assert [Execute(id, cols), Sleep][1..] == [Sleep];
    assert [Request(u), Execute(id, cols), Sleep][1..] == [Execute(id, cols), Sleep];
  }

  /** A row requests its path's address exactly when it has a path, and updates exactly when the fetch succeeded. */
  lemma RowCounts(run: RowRun)
    ensures Requests(RowEffects(run)) == (if run.attempt.Fetched? then [ApiUrl(run.attempt.path)] else [])
    ensures Executes(RowEffects(run)) ==
      (if run.attempt.Fetched? && run.attempt.result.Success? then [run.row.id] else [])
  {
    match run.attempt
    case NoPath => ShapeCounts("", 0, GithubColumns("", 0, 0, 0, 0, 0));
    case Fetched(path, Failure(_)) => ShapeCounts(ApiUrl(path), 0, GithubColumns("", 0, 0, 0, 0, 0));
    case Fetched(path, Success(cols)) => ShapeCounts(ApiUrl(path), run.row.id, cols);
  }

  /**
   * The effects of a row of the query take exactly one of three shapes: a
   * pause alone when its URL yields no path; the request and the pause when
   * the fetch fails; the request, the UPDATE with the fetched fields and the
   * pause otherwise. The outcome agrees, and the pause is always last.
   */
  lemma RowShape(row: Candidate, env: RowEnv, parse: string -> Option<DateTime>)
    requires ObjectOnSuccess(env.response)
    ensures var p := GithubPath.GetGithubPath(row.repositoryUrl);
      var f := GetGithubFields(env.response, env.now, parse);
      var run := RunOf(row, env, parse);
      var es := RowEffects(run);
      var o := Outcome(run);
      (es == [Sleep] <==> p.None?) &&
      (|es| == 2 <==> p.Some? && f.Failure?) &&
      (|es| == 3 <==> p.Some? && f.Success?) &&
      (p.Some? ==> es[0] == Request(ApiUrl(p.value))) &&
      (p.Some? && f.Success? ==> es[1] == Execute(row.id, WriteBack(f.value, env.dbNow))) &&
      es[|es| - 1] == Sleep && multiset(es)[Sleep] == 1 &&
      (o == NoGithubPath <==> p.None?) &&
      (o.FetchFailed? <==> p.Some? && f.Failure?) &&
      (o.FetchFailed? ==> f == Failure(o.error)) &&
      (o == Updated <==> p.Some? && f.Success? && env.persistOk) &&
      (o == PersistFailed <==> p.Some? && f.Success? && !env.persistOk)
  {
  }

  /** The table changes only by an UPDATE the trace records, and only when that UPDATE succeeded. */
  lemma {:induction false} RowTableChange(table: seq<CrateRow>, run: RowRun)
    ensures Outcome(run) != Updated ==> RowTable(table, run) == table
    ensures Outcome(run) == Updated ==>
      RowEffects(run)[1].Execute? && RowTable(table, run) == ApplyUpdate(table, run.row.id, RowEffects(run)[1].columns)
  {
  }

  /** Every row is worked through: one pause per row, whatever became of the rows before it. */
  lemma {:induction false} PassSleeps(runs: seq<RowRun>)
    ensures Sleeps(PassEffects(runs)) == |runs|
    decreases |runs|
  {
    if runs != [] {
      PassSleeps(runs[..|runs| - 1]);
    }
  }

  /** A pass requests exactly the rows that have a path, each once, in row order: no fetch without a path. */
  lemma {:induction false} PassRequests(runs: seq<RowRun>)
    ensures Requests(PassEffects(runs)) == ExpectedRequests(runs)
    decreases |runs|
  {
    if runs != [] {
      var n := |runs| - 1;
      PassRequests(runs[..n]);
      RowCounts(runs[n]);
      RequestsAppend(PassEffects(runs[..n]), RowEffects(runs[n]));
    }
  }

  /** A pass issues an UPDATE exactly for the rows whose fetch succeeded: none after a failed fetch. */
  lemma {:induction false} PassExecutes(runs: seq<RowRun>)
    ensures Executes(PassEffects(runs)) == ExpectedExecutes(runs)
    decreases |runs|
  {
    if runs != [] {
      var n := |runs| - 1;
      PassExecutes(runs[..n]);
      RowCounts(runs[n]);
      ExecutesAppend(PassEffects(runs[..n]), RowEffects(runs[n]));
    }
  }

  /** One more row adds its effects at the end of the trace. */
  lemma {:induction false} PassEffectsSnoc(runs: seq<RowRun>, run: RowRun)
    ensures PassEffects(runs + [run]) == PassEffects(runs) + RowEffects(run)
  {
    var rs := runs + [run];
    assert rs[..|rs| - 1] == runs;
    assert rs[|rs| - 1] == run;
  }

  /** One more row changes the table as that row alone does. */
  lemma {:induction false} PassTableSnoc(table: seq<CrateRow>, runs: seq<RowRun>, run: RowRun)
    ensures PassTable(table, runs + [run]) == RowTable(PassTable(table, runs), run)
  {
    var rs := runs + [run];
    assert rs[..|rs| - 1] == runs;
    assert rs[|rs| - 1] == run;
  }

  /** The pass over the first `i + 1` rows is the pass over the first `i` followed by row `i`. */
  lemma {:induction false} PassStep(table: seq<CrateRow>, runs: seq<RowRun>, i: int)
    requires 0 <= i < |runs|
    ensures PassEffects(runs[..i + 1]) == PassEffects(runs[..i]) + RowEffects(runs[i])
    ensures PassTable(table, runs[..i + 1]) == RowTable(PassTable(table, runs[..i]), runs[i])
    ensures PassOutcomes(runs[..i + 1]) == PassOutcomes(runs[..i]) + [Outcome(runs[i])]
  {
    var rs := runs[..i + 1];
    assert rs[..|rs| - 1] == runs[..i];
    assert rs[|rs| - 1] == runs[i];
  }

  /** A pass has one outcome per row, the outcome of that row alone. */
  lemma {:induction false} PassOutcomesAt(runs: seq<RowRun>)
    ensures |PassOutcomes(runs)| == |runs|
    ensures forall k :: 0 <= k < |runs| ==> PassOutcomes(runs)[k] == Outcome(runs[k])
    decreases |runs|
  {
    if runs != [] {
      PassOutcomesAt(runs[..|runs| - 1]);
    }
  }

  /** The trace of a pass is the trace of its first rows followed by the trace of the rest. */
  lemma {:induction false} PassEffectsAppend(r1: seq<RowRun>, r2: seq<RowRun>)
    ensures PassEffects(r1 + r2) == PassEffects(r1) + PassEffects(r2)
    decreases |r2|
  {
    if r2 == [] {
      assert r1 + r2 == r1;
    } else {
      var n := |r2| - 1;
      calc {
        PassEffects(r1 + r2);
        { assert r1 + r2 == (r1 + r2[..n]) + [r2[n]];
          PassEffectsSnoc(r1 + r2[..n], r2[n]); }
        PassEffects(r1 + r2[..n]) + RowEffects(r2[n]);
        { PassEffectsAppend(r1, r2[..n]); }
        PassEffects(r1) + PassEffects(r2[..n]) + RowEffects(r2[n]);
        { assert r2 == r2[..n] + [r2[n]];
          PassEffectsSnoc(r2[..n], r2[n]); }
        PassEffects(r1) + PassEffects(r2);
      }
    }
  }

  /** The table after a pass is the table after its first rows, carried on by the rest. */
  lemma {:induction false} PassTableAppend(table: seq<CrateRow>, r1: seq<RowRun>, r2: seq<RowRun>)
    ensures PassTable(table, r1 + r2) == PassTable(PassTable(table, r1), r2)
    decreases |r2|
  {
    if r2 == [] {
      assert r1 + r2 == r1;
    } else {
      var n := |r2| - 1;
      calc {
        PassTable(table, r1 + r2);
        { assert r1 + r2 == (r1 + r2[..n]) + [r2[n]];
          PassTableSnoc(table, r1 + r2[..n], r2[n]); }
        RowTable(PassTable(table, r1 + r2[..n]), r2[n]);
        { PassTableAppend(table, r1, r2[..n]); }
        RowTable(PassTable(PassTable(table, r1), r2[..n]), r2[n]);
        { assert r2 == r2[..n] + [r2[n]];
          PassTableSnoc(PassTable(table, r1), r2[..n], r2[n]); }
        PassTable(PassTable(table, r1), r2);
      }
    }
  }

  /**
   * Whatever became of row `k`, the rows after it run as they would alone,
   * on the table row `k` left: its effects sit between those of the rows
   * before and after it.
   */
  lemma {:induction false} PassSplit(table: seq<CrateRow>, runs: seq<RowRun>, k: int)
    requires 0 <= k < |runs|
    ensures PassEffects(runs) == PassEffects(runs[..k]) + RowEffects(runs[k]) + PassEffects(runs[k + 1..])
    ensures PassTable(table, runs) == PassTable(RowTable(PassTable(table, runs[..k]), runs[k]), runs[k + 1..])
  {
    var pre, post := runs[..k], runs[k + 1..];
    assert runs == (pre + [runs[k]]) + post;
    calc {
      PassEffects(runs);
      { PassEffectsAppend(pre + [runs[k]], post); }
      PassEffects(pre + [runs[k]]) + PassEffects(post);
      { PassEffectsSnoc(pre, runs[k]); }
      PassEffects(pre) + RowEffects(runs[k]) + PassEffects(post);
    }
    calc {
      PassTable(table, runs);
      { PassTableAppend(table, pre + [runs[k]], post); }
      PassTable(PassTable(table, pre + [runs[k]]), post);
      { PassTableSnoc(table, pre, runs[k]); }
      PassTable(RowTable(PassTable(table, pre), runs[k]), post);
    }
  }

  /**
   * A row that is not updated (no path, a failed fetch or a failed UPDATE)
   * leaves the table as it was and does not stop the rows after it.
   */
  lemma {:induction false} FailedRowContinues(table: seq<CrateRow>, runs: seq<RowRun>, k: int)
    requires 0 <= k < |runs| && Outcome(runs[k]) != Updated
    ensures PassEffects(runs) == PassEffects(runs[..k]) + RowEffects(runs[k]) + PassEffects(runs[k + 1..])
    ensures PassTable(table, runs) == PassTable(PassTable(table, runs[..k]), runs[k + 1..])
    ensures RowEffects(runs[k])[|RowEffects(runs[k])| - 1] == Sleep
  {
    PassSplit(table, runs, k);
    RowTableChange(PassTable(table, runs[..k]), runs[k]);
  }

  /** A row without a path contributes its pause and nothing else. */
  lemma {:induction false} RowWithoutPath(runs: seq<RowRun>, k: int)
    requires 0 <= k < |runs| && runs[k].attempt.NoPath?
    ensures PassEffects(runs) == PassEffects(runs[..k]) + [Sleep] + PassEffects(runs[k + 1..])
  {
    PassSplit([], runs, k);
  }

  /**
   * Rows of crates that are not updated in the pass keep their table row as
   * it was; ids and names never change.
   */
  lemma {:induction false} PassTableFrame(table: seq<CrateRow>, runs: seq<RowRun>, k: int)
    requires 0 <= k < |table|
    ensures var t := PassTable(table, runs);
      |t| == |table| && t[k].id == table[k].id && t[k].name == table[k].name &&
      ((forall m :: 0 <= m < |runs| && Outcome(runs[m]) == Updated ==> runs[m].row.id != table[k].id) ==>
        t[k] == table[k])
    decreases |runs|
  {
    if runs != [] {
      var n := |runs| - 1;
      PassTableFrame(table, runs[..n], k);
      var t := PassTable(table, runs[..n]);
      RowTableChange(t, runs[n]);
      if Outcome(runs[n]) == Updated {
        ApplyUpdateRows(t, runs[n].row.id, RowEffects(runs[n])[1].columns);
      }
    }
  }

  /**
   * Three selected rows, the second of which yields no path: the first and
   * third are requested, in that order, the second only pauses, and all
   * three pause.
   */
  lemma {:induction false} ThreeRowsMiddleWithoutPath(runs: seq<RowRun>, p1: string, p3: string)
    requires |runs| == 3
    requires runs[0].attempt.Fetched? && runs[0].attempt.path == p1
    requires runs[1].attempt.NoPath?
    requires runs[2].attempt.Fetched? && runs[2].attempt.path == p3
    ensures Requests(PassEffects(runs)) == [ApiUrl(p1), ApiUrl(p3)]
    ensures PassEffects(runs) == PassEffects(runs[..1]) + [Sleep] + PassEffects(runs[2..])
    ensures Sleeps(PassEffects(runs)) == 3
  {
    var e1, e2 := ExpectedRequests(runs[..1]), ExpectedRequests(runs[..2]);
    assert e1 == [ApiUrl(p1)] by {
      var q := runs[..1];
      assert |q| == 1 && q[..0] == [] && q[0] == runs[0];
      assert ExpectedRequests(q) == ExpectedRequests(q[..0]) + [ApiUrl(p1)];
    }
    assert e2 == e1 by {
      assert runs[..2][..1] == runs[..1];
    }
    assert ExpectedRequests(runs) == e2 + [ApiUrl(p3)];
    PassRequests(runs);
    PassSleeps(runs);
    RowWithoutPath(runs, 1);
  }

  /** `http://github.com` is selected by the query, yet yields no path: the row only pauses. */
  lemma BareHostRowOnlyPauses(row: Candidate, env: RowEnv, parse: string -> Option<DateTime>)
    requires row.repositoryUrl == "http://github.com" && ObjectOnSuccess(env.response)
    ensures RepoUrlFilter(row.repositoryUrl)
    ensures RowEffects(RunOf(row, env, parse)) == [Sleep]
  {
    FilterPassesBareHost();
  }
}
