/**
 * The crates store as the updater sees it: the GitHub columns of the
 * `crates` table, the UPDATE that writes them (with the `as i32` narrowing
 * of the counts), and the meaning of the SELECT that lists the crates to
 * refresh.
 *
 * The database itself is not part of this model. A table is a sequence of
 * rows; the UPDATE is a function from table to table; the SELECT is a
 * function of the `crates` and `releases` rows and of the database clock.
 */
module CrateStore {
  import opened Wrappers
  import opened GithubFields
  import GithubPath

  // ---------------------------------------------------------------------------
  // `as i32`

  const TwoTo32: int := 0x1_0000_0000
  const TwoTo31: int := 0x8000_0000

  predicate IsI32(x: int) {
    -TwoTo31 <= x < TwoTo31
  }

  /** `x as i32` on a 64-bit integer: the low 32 bits, read in two's complement. */
  function AsI32(x: int): (r: int)
    ensures IsI32(r)
    ensures (r - x) % TwoTo32 == 0
    ensures IsI32(x) ==> r == x
  {
    (x + TwoTo31) % TwoTo32 - TwoTo31
  }

  /** The i32 agreeing with `x` in its low 32 bits is unique: it is `x as i32`. */
  lemma AsI32Unique(x: int, y: int)
    requires IsI32(y) && (y - x) % TwoTo32 == 0
    ensures y == AsI32(x)
  {
    var r := AsI32(x);
    assert (y - r) % TwoTo32 == 0 by {
      assert y - r == (y - x) - (r - x);
    }
    assert -TwoTo32 < y - r < TwoTo32;
  }

  /** Narrowing wraps around: 2^31 becomes -2^31, 2^32 + 5 becomes 5, and -1 stays -1. */
  lemma AsI32Examples()
    ensures AsI32(TwoTo31) == -TwoTo31
    ensures AsI32(TwoTo32 + 5) == 5
    ensures AsI32(-1) == -1
  {
  }

  // ---------------------------------------------------------------------------
  // The GitHub columns of `crates`, and the UPDATE

  /**
   * `github_description`, `github_stars`, `github_forks`, `github_issues`,
   * `github_last_commit` and `github_last_update`.
   */
  datatype GithubColumns = GithubColumns(
    description: string,
    stars: int,
    forks: int,
    issues: int,
    lastCommit: Instant,
    lastUpdate: Instant)

  /**
   * A row of `crates`. `github` is None while `github_last_update` is NULL;
   * the UPDATE sets all six columns at once.
   */
  datatype CrateRow = CrateRow(id: int, name: string, github: Option<GithubColumns>)

  /**
   * The values the UPDATE binds: the counts narrowed to `i32`, the last
   * commit as a UTC reading, and the database clock `dbNow` for NOW().
   */
  function WriteBack(fields: GitHubFields, dbNow: Instant): (c: GithubColumns)
    ensures c.description == fields.description && c.lastCommit == fields.lastCommit && c.lastUpdate == dbNow
    ensures IsI32(c.stars) && IsI32(c.forks) && IsI32(c.issues)
    ensures (c.stars - fields.stars) % TwoTo32 == 0 && (c.forks - fields.forks) % TwoTo32 == 0 && (c.issues - fields.issues) % TwoTo32 == 0
    ensures IsI32(fields.stars) ==> c.stars == fields.stars
    ensures IsI32(fields.forks) ==> c.forks == fields.forks
    ensures IsI32(fields.issues) ==> c.issues == fields.issues
  {
    GithubColumns(fields.description, AsI32(fields.stars), AsI32(fields.forks), AsI32(fields.issues),
      fields.lastCommit, dbNow)
  }

  /** `UPDATE crates SET github_... WHERE id = $6`: the rows with that id get `cols`. */
  function ApplyUpdate(table: seq<CrateRow>, id: int, cols: GithubColumns): (t: seq<CrateRow>)
    ensures |t| == |table|
    decreases |table|
  {
    if table == [] then []
    else
      var row := table[0];
      [if row.id == id then row.(github := Some(cols)) else row] + ApplyUpdate(table[1..], id, cols)
  }

  /** Rows with the id carry the new columns; every other row, and every id and name, is unchanged. */
  lemma {:induction false} ApplyUpdateRows(table: seq<CrateRow>, id: int, cols: GithubColumns)
    ensures var t := ApplyUpdate(table, id, cols);
      |t| == |table| &&
      forall k :: 0 <= k < |table| ==>
        t[k].id == table[k].id && t[k].name == table[k].name &&
        t[k].github == (if table[k].id == id then Some(cols) else table[k].github)
    decreases |table|
  {
    if table != [] {
      ApplyUpdateRows(table[1..], id, cols);
      var t := ApplyUpdate(table, id, cols);
      forall k | 1 <= k < |table|
        ensures t[k] == ApplyUpdate(table[1..], id, cols)[k - 1] && table[k] == table[1..][k - 1]
      {
      }
    }
  }

  /** Writing twice to the same id leaves what the second write wrote. */
  lemma ApplyUpdateLastWins(table: seq<CrateRow>, id: int, c1: GithubColumns, c2: GithubColumns)
    ensures ApplyUpdate(ApplyUpdate(table, id, c1), id, c2) == ApplyUpdate(table, id, c2)
  {
    var t1 := ApplyUpdate(table, id, c1);
    ApplyUpdateRows(table, id, c1);
    ApplyUpdateRows(t1, id, c2);
    ApplyUpdateRows(table, id, c2);
  }

  /** The persister is idempotent: repeating the UPDATE with the same columns changes nothing more. */
  lemma ApplyUpdateIdempotent(table: seq<CrateRow>, id: int, cols: GithubColumns)
    ensures ApplyUpdate(ApplyUpdate(table, id, cols), id, cols) == ApplyUpdate(table, id, cols)
  {
    ApplyUpdateLastWins(table, id, cols, cols);
  }

  /**
   * Writing the same fields at two clock readings stores the same values in
   * every column but `github_last_update`.
   */
  lemma WriteBackSameContent(table: seq<CrateRow>, id: int, fields: GitHubFields, n1: Instant, n2: Instant)
    ensures var t1 := ApplyUpdate(table, id, WriteBack(fields, n1));
      var t2 := ApplyUpdate(table, id, WriteBack(fields, n2));
      |t1| == |t2| &&
      forall k :: 0 <= k < |t1| ==>
        if table[k].id == id then t1[k].github.Some? && t2[k].github == Some(t1[k].github.value.(lastUpdate := n2))
        else t1[k] == t2[k]
  {
    ApplyUpdateRows(table, id, WriteBack(fields, n1));
    ApplyUpdateRows(table, id, WriteBack(fields, n2));
  }

  // ---------------------------------------------------------------------------
  // The SELECT

  /** A row of `releases`: its crate, its `repository_url` and its `release_time`, either of which may be NULL. */
  datatype ReleaseRow = ReleaseRow(crateId: int, repositoryUrl: Option<string>, releaseTime: Option<Instant>)

  /** A selected row: `crates.name`, `crates.id`, `releases.repository_url`. */
  datatype Candidate = Candidate(name: string, id: int, repositoryUrl: string)

  /** A row of the join, before DISTINCT ON: a candidate with the release time it is ordered by. */
  datatype Joined = Joined(name: string, id: int, url: string, releaseTime: Option<Instant>)

  /**
   * `ORDER BY release_time DESC`: `a` sorts strictly before `b`. Postgres
   * puts NULL first under DESC, then later times before earlier ones.
   */
  predicate SortsBefore(a: Option<Instant>, b: Option<Instant>) {
    (a.None? && b.Some?) || (a.Some? && b.Some? && a.value > b.value)
  }

  /** The release-time order is a strict order, total up to equal times. */
  lemma SortsBeforeStrictTotal(a: Option<Instant>, b: Option<Instant>, c: Option<Instant>)
    ensures !SortsBefore(a, a)
    ensures SortsBefore(a, b) && SortsBefore(b, c) ==> SortsBefore(a, c)
    ensures a != b ==> SortsBefore(a, b) || SortsBefore(b, a)
    ensures SortsBefore(None, Some(0)) && SortsBefore(Some(1), Some(0))
  {
  }

  /** INTERVAL '1 day', in microseconds: a fixed 24 hours on the UTC time line. */
  const OneDay: int := 86_400 * MicrosPerSecond

  /**
   * `s ~ '^<pattern>'` for a pattern whose only special character is `.`:
   * a `.` in `pattern` matches any one character, every other character
   * matches itself, case-sensitively, and the match is anchored at the start.
   */
  predicate AnchoredDotPattern(s: string, pattern: string) {
    |pattern| <= |s| && forall k :: 0 <= k < |pattern| ==> pattern[k] == '.' || s[k] == pattern[k]
  }

  /** `repository_url ~ '^https?://github.com'`: the `.` before `com` is not escaped. */
  predicate RepoUrlFilter(url: string) {
    AnchoredDotPattern(url, "http://github.com") || AnchoredDotPattern(url, "https://github.com")
  }

  /** `github_last_update < NOW() - INTERVAL '1 day' OR github_last_update IS NULL` */
  predicate IsStale(github: Option<GithubColumns>, dbNow: Instant) {
    github.None? || github.value.lastUpdate < dbNow - OneDay
  }

  /** The WHERE clause for one joined pair. A NULL URL fails the `~` test. */
  predicate Qualifies(c: CrateRow, r: ReleaseRow, dbNow: Instant) {
    r.crateId == c.id && r.repositoryUrl.Some? && RepoUrlFilter(r.repositoryUrl.value) && IsStale(c.github, dbNow)
  }

  function JoinOf(c: CrateRow, r: ReleaseRow): (j: Joined)
    requires r.repositoryUrl.Some?
  {
    Joined(c.name, c.id, r.repositoryUrl.value, r.releaseTime)
  }

  /** The qualifying join rows of crate `c`, in the order of `releases`. */
  function JoinCrate(c: CrateRow, releases: seq<ReleaseRow>, dbNow: Instant): (js: seq<Joined>)
    decreases |releases|
  {
    if releases == [] then []
    else
      var r := releases[|releases| - 1];
      JoinCrate(c, releases[..|releases| - 1], dbNow) + (if Qualifies(c, r, dbNow) then [JoinOf(c, r)] else [])
  }

  /** `crates INNER JOIN releases ... WHERE ...`, crate by crate. */
  function Join(crates: seq<CrateRow>, releases: seq<ReleaseRow>, dbNow: Instant): (js: seq<Joined>)
    decreases |crates|
  {
    if crates == [] then []
    else Join(crates[..|crates| - 1], releases, dbNow) + JoinCrate(crates[|crates| - 1], releases, dbNow)
  }

  /** A join row is exactly a qualifying pair of a crate and one of its releases. */
  lemma {:induction false} JoinCrateMembers(c: CrateRow, releases: seq<ReleaseRow>, dbNow: Instant)
    ensures forall x :: x in JoinCrate(c, releases, dbNow) <==>
      exists r :: r in releases && Qualifies(c, r, dbNow) && x == JoinOf(c, r)
    decreases |releases|
  {
    if releases != [] {
      var pre := releases[..|releases| - 1];
      var r := releases[|releases| - 1];
      JoinCrateMembers(c, pre, dbNow);
      assert releases == pre + [r];
    }
  }

  lemma {:induction false} JoinMembers(crates: seq<CrateRow>, releases: seq<ReleaseRow>, dbNow: Instant)
    ensures forall x :: x in Join(crates, releases, dbNow) <==>
      exists c, r :: c in crates && r in releases && Qualifies(c, r, dbNow) && x == JoinOf(c, r)
    decreases |crates|
  {
    if crates != [] {
      var pre := crates[..|crates| - 1];
      var c := crates[|crates| - 1];
      JoinMembers(pre, releases, dbNow);
      JoinCrateMembers(c, releases, dbNow);
      assert crates == pre + [c];
    }
  }

  /** Code-point order on names: `ORDER BY crates.name` under the C collation. */
  predicate NameLess(a: string, b: string)
    decreases |a|
  {
    if a == [] then b != []
    else if b == [] then false
    else if a[0] != b[0] then a[0] < b[0]
    else NameLess(a[1..], b[1..])
  }

  lemma {:induction false} NameLessIrreflexive(a: string)
    ensures !NameLess(a, a)
    decreases |a|
  {
    if a != [] {
      NameLessIrreflexive(a[1..]);
    }
  }

  lemma {:induction false} NameLessTransitive(a: string, b: string, c: string)
    requires NameLess(a, b) && NameLess(b, c)
    ensures NameLess(a, c)
    decreases |a|
  {
    if a != [] && b != [] && c != [] && a[0] == b[0] && b[0] == c[0] {
      NameLessTransitive(a[1..], b[1..], c[1..]);
    }
  }

  lemma {:induction false} NameLessTotal(a: string, b: string)
    requires a != b
    ensures NameLess(a, b) || NameLess(b, a)
    decreases |a|
  {
    if a != [] && b != [] && a[0] == b[0] {
      assert a == [a[0]] + a[1..] && b == [b[0]] + b[1..];
      NameLessTotal(a[1..], b[1..]);
    }
  }

  /** Names strictly increase along `s`: at most one row per name, in name order. */
  predicate SortedByName(s: seq<Joined>) {
    forall a, b :: 0 <= a < b < |s| ==> NameLess(s[a].name, s[b].name)
  }

  function Names(s: seq<Joined>): (ns: set<string>) {
    set x | x in s :: x.name
  }

  /**
   * One step of `ORDER BY name, release_time DESC` followed by `DISTINCT ON
   * (name)`: `best` holds the first row of each name group seen so far, and
   * `j` is placed in its group, replacing the group's row if it sorts
   * before it (a NULL release time, or a later one). Of two rows with
   * equal release times the earlier one stays.
   */
  function Insert(best: seq<Joined>, j: Joined): (r: seq<Joined>)
    ensures r != [] && (r[0] == j || (best != [] && r[0] == best[0]))
    decreases |best|
  {
    if best == [] then [j]
    else if NameLess(j.name, best[0].name) then [j] + best
    else if j.name == best[0].name then (if SortsBefore(j.releaseTime, best[0].releaseTime) then [j] + best[1..] else best)
    else [best[0]] + Insert(best[1..], j)
  }

  lemma SortedTail(s: seq<Joined>)
    requires s != [] && SortedByName(s)
    ensures SortedByName(s[1..]) && forall x :: x in s[1..] ==> NameLess(s[0].name, x.name)
  {
    forall x | x in s[1..] ensures NameLess(s[0].name, x.name) {
      var k :| 0 <= k < |s[1..]| && s[1..][k] == x;
      assert s[k + 1] == x;
    }
  }

  lemma SortedCons(x: Joined, s: seq<Joined>)
    requires SortedByName(s) && forall y :: y in s ==> NameLess(x.name, y.name)
    ensures SortedByName([x] + s)
  {
    var t := [x] + s;
    forall a, b | 0 <= a < b < |t| ensures NameLess(t[a].name, t[b].name) {
      if a == 0 {
        assert t[b] in s;
      } else {
        assert t[a] == s[a - 1] && t[b] == s[b - 1];
      }
    }
  }

  /** Which rows Insert keeps: `j` unless a row of its name that sorts no later is there, and every row `j` does not replace. */
  lemma {:induction false} InsertElems(best: seq<Joined>, j: Joined)
    requires SortedByName(best)
    ensures SortedByName(Insert(best, j))
    ensures forall x :: x in Insert(best, j) <==>
      (x == j && forall b :: b in best && b.name == j.name ==> SortsBefore(j.releaseTime, b.releaseTime)) ||
      (x in best && !(x.name == j.name && SortsBefore(j.releaseTime, x.releaseTime)))
    decreases |best|
  {
    if best != [] {
      var b0 := best[0];
      var rest := best[1..];
      SortedTail(best);
      assert best == [b0] + rest;
      if NameLess(j.name, b0.name) {
        forall y | y in best ensures NameLess(j.name, y.name) && y.name != j.name {
          if y != b0 {
            NameLessTransitive(j.name, b0.name, y.name);
          }
          if y.name == j.name {
            NameLessIrreflexive(j.name);
          }
        }
        SortedCons(j, best);
      } else if j.name == b0.name {
        forall y | y in rest ensures y.name != j.name {
          if y.name == j.name {
            NameLessIrreflexive(j.name);
          }
        }
        if SortsBefore(j.releaseTime, b0.releaseTime) {
          forall y | y in rest ensures NameLess(j.name, y.name) {
          }
          SortedCons(j, rest);
        }
      } else {
        NameLessTotal(j.name, b0.name);
        InsertElems(rest, j);
        var r := Insert(rest, j);
        forall y | y in r ensures NameLess(b0.name, y.name) {
        }
        SortedCons(b0, r);
        NameLessIrreflexive(b0.name);
      }
    }
  }

  /** `DISTINCT ON (crates.name)` over rows ordered by `name, release_time DESC`, as a fold over the join rows. */
  function DistinctOn(rows: seq<Joined>): (best: seq<Joined>)
    decreases |rows|
  {
    if rows == [] then []
    else Insert(DistinctOn(rows[..|rows| - 1]), rows[|rows| - 1])
  }

  /** `x` is a row of `rows` and no row of `rows` with its name sorts before it. */
  ghost predicate NewestIn(x: Joined, rows: seq<Joined>) {
    x in rows && forall y :: y in rows && y.name == x.name ==> !SortsBefore(y.releaseTime, x.releaseTime)
  }

  /** Inserting `j` keeps every kept row a newest row of its name. */
  lemma InsertKeepsNewest(best: seq<Joined>, pre: seq<Joined>, j: Joined)
    requires SortedByName(best) && Names(best) == Names(pre)
    requires forall x :: x in best ==> NewestIn(x, pre)
    ensures forall x :: x in Insert(best, j) ==> NewestIn(x, pre + [j])
  {
    InsertElems(best, j);
    var rows := pre + [j];
    forall x | x in Insert(best, j) ensures NewestIn(x, rows) {
      if x == j && forall b :: b in best && b.name == j.name ==> SortsBefore(j.releaseTime, b.releaseTime) {
        forall y | y in rows && y.name == x.name ensures !SortsBefore(y.releaseTime, x.releaseTime) {
          if y in pre {
            assert y.name in Names(best);
            var b :| b in best && b.name == y.name;
            assert NewestIn(b, pre);
          }
        }
      } else {
        assert x in best && NewestIn(x, pre);
      }
    }
  }

  /** Inserting `j` adds its name and loses none. */
  lemma InsertNames(best: seq<Joined>, pre: seq<Joined>, j: Joined)
    requires SortedByName(best) && Names(best) == Names(pre)
    requires forall x :: x in best ==> NewestIn(x, pre)
    ensures Names(Insert(best, j)) == Names(pre + [j])
  {
    InsertElems(best, j);
    var r := Insert(best, j);
    var rows := pre + [j];
    forall n | n in Names(rows) ensures n in Names(r) {
      var y :| y in rows && y.name == n;
      if y.name != j.name {
        assert y in pre && n in Names(pre);
        var b :| b in best && b.name == n;
        assert b in r;
      } else if j in r {
      } else {
        var b :| b in best && b.name == j.name && !SortsBefore(j.releaseTime, b.releaseTime);
        assert b in r;
      }
    }
    forall n | n in Names(r) ensures n in Names(rows) {
      var x :| x in r && x.name == n;
      if x != j {
        assert x in best && x in pre;
      }
    }
  }

  /**
   * DISTINCT ON keeps one row per name present, in name order, and that row
   * is a newest row of its name.
   */
  lemma {:induction false} DistinctOnSpec(rows: seq<Joined>)
    ensures var best := DistinctOn(rows);
      SortedByName(best) && Names(best) == Names(rows) &&
      forall x :: x in best ==> NewestIn(x, rows)
    decreases |rows|
  {
    if rows != [] {
      var pre := rows[..|rows| - 1];
      var j := rows[|rows| - 1];
      assert rows == pre + [j];
      DistinctOnSpec(pre);
      var best := DistinctOn(pre);
      InsertElems(best, j);
      InsertKeepsNewest(best, pre, j);
      InsertNames(best, pre, j);
    }
  }

  function ToCandidates(best: seq<Joined>): (cs: seq<Candidate>)
    ensures |cs| == |best|
    ensures forall k :: 0 <= k < |best| ==> cs[k] == Candidate(best[k].name, best[k].id, best[k].url)
  {
    seq(|best|, k requires 0 <= k < |best| => Candidate(best[k].name, best[k].id, best[k].url))
  }

  /** The rows the SELECT returns, in order, given the database clock `dbNow`. */
  function Select(crates: seq<CrateRow>, releases: seq<ReleaseRow>, dbNow: Instant): (cs: seq<Candidate>) {
    ToCandidates(DistinctOn(Join(crates, releases, dbNow)))
  }

  /**
   * The selection: each returned row is a stale crate with one of its
   * releases whose URL passes the filter, and no qualifying release of a
   * crate of that name sorts before it (a NULL release time sorts first); at most one row per name, in name order;
   * and every stale crate with a qualifying release is represented by its name.
   */
  lemma SelectSpec(crates: seq<CrateRow>, releases: seq<ReleaseRow>, dbNow: Instant)
    ensures var best := DistinctOn(Join(crates, releases, dbNow));
      Select(crates, releases, dbNow) == ToCandidates(best) &&
      SortedByName(best) &&
      (forall x :: x in best ==>
        (exists c, r :: c in crates && r in releases && Qualifies(c, r, dbNow) && x == JoinOf(c, r)) &&
        forall c, r :: c in crates && r in releases && Qualifies(c, r, dbNow) && c.name == x.name ==>
          !SortsBefore(r.releaseTime, x.releaseTime)) &&
      (forall c, r :: c in crates && r in releases && Qualifies(c, r, dbNow) ==> c.name in Names(best))
  {
    var js := Join(crates, releases, dbNow);
    var best := DistinctOn(js);
    JoinMembers(crates, releases, dbNow);
    DistinctOnSpec(js);
    forall x | x in best
      ensures forall c, r :: c in crates && r in releases && Qualifies(c, r, dbNow) && c.name == x.name ==>
        !SortsBefore(r.releaseTime, x.releaseTime)
    {
      forall c, r | c in crates && r in releases && Qualifies(c, r, dbNow) && c.name == x.name
        ensures !SortsBefore(r.releaseTime, x.releaseTime)
      {
        assert JoinOf(c, r) in js;
      }
    }
    forall c, r | c in crates && r in releases && Qualifies(c, r, dbNow) ensures c.name in Names(best) {
      assert JoinOf(c, r) in js;
    }
  }

  /** The join of one crate with two qualifying releases holds both, in the order of `releases`. */
  lemma JoinTwoReleases(c: CrateRow, r1: ReleaseRow, r2: ReleaseRow, dbNow: Instant)
    requires Qualifies(c, r1, dbNow) && Qualifies(c, r2, dbNow)
    ensures Join([c], [r1, r2], dbNow) == [JoinOf(c, r1), JoinOf(c, r2)]
  {
    assert [r1, r2][..1] == [r1] && [r1][..0] == [];
    assert JoinCrate(c, [r1], dbNow) == [JoinOf(c, r1)];
    assert [c][..0] == [];
  }

  /** Of a dated and an undated row of one name, DISTINCT ON keeps the undated one. */
  lemma DistinctOnNullFirst(a: Joined, b: Joined)
    requires a.name == b.name && a.releaseTime.Some? && b.releaseTime.None?
    ensures DistinctOn([a, b]) == [b]
  {
    assert [a, b][..1] == [a] && [a][..0] == [];
    assert DistinctOn([a]) == [a];
    NameLessIrreflexive(a.name);
    assert SortsBefore(b.releaseTime, a.releaseTime);
  }

  /**
   * Under `release_time DESC` a NULL release time sorts first, so of a dated
   * and an undated qualifying release of one crate, the undated one is selected.
   */
  lemma NullReleaseTimeSelected()
    ensures Select([CrateRow(1, "c", None)],
      [ReleaseRow(1, Some("https://github.com/o/dated"), Some(10)), ReleaseRow(1, Some("https://github.com/o/undated"), None)], 0)
      == [Candidate("c", 1, "https://github.com/o/undated")]
  {
    var c := CrateRow(1, "c", None);
    var r1 := ReleaseRow(1, Some("https://github.com/o/dated"), Some(10));
    var r2 := ReleaseRow(1, Some("https://github.com/o/undated"), None);
    assert RepoUrlFilter(r1.repositoryUrl.value) && RepoUrlFilter(r2.repositoryUrl.value);
    JoinTwoReleases(c, r1, r2, 0);
    DistinctOnNullFirst(JoinOf(c, r1), JoinOf(c, r2));
  }

  /** A name appears at most once among the selected rows. */
  lemma SortedNamesDistinct(s: seq<Joined>, a: int, b: int)
    requires SortedByName(s) && 0 <= a < |s| && 0 <= b < |s| && a != b
    ensures s[a].name != s[b].name
  {
    if a < b {
      if s[a].name == s[b].name { NameLessIrreflexive(s[a].name); }
    } else {
      if s[a].name == s[b].name { NameLessIrreflexive(s[a].name); }
    }
  }

  // ---------------------------------------------------------------------------
  // The SELECT's filter against the extractor's pattern

  /** `http://github.com` passes the filter but holds no owner and repository. */
  lemma FilterPassesBareHost()
    ensures RepoUrlFilter("http://github.com")
    ensures GithubPath.GetGithubPath("http://github.com").None?
  {
    GithubPath.GetGithubPathNoneIff("http://github.com");
    forall i: nat, o, r ensures !GithubPath.Occurs("http://github.com", i, o, r) {
      GithubPath.OccursDot("http://github.com", i, o, r);
    }
  }

  /** The unescaped `.` lets `https://githubXcom/o/r` pass the filter; the extractor finds nothing in it. */
  lemma FilterDotIsWildcard()
    ensures RepoUrlFilter("https://githubXcom/o/r")
    ensures GithubPath.GetGithubPath("https://githubXcom/o/r").None?
  {
    var u := "https://githubXcom/o/r";
    assert u[13] == 'b' && u[14] == 'X';
    GithubPath.GetGithubPathNoneIff(u);
    forall i: nat, o, r ensures !GithubPath.Occurs(u, i, o, r) {
      GithubPath.OccursDot(u, i, o, r);
    }
  }

  /** The extractor searches anywhere in the URL; the filter is anchored, so `git+https://github.com/o/r` is never selected. */
  lemma FilterAnchoredExtractorNot()
    ensures !RepoUrlFilter("git+https://github.com/o/r")
    ensures GithubPath.GetGithubPath("git+https://github.com/o/r").Some?
  {
    var u := "git+https://github.com/o/r";
    assert u[0] == 'g';
    assert GithubPath.Occurs(u, 4, "o", "r") by {
      assert u[4..] == GithubPath.HttpsHost + "o" + "/" + "r";
    }
    GithubPath.GetGithubPathNoneIff(u);
  }
}
