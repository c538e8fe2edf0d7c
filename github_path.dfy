/**
 * The repository identifier extractor: from a crate's repository URL to the
 * `owner/repo` path that addresses it on the GitHub API.
 *
 * The extractor searches the URL for the pattern
 *   https?://github\.com/([\w\._-]+)/([\w\._-]+)
 * (leftmost match, unanchored, greedy groups) and then removes a `.git`
 * ending from the repository group by keeping the text before the FIRST
 * `.git` in it. The regular expression is written out here as a scanner
 * (StartsAt, RunLength, CaptureAt, FindCapture); `Occurs` is the independent
 * statement of what a match is, and the lemmas tie the two together.
 */
module GithubPath {
  import opened Wrappers

  /** `\w`, restricted to ASCII: letters, digits and the underscore. */
  predicate IsWordChar(c: char) {
    ('a' <= c <= 'z') || ('A' <= c <= 'Z') || ('0' <= c <= '9') || c == '_'
  }

  /** The character class `[\w\._-]` of both groups. */
  predicate IsNameChar(c: char) {
    IsWordChar(c) || c == '.' || c == '-'
  }

  /** What one group `[\w\._-]+` can match: a non-empty run of name characters. */
  ghost predicate IsName(s: string) {
    |s| > 0 && forall k :: 0 <= k < |s| ==> IsNameChar(s[k])
  }

  const HttpsHost: string := "https://github.com/"
  const HttpHost: string := "http://github.com/"

  function Host(secure: bool): (h: string) {
    if secure then HttpsHost else HttpHost
  }

  /**
   * The pattern matches the text of `url` starting at index `i`, with
   * owner group `o` and repository group `r`.
   */
  ghost predicate Occurs(url: string, i: nat, o: string, r: string) {
    i <= |url| && IsName(o) && IsName(r) &&
    (HttpsHost + o + "/" + r <= url[i..] || HttpHost + o + "/" + r <= url[i..])
  }

  /** A match of the pattern: where it starts, which scheme, and the two groups. */
  datatype Capture = Capture(start: nat, secure: bool, owner: string, repo: string)

  /** The text the whole match covers. */
  function Matched(c: Capture): (m: string) {
    Host(c.secure) + c.owner + "/" + c.repo
  }

  /** The match `c` is in `url` and its repository group cannot be extended. */
  ghost predicate MatchesIn(url: string, c: Capture) {
    c.start <= |url| && IsName(c.owner) && IsName(c.repo) &&
    Matched(c) <= url[c.start..] &&
    (c.start + |Matched(c)| == |url| || !IsNameChar(url[c.start + |Matched(c)|]))
  }

  /** Whether `t[n..]` occurs in `url` at index `i + n`, compared character by character. */
  function StartsAt(url: string, i: nat, t: string, n: nat): (b: bool)
    requires n <= |t|
    decreases |t| - n
  {
    n == |t| || (i + n < |url| && url[i + n] == t[n] && StartsAt(url, i, t, n + 1))
  }

  lemma {:induction false} StartsAtIsPrefix(url: string, i: nat, t: string, n: nat)
    requires n <= |t| && i + n <= |url|
    ensures StartsAt(url, i, t, n) <==> t[n..] <= url[i + n..]
    decreases |t| - n
  {
    if n < |t| && i + n < |url| {
      StartsAtIsPrefix(url, i, t, n + 1);
      assert url[i + n..] == [url[i + n]] + url[i + n + 1..];
      assert t[n..] == [t[n]] + t[n + 1..];
    }
  }

  /** The two host prefixes exclude each other: they differ in their fifth character. */
  lemma HostsExclusive(url: string, i: nat)
    requires i <= |url|
    ensures HttpsHost <= url[i..] ==> !(HttpHost <= url[i..])
  {
    if HttpsHost <= url[i..] {
      assert url[i..][4] == HttpsHost[4];
    }
  }

  /** Where the pattern occurs, the URL is long enough for it and holds the host's `.` at its place. */
  lemma OccursDot(url: string, i: nat, o: string, r: string)
    ensures Occurs(url, i, o, r) ==>
      (i + |HttpsHost| + 3 <= |url| && url[i + 14] == '.') || (i + |HttpHost| + 3 <= |url| && url[i + 13] == '.')
  {
    if Occurs(url, i, o, r) {
      if HttpsHost + o + "/" + r <= url[i..] {
        var t := HttpsHost + o + "/" + r;
        assert t[14] == '.';
        assert url[i..][14] == t[14];
      } else {
        var t := HttpHost + o + "/" + r;
        assert t[13] == '.';
        assert url[i..][13] == t[13];
      }
    }
  }

  /** The length of the longest run of name characters starting at `j`: a greedy `[\w\._-]*`. */
  function RunLength(url: string, j: nat): (k: nat)
    ensures k > 0 ==> j + k <= |url|
    decreases |url| - j
  {
    if j < |url| && IsNameChar(url[j]) then 1 + RunLength(url, j + 1) else 0
  }

  /** The run RunLength measures consists of name characters and is followed by the end or a non-name character. */
  lemma {:induction false} RunLengthSpec(url: string, j: nat)
    requires j <= |url|
    ensures forall m :: j <= m < j + RunLength(url, j) ==> IsNameChar(url[m])
    ensures j + RunLength(url, j) == |url| || !IsNameChar(url[j + RunLength(url, j)])
    decreases |url| - j
  {
    if j < |url| && IsNameChar(url[j]) {
      RunLengthSpec(url, j + 1);
    }
  }

  /** The regular expression tried at index `i` alone. */
  function CaptureAt(url: string, i: nat): (c: Option<Capture>)
  {
    if StartsAt(url, i, HttpsHost, 0) then CaptureAfterHost(url, i, true, i + |HttpsHost|)
    else if StartsAt(url, i, HttpHost, 0) then CaptureAfterHost(url, i, false, i + |HttpHost|)
    else None
  }

  /** The two groups and the `/` between them, scanned from index `j` just after the host part. */
  function CaptureAfterHost(url: string, i: nat, secure: bool, j: nat): (c: Option<Capture>)
  {
    var k := RunLength(url, j);
    if k > 0 && j + k < |url| && url[j + k] == '/' then
      var l := RunLength(url, j + k + 1);
      if l > 0 then Some(Capture(i, secure, url[j..j + k], url[j + k + 1..j + k + 1 + l]))
      else None
    else None
  }

  lemma PrefixAt(t: string, s: string, i: nat)
    requires i <= |s| && t <= s[i..]
    ensures i + |t| <= |s| && s[i..i + |t|] == t
    ensures forall m :: 0 <= m < |t| ==> s[i + m] == t[m]
  {
    assert s[i..][..|t|] == s[i..i + |t|];
  }

  /** A run reported by RunLength, cut out of the URL, is a name. */
  lemma RunIsName(url: string, j: nat, k: nat)
    requires 0 < k && j + k <= |url|
    requires forall m :: j <= m < j + k ==> IsNameChar(url[m])
    ensures IsName(url[j..j + k])
  {
    var s := url[j..j + k];
    forall m | 0 <= m < |s| ensures IsNameChar(s[m]) {
      assert s[m] == url[j + m];
    }
  }

  /** The leftmost index at or after `i` where the regular expression matches. */
  function FindCapture(url: string, i: nat): (c: Option<Capture>)
    requires i <= |url|
    ensures c.Some? ==> i <= c.value.start <= |url|
    decreases |url| - i
  {
    var here := CaptureAt(url, i);
    if here.Some? then here
    else if i == |url| then None
    else FindCapture(url, i + 1)
  }

  /** What FindCapture returns is what CaptureAt finds at that index. */
  lemma {:induction false} FindCaptureFound(url: string, i: nat)
    requires i <= |url|
    ensures FindCapture(url, i).Some? ==> CaptureAt(url, FindCapture(url, i).value.start) == FindCapture(url, i)
    decreases |url| - i
  {
    if CaptureAt(url, i).None? && i < |url| {
      FindCaptureFound(url, i + 1);
    }
  }

  /** FindCapture stops at the first index where the regular expression matches, and only there. */
  lemma {:induction false} FindCaptureFirst(url: string, i: nat)
    requires i <= |url|
    ensures var c := FindCapture(url, i);
      (c.Some? ==> forall m :: i <= m < c.value.start ==> CaptureAt(url, m).None?) &&
      (c.None? ==> forall m :: i <= m <= |url| ==> CaptureAt(url, m).None?)
    decreases |url| - i
  {
    if CaptureAt(url, i).None? && i < |url| {
      FindCaptureFirst(url, i + 1);
    }
  }

  /** `s.ends_with(suffix)` */
  predicate EndsWith(s: string, suffix: string) {
    |suffix| <= |s| && s[|s| - |suffix|..] == suffix
  }

  /**
   * `s.split(sep).next().unwrap()`: the text before the first occurrence of
   * `sep`, or all of `s` when `sep` does not occur in it.
   */
  function BeforeFirst(s: string, sep: string): (r: string)
    requires sep != []
    ensures r <= s
    ensures forall p :: 0 <= p < |r| ==> !(sep <= s[p..])
    ensures r == s || sep <= s[|r|..]
    decreases |s|
  {
    if sep <= s || s == [] then []
    else
      var rest := BeforeFirst(s[1..], sep);
      assert forall p :: 1 <= p <= |s| ==> s[p..] == s[1..][p - 1..];
      [s[0]] + rest
  }

  const GitSuffix: string := ".git"

  /** A repository group ending in `.git` keeps only what precedes its first `.git`. */
  function StripGit(repo: string): (stripped: string) {
    if EndsWith(repo, GitSuffix) then BeforeFirst(repo, GitSuffix) else repo
  }

  /** `get_github_path` */
  function GetGithubPath(url: string): (p: Option<string>)
  {
    match FindCapture(url, 0)
    case None => None
    case Some(c) => Some(c.owner + "/" + StripGit(c.repo))
  }

  // ---------------------------------------------------------------------------
  // The scanner against the pattern

  /** RunLength is the exact length of a run that is followed by a non-name character or the end. */
  lemma RunLengthIs(url: string, j: nat, k: nat)
    requires j + k <= |url|
    requires forall m :: j <= m < j + k ==> IsNameChar(url[m])
    requires j + k == |url| || !IsNameChar(url[j + k])
    ensures RunLength(url, j) == k
  {
    RunLengthSpec(url, j);
  }

  /** RunLength is at least the length of any run of name characters. */
  lemma RunLengthAtLeast(url: string, j: nat, k: nat)
    requires j + k <= |url|
    requires forall m :: j <= m < j + k ==> IsNameChar(url[m])
    ensures RunLength(url, j) >= k
  {
    RunLengthSpec(url, j);
  }

  /** A name found in the URL is a run of name characters there. */
  lemma NameInUrl(url: string, j: nat, s: string)
    requires IsName(s) && j + |s| <= |url| && url[j..j + |s|] == s
    ensures forall m :: j <= m < j + |s| ==> IsNameChar(url[m])
  {
    forall m | j <= m < j + |s| ensures IsNameChar(url[m]) {
      assert url[m] == s[m - j];
    }
  }

  /** The part of the pattern after the host: the groups `o` and `r` around a `/`, at index `j`. */
  ghost predicate GroupsAt(url: string, j: nat, o: string, r: string) {
    j <= |url| && IsName(o) && IsName(r) && o + "/" + r <= url[j..]
  }

  /** The pieces of the groups part, located in the URL. */
  lemma GroupPieces(url: string, j: nat, o: string, r: string)
    requires GroupsAt(url, j, o, r)
    ensures var a := j + |o| + 1;
      a + |r| <= |url| && url[j..j + |o|] == o && url[j + |o|] == '/' && url[a..a + |r|] == r
  {
    var t := o + "/" + r;
    var a := j + |o| + 1;
    PrefixAt(t, url, j);
    var w := url[j..j + |t|];
    assert t[..|o|] == o;
    assert t[|o|] == '/';
    assert t[|o| + 1..] == r;
    assert url[j..j + |o|] == w[..|o|];
    assert url[j + |o|] == w[|o|];
    assert url[a..a + |r|] == w[|o| + 1..];
  }

  /** What CaptureAfterHost finds is the groups part, with a repository group that cannot be extended. */
  lemma CaptureAfterHostSound(url: string, i: nat, secure: bool, j: nat)
    requires j <= |url|
    ensures var c := CaptureAfterHost(url, i, secure, j);
      c.Some? ==>
        c.value.start == i && c.value.secure == secure && GroupsAt(url, j, c.value.owner, c.value.repo) &&
        var e := j + |c.value.owner| + 1 + |c.value.repo|;
        e == |url| || !IsNameChar(url[e])
  {
    var c := CaptureAfterHost(url, i, secure, j);
    if c.Some? {
      var k := RunLength(url, j);
      var l := RunLength(url, j + k + 1);
      RunLengthSpec(url, j);
      RunLengthSpec(url, j + k + 1);
      RunIsName(url, j, k);
      RunIsName(url, j + k + 1, l);
      assert c.value == Capture(i, secure, url[j..j + k], url[j + k + 1..j + k + 1 + l]);
      assert |c.value.owner| == k && |c.value.repo| == l;
      assert url[j..j + k + 1 + l] == url[j..j + k] + [url[j + k]] + url[j + k + 1..j + k + 1 + l];
      assert url[j..][..k + 1 + l] == url[j..j + k + 1 + l];
    }
  }

  /** Where the groups part occurs, CaptureAfterHost finds it: the same owner and a repository group extending `r`. */
  lemma CaptureAfterHostComplete(url: string, i: nat, secure: bool, j: nat, o: string, r: string)
    requires GroupsAt(url, j, o, r)
    ensures var c := CaptureAfterHost(url, i, secure, j);
      c.Some? && c.value.owner == o && r <= c.value.repo
  {
    var a := j + |o| + 1;
    GroupPieces(url, j, o, r);
    NameInUrl(url, j, o);
    RunLengthIs(url, j, |o|);
    NameInUrl(url, a, r);
    RunLengthAtLeast(url, a, |r|);
    var l := RunLength(url, a);
    var repo := url[a..a + l];
    assert r == repo[..|r|];
  }

  /** Behind a host prefix at `i`, CaptureAt scans the groups right after it. */
  lemma CaptureAtHost(url: string, i: nat, secure: bool)
    requires i <= |url| && Host(secure) <= url[i..]
    ensures CaptureAt(url, i) == CaptureAfterHost(url, i, secure, i + |Host(secure)|)
  {
    StartsAtIsPrefix(url, i, HttpsHost, 0);
    StartsAtIsPrefix(url, i, HttpHost, 0);
    HostsExclusive(url, i);
  }

  /** A prefix made of two parts is the first part followed, right after it, by the second. */
  lemma PrefixSplit(s: string, i: nat, h: string, t: string)
    requires i <= |s|
    ensures h + t <= s[i..] <==> i + |h| <= |s| && h <= s[i..] && t <= s[i + |h|..]
  {
    if i + |h| <= |s| {
      assert s[i..] == s[i..i + |h|] + s[i + |h|..];
      assert s[i..][..|h|] == s[i..i + |h|];
    }
  }

  /** The pattern at `i` is a host part followed by the groups part. */
  lemma OccursSplit(url: string, i: nat, o: string, r: string, secure: bool)
    requires i <= |url|
    ensures IsName(o) && IsName(r) && Host(secure) + o + "/" + r <= url[i..] <==>
      i + |Host(secure)| <= |url| && Host(secure) <= url[i..] && GroupsAt(url, i + |Host(secure)|, o, r)
  {
    var h := Host(secure);
    assert h + o + "/" + r == h + (o + "/" + r);
    PrefixSplit(url, i, h, o + "/" + r);
  }

  /** Behind a host prefix, what CaptureAfterHost finds is a greedy match starting at `i`. */
  lemma HostCaptureSound(url: string, i: nat, secure: bool)
    requires i <= |url| && Host(secure) <= url[i..]
    ensures var c := CaptureAfterHost(url, i, secure, i + |Host(secure)|);
      c.Some? ==> c.value.start == i && MatchesIn(url, c.value)
  {
    var j := i + |Host(secure)|;
    var c := CaptureAfterHost(url, i, secure, j);
    if c.Some? {
      CaptureAfterHostSound(url, i, secure, j);
      OccursSplit(url, i, c.value.owner, c.value.repo, secure);
      assert |Matched(c.value)| == |Host(secure)| + |c.value.owner| + 1 + |c.value.repo|;
    }
  }

  /** What CaptureAt finds is a greedy match starting at `i`. */
  lemma CaptureAtSound(url: string, i: nat)
    requires i <= |url|
    ensures CaptureAt(url, i).Some? ==> CaptureAt(url, i).value.start == i && MatchesIn(url, CaptureAt(url, i).value)
  {
    if StartsAt(url, i, HttpsHost, 0) {
      StartsAtIsPrefix(url, i, HttpsHost, 0);
      HostCaptureSound(url, i, true);
    } else if StartsAt(url, i, HttpHost, 0) {
      StartsAtIsPrefix(url, i, HttpHost, 0);
      HostCaptureSound(url, i, false);
    }
  }

  /** An occurrence at `i` is found by the scanner, with the same owner and a repository group it extends. */
  lemma OccursGivesCapture(url: string, i: nat, o: string, r: string)
    requires Occurs(url, i, o, r)
    ensures CaptureAt(url, i).Some?
    ensures o == CaptureAt(url, i).value.owner && r <= CaptureAt(url, i).value.repo
  {
    var secure := HttpsHost + o + "/" + r <= url[i..];
    OccursSplit(url, i, o, r, secure);
    CaptureAtHost(url, i, secure);
    CaptureAfterHostComplete(url, i, secure, i + |Host(secure)|, o, r);
  }

  /** At each index the scanner finds a match exactly when the pattern occurs there, and then the greedy one. */
  lemma CaptureAtComplete(url: string, i: nat)
    requires i <= |url|
    ensures CaptureAt(url, i).None? <==> forall o, r :: !Occurs(url, i, o, r)
    ensures CaptureAt(url, i).Some? ==>
      var c := CaptureAt(url, i).value;
      Occurs(url, i, c.owner, c.repo) &&
      forall o, r :: Occurs(url, i, o, r) ==> o == c.owner && r <= c.repo
  {
    forall o, r | Occurs(url, i, o, r)
      ensures CaptureAt(url, i).Some?
      ensures o == CaptureAt(url, i).value.owner && r <= CaptureAt(url, i).value.repo
    {
      OccursGivesCapture(url, i, o, r);
    }
    if CaptureAt(url, i).Some? {
      CaptureAtSound(url, i);
      var c := CaptureAt(url, i).value;
      assert Matched(c) <= url[i..];
      if c.secure {
        assert HttpsHost + c.owner + "/" + c.repo <= url[i..];
      } else {
        assert HttpHost + c.owner + "/" + c.repo <= url[i..];
      }
      assert Occurs(url, i, c.owner, c.repo);
    }
  }

  /**
   * The regular expression's search: the capture found is a match, no match
   * starts earlier, and among the matches at its start it has the only
   * possible owner and the longest repository group.
   */
  lemma FindCaptureLeftmostGreedy(url: string)
    ensures var c := FindCapture(url, 0);
      c.Some? ==>
        MatchesIn(url, c.value) &&
        Occurs(url, c.value.start, c.value.owner, c.value.repo) &&
        (forall i, o, r :: Occurs(url, i, o, r) ==> c.value.start <= i) &&
        (forall o, r :: Occurs(url, c.value.start, o, r) ==> o == c.value.owner && r <= c.value.repo)
  {
    var c := FindCapture(url, 0);
    if c.Some? {
      FindCaptureFirst(url, 0);
      FindCaptureFound(url, 0);
      CaptureAtSound(url, c.value.start);
      CaptureAtComplete(url, c.value.start);
      forall i: nat, o, r | Occurs(url, i, o, r) ensures c.value.start <= i {
        if i < c.value.start {
          CaptureAtComplete(url, i);
        }
      }
    }
  }

  /** `get_github_path` returns `None` exactly when the pattern occurs nowhere in the URL. */
  lemma GetGithubPathNoneIff(url: string)
    ensures GetGithubPath(url).None? <==> forall i, o, r :: !Occurs(url, i, o, r)
  {
    if GetGithubPath(url).None? {
      FindCaptureFirst(url, 0);
      forall i: nat, o, r | i <= |url| ensures !Occurs(url, i, o, r) {
        CaptureAtComplete(url, i);
      }
    } else {
      FindCaptureLeftmostGreedy(url);
    }
  }

  /**
   * A found path is `owner/repo'`: the owner is the leftmost match's owner
   * group, non-empty and free of `/`, and `repo'` is its repository group
   * with `.git` handling applied.
   */
  lemma GetGithubPathSome(url: string)
    requires GetGithubPath(url).Some?
    ensures var c := FindCapture(url, 0).value;
      GetGithubPath(url).value == c.owner + "/" + StripGit(c.repo) &&
      Occurs(url, c.start, c.owner, c.repo) &&
      (forall i, o, r :: Occurs(url, i, o, r) ==> c.start <= i) &&
      |c.owner| > 0 && '/' !in c.owner
  {
    FindCaptureLeftmostGreedy(url);
    var c := FindCapture(url, 0).value;
    assert forall k :: 0 <= k < |c.owner| ==> IsNameChar(c.owner[k]);
  }

  /** A repository group that does not end in `.git` is returned unchanged. */
  lemma StripGitKeeps(repo: string)
    requires !EndsWith(repo, GitSuffix)
    ensures StripGit(repo) == repo
  {
  }

  /**
   * A repository group ending in `.git` becomes its prefix before the first
   * `.git`; that prefix contains no `.git`.
   */
  lemma StripGitFirstPiece(repo: string)
    requires EndsWith(repo, GitSuffix)
    ensures var s := StripGit(repo);
      s <= repo && |s| <= |repo| - |GitSuffix| && GitSuffix <= repo[|s|..] &&
      (forall p :: 0 <= p < |s| ==> !(GitSuffix <= repo[p..])) &&
      forall p :: 0 <= p < |s| ==> !(GitSuffix <= s[p..])
  {
    assert GitSuffix <= repo[|repo| - 4..];
    var s := StripGit(repo);
    forall p | 0 <= p < |s| ensures !(GitSuffix <= s[p..]) {
      assert s[p..] <= repo[p..];
    }
  }

  // ---------------------------------------------------------------------------
  // Whole URLs and the extractor's examples

  /** A URL that is exactly a host, an owner, `/` and a repository yields that owner and repository. */
  lemma GetGithubPathWhole(url: string, secure: bool, o: string, r: string)
    requires IsName(o) && IsName(r) && url == Host(secure) + o + "/" + r
    ensures GetGithubPath(url) == Some(o + "/" + StripGit(r))
  {
    assert Occurs(url, 0, o, r) by {
      assert url[0..] == url;
      if secure {
        assert HttpsHost + o + "/" + r <= url[0..];
      } else {
        assert HttpHost + o + "/" + r <= url[0..];
      }
    }
    GetGithubPathNoneIff(url);
    FindCaptureLeftmostGreedy(url);
    var c := FindCapture(url, 0).value;
    assert c.start == 0;
    assert |Matched(c)| <= |url|;
    assert c.secure == secure by {
      HostsExclusive(url, 0);
      assert Host(c.secure) <= url[0..];
    }
    assert c.repo == r;
  }

  /** A repository group ending in `.git` whose first `.` starts a `.git` at `n` keeps its first `n` characters. */
  lemma StripGitAt(repo: string, n: nat)
    requires EndsWith(repo, GitSuffix) && n <= |repo| && GitSuffix <= repo[n..]
    requires forall p :: 0 <= p < n ==> repo[p] != '.'
    ensures StripGit(repo) == repo[..n]
  {
    StripGitFirstPiece(repo);
    var s := StripGit(repo);
    assert repo[|s|] == repo[|s|..][0] == '.';
  }

  /** `cratesfyi.git` loses its `.git`. */
  lemma StripGitCratesfyi()
    ensures StripGit("cratesfyi.git") == "cratesfyi"
  {
    assert "cratesfyi.git"[..9] == "cratesfyi";
    assert "cratesfyi.git"[9..] == GitSuffix;
    StripGitAt("cratesfyi.git", 9);
  }

  /** `y.github.io.git` is cut at its first `.git`, which is inside `.github`, and becomes `y`. */
  lemma StripGitGithubIo()
    ensures StripGit("y.github.io.git") == "y"
  {
    assert "y.github.io.git"[..1] == "y";
    assert GitSuffix <= "y.github.io.git"[1..];
    assert EndsWith("y.github.io.git", GitSuffix);
    StripGitAt("y.github.io.git", 1);
  }

  /** `https://github.com/onur/cratesfyi` gives `onur/cratesfyi`. */
  lemma ExampleHttps()
    ensures GetGithubPath("https://github.com/onur/cratesfyi") == Some("onur/cratesfyi")
  {
    assert IsName("onur") && IsName("cratesfyi");
    assert "https://github.com/onur/cratesfyi" == Host(true) + "onur" + "/" + "cratesfyi";
    assert "onur" + "/" + "cratesfyi" == "onur/cratesfyi";
    assert "cratesfyi"[5..][0] != GitSuffix[0];
    StripGitKeeps("cratesfyi");
    GetGithubPathWhole("https://github.com/onur/cratesfyi", true, "onur", "cratesfyi");
  }

  /** `http://github.com/onur/cratesfyi` gives `onur/cratesfyi`. */
  lemma ExampleHttp()
    ensures GetGithubPath("http://github.com/onur/cratesfyi") == Some("onur/cratesfyi")
  {
    assert IsName("onur") && IsName("cratesfyi");
    assert "http://github.com/onur/cratesfyi" == Host(false) + "onur" + "/" + "cratesfyi";
    assert "onur" + "/" + "cratesfyi" == "onur/cratesfyi";
    assert "cratesfyi"[5..][0] != GitSuffix[0];
    StripGitKeeps("cratesfyi");
    GetGithubPathWhole("http://github.com/onur/cratesfyi", false, "onur", "cratesfyi");
  }

  /** `https://github.com/onur/cratesfyi.git` gives `onur/cratesfyi`. */
  lemma ExampleGitSuffix()
    ensures GetGithubPath("https://github.com/onur/cratesfyi.git") == Some("onur/cratesfyi")
  {
    assert IsName("onur") && IsName("cratesfyi.git");
    assert "https://github.com/onur/cratesfyi.git" == Host(true) + "onur" + "/" + "cratesfyi.git";
    assert "onur" + "/" + "cratesfyi" == "onur/cratesfyi";
    StripGitCratesfyi();
    GetGithubPathWhole("https://github.com/onur/cratesfyi.git", true, "onur", "cratesfyi.git");
  }

  /** How the URL of ExampleNameCharacters is made of the host, the owner and the repository. */
  lemma NameCharactersUrl()
    ensures Host(true) + "onur23cmD_M_R_L_" + "/" + "crates_fy-i" == "https://github.com/onur23cmD_M_R_L_/crates_fy-i"
  {
    assert Host(true) + "onur23cmD_M_R_L_" == "https://github.com/onur23cmD_M_R_L_";
    assert "https://github.com/onur23cmD_M_R_L_" + "/" == "https://github.com/onur23cmD_M_R_L_/";
    assert "https://github.com/onur23cmD_M_R_L_/" + "crates_fy-i" == "https://github.com/onur23cmD_M_R_L_/crates_fy-i";
  }

  /** Digits, capitals, `_` and `-` are kept: `onur23cmD_M_R_L_/crates_fy-i`. */
  lemma ExampleNameCharacters()
    ensures GetGithubPath("https://github.com/onur23cmD_M_R_L_/crates_fy-i") == Some("onur23cmD_M_R_L_/crates_fy-i")
  {
    assert IsName("onur23cmD_M_R_L_") && IsName("crates_fy-i");
    NameCharactersUrl();
    assert "onur23cmD_M_R_L_" + "/" + "crates_fy-i" == "onur23cmD_M_R_L_/crates_fy-i";
    assert "crates_fy-i"[7..][0] != GitSuffix[0];
    StripGitKeeps("crates_fy-i");
    GetGithubPathWhole("https://github.com/onur23cmD_M_R_L_/crates_fy-i", true, "onur23cmD_M_R_L_", "crates_fy-i");
  }

  /** A `.` inside the repository group is kept: `docopt/docopt.rs`. */
  lemma ExampleDotInRepo()
    ensures GetGithubPath("https://github.com/docopt/docopt.rs") == Some("docopt/docopt.rs")
  {
    assert IsName("docopt") && IsName("docopt.rs");
    assert "https://github.com/docopt/docopt.rs" == Host(true) + "docopt" + "/" + "docopt.rs";
    assert "docopt" + "/" + "docopt.rs" == "docopt/docopt.rs";
    assert "docopt.rs"[5..][0] != GitSuffix[0];
    StripGitKeeps("docopt.rs");
    GetGithubPathWhole("https://github.com/docopt/docopt.rs", true, "docopt", "docopt.rs");
  }

  /**
   * The `.git` handling cuts at the FIRST `.git`, so a repository named
   * `y.github.io.git` is reduced to `y`.
   */
  lemma ExampleEarlierGit()
    ensures GetGithubPath("https://github.com/y/y.github.io.git") == Some("y/y")
  {
    assert IsName("y") && IsName("y.github.io.git");
    assert "https://github.com/y/y.github.io.git" == Host(true) + "y" + "/" + "y.github.io.git";
    assert "y" + "/" + "y" == "y/y";
    StripGitGithubIo();
    GetGithubPathWhole("https://github.com/y/y.github.io.git", true, "y", "y.github.io.git");
  }
}
