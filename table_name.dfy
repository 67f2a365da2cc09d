/**
 * `extract_table_name` of the notebook: `re.search(r'/([a-zA-Z0-9_]+)[^/]*\.', path)`
 * and, when it matches, the text of group 1.
 *
 * The search is modelled as the leftmost position `p` at which the pattern
 * matches (`FirstMatch`), and the group as the maximal run of word characters
 * after the `/` (`RunEnd`). `PatternMatch` is an independent, regex-shaped
 * reading of the pattern in which the group may end anywhere; the lemmas at the
 * end prove that the search returns exactly what `re.search` returns under the
 * leftmost, greedy-with-backtracking semantics.
 */
module TableName {
  import opened Wrappers

  /** The character class `[a-zA-Z0-9_]`. */
  predicate IsWordChar(c: char) {
    ('a' <= c <= 'z') || ('A' <= c <= 'Z') || ('0' <= c <= '9') || c == '_'
  }

  /** End of the longest run of word characters that starts at `i`. */
  function RunEnd(s: string, i: nat): (j: nat)
    requires i <= |s|
    ensures i <= j <= |s|
    ensures forall m | i <= m < j :: IsWordChar(s[m])
    ensures j == |s| || !IsWordChar(s[j])
    decreases |s| - i
  {
    if i < |s| && IsWordChar(s[i]) then RunEnd(s, i + 1) else i
  }

  /** The tail `[^/]*\.` matches at `i`: a `.` occurs at or after `i`, before any `/`. */
  predicate DotBeforeSlash(s: string, i: nat)
    requires i <= |s|
    ensures DotBeforeSlash(s, i) ==>
      exists k | i <= k < |s| :: s[k] == '.' && forall m | i <= m <= k :: s[m] != '/'
    decreases |s| - i
  {
    i < |s| && s[i] != '/' && (s[i] == '.' || DotBeforeSlash(s, i + 1))
  }

  /**
   * The pattern matches with its `/` at `p`: the next character is a word
   * character, and after the (greedy) run the segment reaches a `.` before a `/`.
   */
  predicate MatchesAt(s: string, p: nat)
    ensures MatchesAt(s, p) ==>
      exists k | p + 1 < k < |s| :: s[k] == '.' && forall m | p < m <= k :: s[m] != '/'
  {
    p + 1 < |s| && s[p] == '/' && IsWordChar(s[p + 1]) && DotBeforeSlash(s, RunEnd(s, p + 1))
  }

  /** Leftmost position at or after `from` where the pattern matches. */
  function FirstMatch(s: string, from: nat): (r: Option<nat>)
    requires from <= |s|
    ensures r.None? <==> forall p | from <= p < |s| :: !MatchesAt(s, p)
    ensures r.Some? ==> from <= r.value < |s| && MatchesAt(s, r.value)
    ensures r.Some? ==> forall p | from <= p < r.value :: !MatchesAt(s, p)
    decreases |s| - from
  {
    if from == |s| then None
    else if MatchesAt(s, from) then Some(from)
    else FirstMatch(s, from + 1)
  }

  /**
   * `n` is group 1 of the match whose `/` is at `p`, and no match starts
   * further left: `n` follows the `/` and is a maximal run of word characters.
   */
  predicate NameAt(s: string, p: nat, n: string) {
    && p < |s|
    && MatchesAt(s, p)
    && (forall q | 0 <= q < p :: !MatchesAt(s, q))
    && p + 1 + |n| <= |s|
    && s[p + 1 .. p + 1 + |n|] == n
    && (p + 1 + |n| == |s| || !IsWordChar(s[p + 1 + |n|]))
  }

  /**
   * `extract_table_name(file_path)`: group 1 of the leftmost match, or `None`.
   * The name is never empty, so the caller's `if not table_name` is true only for `None`.
   */
  function ExtractTableName(path: string): (name: Option<string>)
    ensures name.None? <==> forall p | 0 <= p < |path| :: !MatchesAt(path, p)
    ensures name.Some? ==> |name.value| > 0 && forall c | c in name.value :: IsWordChar(c)
    ensures name.Some? ==> exists p :: NameAt(path, p, name.value)
  {
    match FirstMatch(path, 0)
    case None => None
    case Some(p) =>
      var name := path[p + 1 .. RunEnd(path, p + 1)];
      assert forall c | c in name :: IsWordChar(c) by {
        forall c | c in name ensures IsWordChar(c) {
          var m :| 0 <= m < |name| && name[m] == c;
          assert path[p + 1 + m] == c;
        }
      }
      assert p + 1 + |name| == RunEnd(path, p + 1);
      assert path[p + 1 .. p + 1 + |name|] == name;
      assert NameAt(path, p, name);
      Some(name)
  }

  // ---------------------------------------------------------------------
  // The pattern read as a regular expression

  /**
   * `/([a-zA-Z0-9_]+)[^/]*\.` matches `s[p..d+1]` with group 1 equal to
   * `s[p+1..k]`: `/` at `p`, one or more word characters up to `k`, any
   * characters but `/` up to `d`, and a literal `.` at `d`.
   */
  ghost predicate PatternMatch(s: string, p: int, k: int, d: int) {
    && 0 <= p && p + 1 < k <= d < |s|
    && s[p] == '/'
    && (forall m | p + 1 <= m < k :: IsWordChar(s[m]))
    && (forall m | k <= m < d :: s[m] != '/')
    && s[d] == '.'
  }

  /** Some match of the pattern starts at `p` with group 1 ending at `k`. */
  ghost predicate GroupAdmitsMatch(s: string, p: int, k: int) {
    exists d :: PatternMatch(s, p, k, d)
  }

  /** Some match of the pattern starts at `p`. */
  ghost predicate MatchStartsAt(s: string, p: int) {
    exists k :: GroupAdmitsMatch(s, p, k)
  }

  /** `p` is the leftmost start of a match: where `re.search` stops scanning. */
  ghost predicate LeftmostStart(s: string, p: int) {
    MatchStartsAt(s, p) && forall q | q < p :: !MatchStartsAt(s, q)
  }

  /**
   * `k` is where group 1 ends in the match found at `p`: the greedy `+` tries
   * the longest run first and gives characters back only while the rest of
   * the pattern fails, so it is the largest end with which a match exists.
   */
  ghost predicate GreedyGroupEnd(s: string, p: int, k: int) {
    GroupAdmitsMatch(s, p, k) && forall k' | GroupAdmitsMatch(s, p, k') :: k' <= k
  }

  /** What `re.search(...)` followed by `group(1)` yields, `None` when the search fails. */
  ghost predicate IsSearchResult(s: string, name: Option<string>) {
    match name
    case None => forall p :: !MatchStartsAt(s, p)
    case Some(n) =>
      exists p | LeftmostStart(s, p) ::
        && 0 <= p && p + 1 + |n| <= |s|
        && s[p + 1 .. p + 1 + |n|] == n
        && GreedyGroupEnd(s, p, p + 1 + |n|)
  }

  /** `DotBeforeSlash` is the tail `[^/]*\.` of the pattern. */
  lemma {:induction false} DotBeforeSlashIff(s: string, i: nat)
    requires i <= |s|
    ensures DotBeforeSlash(s, i) <==>
      exists d | i <= d < |s| :: s[d] == '.' && forall m | i <= m < d :: s[m] != '/'
    decreases |s| - i
  {
    if i < |s| && s[i] != '/' && s[i] != '.' {
      DotBeforeSlashIff(s, i + 1);
      if DotBeforeSlash(s, i + 1) {
        var d :| i + 1 <= d < |s| && s[d] == '.' && forall m | i + 1 <= m < d :: s[m] != '/';
        assert forall m | i <= m < d :: s[m] != '/';
      }
      if exists d | i <= d < |s| :: s[d] == '.' && forall m | i <= m < d :: s[m] != '/' {
        var d :| i <= d < |s| && s[d] == '.' && forall m | i <= m < d :: s[m] != '/';
        assert forall m | i + 1 <= m < d :: s[m] != '/';
      }
    }
  }

  /** No match has a group longer than the run of word characters after the `/`. */
  lemma GroupWithinRun(s: string, p: int, k: int)
    requires GroupAdmitsMatch(s, p, k)
    ensures p + 1 < |s| && k <= RunEnd(s, p + 1)
  {
    var d :| PatternMatch(s, p, k, d);
    var j := RunEnd(s, p + 1);
    assert j == |s| || !IsWordChar(s[j]);
  }

  /**
   * At a fixed start, the pattern matches exactly when `MatchesAt` holds, and
   * then the greedy group ends at `RunEnd`: that end admits a match, and no
   * match has a longer group.
   */
  lemma MatchesAtIsPattern(s: string, p: nat)
    ensures MatchesAt(s, p) <==> MatchStartsAt(s, p)
    ensures MatchesAt(s, p) ==> GroupAdmitsMatch(s, p, RunEnd(s, p + 1))
  {
    if MatchesAt(s, p) {
      var j := RunEnd(s, p + 1);
      DotBeforeSlashIff(s, j);
      var d :| j <= d < |s| && s[d] == '.' && forall m | j <= m < d :: s[m] != '/';
      assert PatternMatch(s, p, j, d);
      assert GroupAdmitsMatch(s, p, j);
    }
    if MatchStartsAt(s, p) {
      var k :| GroupAdmitsMatch(s, p, k);
      var d :| PatternMatch(s, p, k, d);
      var j := RunEnd(s, p + 1);
      assert IsWordChar(s[p + 1]);
      // The run holds no `.`, so the `.` at `d` lies at or after its end.
      assert !IsWordChar(s[d]);
      assert j <= d;
      assert j <= d < |s| && s[d] == '.' && forall m | j <= m < d :: s[m] != '/';
      DotBeforeSlashIff(s, j);
      assert MatchesAt(s, p);
    }
  }

  /** Matches start only inside the string, exactly where `MatchesAt` holds. */
  lemma StartIffMatchesAt(s: string, p: int)
    ensures MatchStartsAt(s, p) <==> 0 <= p < |s| && MatchesAt(s, p)
  {
    if MatchStartsAt(s, p) {
      var k :| GroupAdmitsMatch(s, p, k);
      GroupWithinRun(s, p, k);
    }
    if 0 <= p < |s| {
      MatchesAtIsPattern(s, p);
    }
  }

  /** `extract_table_name` returns exactly what `re.search` and `group(1)` give. */
  lemma ExtractTableNameIsSearch(path: string)
    ensures IsSearchResult(path, ExtractTableName(path))
  {
    match FirstMatch(path, 0)
    case None => NoMatchIsFailedSearch(path);
    case Some(p) => FirstMatchIsSearch(path, p);
  }

  /** When the scan finds nothing, the pattern matches nowhere. */
  lemma NoMatchIsFailedSearch(path: string)
    requires FirstMatch(path, 0).None?
    ensures IsSearchResult(path, None)
  {
    forall p: int ensures !MatchStartsAt(path, p) {
      StartIffMatchesAt(path, p);
    }
  }

  /** Where the scan stops, the search's match starts, and its group ends at the run's end. */
  lemma FirstMatchIsSearch(path: string, p: nat)
    requires FirstMatch(path, 0) == Some(p)
    ensures p + 1 < |path|
    ensures IsSearchResult(path, Some(path[p + 1 .. RunEnd(path, p + 1)]))
  {
    FirstMatchIsLeftmost(path, p);
    RunEndIsGreedy(path, p);
    GroupOfLeftmostGreedy(path, p, RunEnd(path, p + 1));
  }

  /** The group of a leftmost match, ended greedily, is what the search yields. */
  lemma GroupOfLeftmostGreedy(s: string, p: nat, j: nat)
    requires p + 1 <= j <= |s|
    requires LeftmostStart(s, p) && GreedyGroupEnd(s, p, j)
    ensures IsSearchResult(s, Some(s[p + 1 .. j]))
  {
    var n := s[p + 1 .. j];
    assert p + 1 + |n| == j;
  }

  /** The scan stops at the leftmost start of a match. */
  lemma FirstMatchIsLeftmost(path: string, p: nat)
    requires FirstMatch(path, 0) == Some(p)
    ensures LeftmostStart(path, p)
  {
    MatchesAtIsPattern(path, p);
    forall q: int | q < p ensures !MatchStartsAt(path, q) {
      StartIffMatchesAt(path, q);
    }
  }

  /** In a match at `p`, the greedy group ends where the run of word characters ends. */
  lemma RunEndIsGreedy(s: string, p: nat)
    requires MatchesAt(s, p)
    ensures GreedyGroupEnd(s, p, RunEnd(s, p + 1))
  {
    MatchesAtIsPattern(s, p);
    forall k | GroupAdmitsMatch(s, p, k) ensures k <= RunEnd(s, p + 1) {
      GroupWithinRun(s, p, k);
    }
  }

  // ---------------------------------------------------------------------
  // Files directly under a directory without dots

  /** `RunEnd` is the only end that closes a run of word characters. */
  lemma RunEndAt(s: string, i: nat, j: nat)
    requires i <= j <= |s|
    requires forall m | i <= m < j :: IsWordChar(s[m])
    requires j == |s| || !IsWordChar(s[j])
    ensures RunEnd(s, i) == j
  {
    var r := RunEnd(s, i);
    assert r == |s| || !IsWordChar(s[r]);
  }

  /** A segment with no `.` up to the `/` at `e` does not match `[^/]*\.`. */
  lemma {:induction false} NoDotBeforeSlash(s: string, i: nat, e: nat)
    requires i <= e < |s| && s[e] == '/'
    requires forall m | i <= m < e :: s[m] != '.'
    ensures !DotBeforeSlash(s, i)
    decreases e - i
  {
    if i < e {
      NoDotBeforeSlash(s, i + 1, e);
    }
  }

  /** The scan stops at the first position where the pattern matches. */
  lemma FirstMatchAt(s: string, p: nat)
    requires p < |s| && MatchesAt(s, p)
    requires forall q | 0 <= q < p :: !MatchesAt(s, q)
    ensures FirstMatch(s, 0) == Some(p)
  {
    var r := FirstMatch(s, 0);
    assert r.Some?;
    assert !(r.value < p);
    assert !(p < r.value);
  }

  /**
   * A file directly under a directory whose path holds no `.`: the name is
   * the leading run of word characters of the file name, provided the file
   * name has a `.` after that run.
   */
  lemma NameOfFileInPlainDirectory(path: string, dir: string, name: string, tail: string)
    requires path == dir + "/" + name + tail
    requires '.' !in dir
    requires |name| > 0 && forall c | c in name :: IsWordChar(c)
    requires |tail| > 0 && !IsWordChar(tail[0]) && '/' !in tail && '.' in tail
    ensures ExtractTableName(path) == Some(name)
  {
    var s := path;
    var e := |dir|;
    assert s[e] == '/';
    forall p | 0 <= p < e ensures !MatchesAt(s, p) {
      if p + 1 < |s| && s[p] == '/' && IsWordChar(s[p + 1]) {
        var j := RunEnd(s, p + 1);
        assert !IsWordChar(s[e]);
        assert j <= e;
        forall m | j <= m < e ensures s[m] != '.' {
          assert s[m] == dir[m];
        }
        NoDotBeforeSlash(s, j, e);
      }
    }
    var k := e + 1 + |name|;
    forall m | e + 1 <= m < k ensures IsWordChar(s[m]) {
      assert s[m] == name[m - e - 1];
    }
    assert s[k] == tail[0];
    RunEndAt(s, e + 1, k);
    var t :| 0 <= t < |tail| && tail[t] == '.';
    assert s[k + t] == '.';
    forall m | k <= m < k + t ensures s[m] != '/' {
      assert s[m] == tail[m - k];
    }
    DotBeforeSlashIff(s, k);
    assert MatchesAt(s, e);
    FirstMatchAt(s, e);
    assert s[e + 1 .. k] == name;
  }

  // ---------------------------------------------------------------------
  // Concrete paths

  /** The file of the worked example: `edm_entity1.csv` maps to table `edm_entity1`. */
  lemma PlainFileName()
    ensures ExtractTableName("s3://your-bucket/landing-zone/edm_entity1.csv") == Some("edm_entity1")
  {
    var dir, name, tail := "s3://your-bucket/landing-zone", "edm_entity1", ".csv";
    PlainFileNameParts();
    LandingZoneHasNoDot();
    NameOfFileInPlainDirectory("s3://your-bucket/landing-zone/edm_entity1.csv", dir, name, tail);
  }

  /** How that path splits: a directory without `.`, a run of word characters, then `.csv`. */
  lemma PlainFileNameParts()
    ensures "s3://your-bucket/landing-zone/edm_entity1.csv"
            == "s3://your-bucket/landing-zone" + "/" + "edm_entity1" + ".csv"
    ensures forall c | c in "edm_entity1" :: IsWordChar(c)
  {
    assert WordCharsFrom("edm_entity1", 0);
    WordCharsFromAll("edm_entity1", 0);
  }

  /** The notebook's landing zone holds no `.`. */
  lemma LandingZoneHasNoDot()
    ensures '.' !in "s3://your-bucket/landing-zone"
  {
  }

  /** Every character of `s` from `i` on is a word character, checked one at a time. */
  predicate WordCharsFrom(s: string, i: nat)
    decreases |s| - i
  {
    i >= |s| || (IsWordChar(s[i]) && WordCharsFrom(s, i + 1))
  }

  lemma WordCharsFromAll(s: string, i: nat)
    requires WordCharsFrom(s, i)
    ensures forall m | i <= m < |s| :: IsWordChar(s[m])
    decreases |s| - i
  {
    if i < |s| {
      WordCharsFromAll(s, i + 1);
    }
  }

  /**
   * For the file name used as an example in the notebook's comments the code
   * yields `edm_entity_2024`, not `edm_entity`: the run of word characters
   * stops only at the `-`. This holds under any directory without a `.`,
   * such as the notebook's landing zone.
   */
  lemma DatedFileNameKeepsYear(dir: string)
    requires '.' !in dir
    ensures ExtractTableName(dir + "/edm_entity_2024-06-01.csv") == Some("edm_entity_2024")
  {
    var name, tail := "edm_entity_2024", "-06-01.csv";
    DatedFileNameParts();
    assert dir + "/edm_entity_2024-06-01.csv" == dir + "/" + name + tail;
    NameOfFileInPlainDirectory(dir + "/edm_entity_2024-06-01.csv", dir, name, tail);
  }

  /** How that file name splits: a run of word characters, then a tail starting at the `-`. */
  lemma DatedFileNameParts()
    ensures "/edm_entity_2024-06-01.csv" == "/" + "edm_entity_2024" + "-06-01.csv"
    ensures forall c | c in "edm_entity_2024" :: IsWordChar(c)
    ensures !IsWordChar("-06-01.csv"[0]) && '.' in "-06-01.csv" && '/' !in "-06-01.csv"
  {
    assert WordCharsFrom("edm_entity_2024", 0);
    WordCharsFromAll("edm_entity_2024", 0);
    assert "-06-01.csv"[6] == '.';
  }

  /**
   * The search is not limited to the file name: a `.` in an earlier segment
   * wins, so under a bucket whose name holds a dot every path yields the
   * start of the bucket name, whatever file it names.
   */
  lemma DottedBucketShadowsFileName(rest: string)
    ensures ExtractTableName("s3://my." + rest) == Some("my")
  {
    var s := "s3://my." + rest;
    DottedBucketMatchesAtSlash(rest);
    FirstMatchAt(s, 4);
    assert s[5..7] == "my";
  }

  /** In such a path the pattern first matches at the second `/` of `s3://`, with run `my`. */
  lemma DottedBucketMatchesAtSlash(rest: string)
    ensures var s := "s3://my." + rest;
      && MatchesAt(s, 4) && RunEnd(s, 5) == 7
      && forall q | 0 <= q < 4 :: !MatchesAt(s, q)
  {
    var s := "s3://my." + rest;
    assert s[..8] == "s3://my.";
    assert s[0] == 's' && s[1] == '3' && s[2] == ':' && s[3] == '/' && s[4] == '/';
    assert s[5] == 'm' && s[6] == 'y' && s[7] == '.';
    assert RunEnd(s, 7) == 7;
    assert RunEnd(s, 5) == 7;
    assert DotBeforeSlash(s, 7);
    assert !MatchesAt(s, 3);
  }
}
