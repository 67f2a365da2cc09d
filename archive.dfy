/**
 * Where a processed file is moved: `archive_zone + file_path.replace(landing_zone, '')`.
 * `Replace` is Python's `str.replace` for a non-empty pattern: every
 * non-overlapping occurrence, scanning from the left, is replaced.
 */
module Archive {

  /** `pat` occurs in `s` at index `i`. */
  predicate OccursAt(s: string, pat: string, i: nat) {
    i + |pat| <= |s| && s[i .. i + |pat|] == pat
  }

  /** `s.replace(pat, rep)`. */
  function Replace(s: string, pat: string, rep: string): (r: string)
    requires |pat| > 0
    ensures (forall i | 0 <= i <= |s| :: !OccursAt(s, pat, i)) ==> r == s
    decreases |s|
  {
    if |s| < |pat| then s
    else if s[..|pat|] == pat then
      assert OccursAt(s, pat, 0);
      rep + Replace(s[|pat|..], pat, rep)
    else
      assert forall i | 0 <= i <= |s| - 1 :: OccursAt(s[1..], pat, i) ==> OccursAt(s, pat, i + 1);
      [s[0]] + Replace(s[1..], pat, rep)
  }

  /** `s.split(pat)`: the pieces between the non-overlapping occurrences, scanning from the left. */
  function Split(s: string, pat: string): (pieces: seq<string>)
    requires |pat| > 0
    ensures |pieces| > 0
    decreases |s|
  {
    if |s| < |pat| then [s]
    else if s[..|pat|] == pat then [[]] + Split(s[|pat|..], pat)
    else
      var rest := Split(s[1..], pat);
      [[s[0]] + rest[0]] + rest[1..]
  }

  /** `sep.join(pieces)`. */
  function Join(pieces: seq<string>, sep: string): string
    requires |pieces| > 0
    decreases |pieces|
  {
    if |pieces| == 1 then pieces[0] else pieces[0] + sep + Join(pieces[1..], sep)
  }

  /** Extending the first piece extends the joined string at its front. */
  lemma JoinExtendsFirst(c: char, pieces: seq<string>, sep: string)
    requires |pieces| > 0
    ensures Join([[c] + pieces[0]] + pieces[1..], sep) == [c] + Join(pieces, sep)
  {
    var ext := [[c] + pieces[0]] + pieces[1..];
    if |pieces| > 1 {
      assert ext[1..] == pieces[1..];
    }
  }

  /** `s.replace(pat, rep) == rep.join(s.split(pat))`. */
  lemma {:induction false} ReplaceIsJoinOfSplit(s: string, pat: string, rep: string)
    requires |pat| > 0
    ensures Replace(s, pat, rep) == Join(Split(s, pat), rep)
    decreases |s|
  {
    if |s| < |pat| {
    } else if s[..|pat|] == pat {
      ReplaceIsJoinOfSplit(s[|pat|..], pat, rep);
    } else {
      ReplaceIsJoinOfSplit(s[1..], pat, rep);
      JoinExtendsFirst(s[0], Split(s[1..], pat), rep);
    }
  }

  /** Joining the pieces of a split with the same separator restores the string. */
  lemma {:induction false} JoinOfSplitRestores(s: string, pat: string)
    requires |pat| > 0
    ensures Join(Split(s, pat), pat) == s
    decreases |s|
  {
    if |s| < |pat| {
    } else if s[..|pat|] == pat {
      var rest := Split(s[|pat|..], pat);
      JoinOfSplitRestores(s[|pat|..], pat);
      assert ([[]] + rest)[1..] == rest;
      assert Join([[]] + rest, pat) == [] + pat + Join(rest, pat);
      assert pat + s[|pat|..] == s;
    } else {
      JoinOfSplitRestores(s[1..], pat);
      JoinExtendsFirst(s[0], Split(s[1..], pat), pat);
      assert [s[0]] + s[1..] == s;
    }
  }

  /** No occurrence of `pat` starts inside a piece of what is left to scan from that piece on. */
  predicate CutsAtLeftmost(pieces: seq<string>, pat: string) {
    forall i, j | 0 <= i < |pieces| && 0 <= j < |pieces[i]| :: !OccursAt(Join(pieces[i..], pat), pat, j)
  }

  /**
   * `split` cuts at the leftmost occurrences, without overlaps. With
   * `JoinOfSplitRestores` this fixes the pieces, and with
   * `ReplaceIsJoinOfSplit` it fixes which occurrences `Replace` replaces.
   */
  lemma {:induction false} SplitCutsAtLeftmost(s: string, pat: string)
    requires |pat| > 0
    ensures CutsAtLeftmost(Split(s, pat), pat)
    decreases |s|
  {
    var pieces := Split(s, pat);
    if |s| < |pat| {
      assert pieces[0..] == [s];
    } else if s[..|pat|] == pat {
      var rest := Split(s[|pat|..], pat);
      SplitCutsAtLeftmost(s[|pat|..], pat);
      forall i, j | 0 <= i < |pieces| && 0 <= j < |pieces[i]|
        ensures !OccursAt(Join(pieces[i..], pat), pat, j)
      {
        assert i > 0;
        assert pieces[i..] == rest[i - 1..];
      }
    } else {
      var rest := Split(s[1..], pat);
      SplitCutsAtLeftmost(s[1..], pat);
      forall i, j | 0 <= i < |pieces| && 0 <= j < |pieces[i]|
        ensures !OccursAt(Join(pieces[i..], pat), pat, j)
      {
        if i > 0 {
          assert pieces[i..] == rest[i..];
        } else {
          FirstPieceHasNoOccurrence(s, pat, j);
        }
      }
    }
  }

  /** When `s` does not start with `pat`, no occurrence starts inside the first piece. */
  lemma FirstPieceHasNoOccurrence(s: string, pat: string, j: nat)
    requires |pat| > 0 && |s| >= |pat| && s[..|pat|] != pat
    requires CutsAtLeftmost(Split(s[1..], pat), pat)
    requires j < |Split(s, pat)[0]|
    ensures !OccursAt(Join(Split(s, pat)[0..], pat), pat, j)
  {
    var rest := Split(s[1..], pat);
    var pieces := Split(s, pat);
    assert pieces[0] == [s[0]] + rest[0];
    JoinOfSplitRestores(s[1..], pat);
    assert rest[0..] == rest;
    forall m | 0 <= m < |rest[0]| ensures !OccursAt(s[1..], pat, m) {
      assert !OccursAt(Join(rest[0..], pat), pat, m);
    }
    assert !OccursAt(s, pat, 0);
    NoOccurrenceAfterFirst(s, pat, |rest[0]|);
    JoinOfSplitRestores(s, pat);
    assert pieces[0..] == pieces;
  }

  /** An occurrence at `j > 0` in `s` is one at `j - 1` in `s[1..]`. */
  lemma NoOccurrenceAfterFirst(s: string, pat: string, n: nat)
    requires |s| > 0 && !OccursAt(s, pat, 0)
    requires forall m | 0 <= m < n :: !OccursAt(s[1..], pat, m)
    ensures forall j | 0 <= j <= n :: !OccursAt(s, pat, j)
  {
    forall j | 0 < j <= n ensures !OccursAt(s, pat, j) {
      if OccursAt(s, pat, j) {
        assert s[j .. j + |pat|] == s[1..][j - 1 .. j - 1 + |pat|];
        assert OccursAt(s[1..], pat, j - 1);
      }
    }
  }

  /** A string that does not start with `pat` keeps its first character and is replaced from the next one on. */
  lemma ReplaceNonLeading(c: char, rest: string, pat: string, rep: string)
    requires |pat| > 0
    requires !OccursAt([c] + rest, pat, 0)
    ensures Replace([c] + rest, pat, rep) == [c] + Replace(rest, pat, rep)
  {
    assert ([c] + rest)[1..] == rest;
  }

  /** An occurrence that is not at the front is replaced too: `"xab".replace("ab", "")` is `"x"`. */
  lemma ReplaceInsideString()
    ensures Replace("xab", "ab", "") == "x"
  {
    assert "xab" == ['x'] + "ab";
    assert "xab"[0 .. 2][0] == 'x';
    ReplaceNonLeading('x', "ab", "ab", "");
    ReplaceLeading("ab", "", "");
  }

  /** An occurrence at the very front is replaced, and scanning resumes after it. */
  lemma ReplaceLeading(pat: string, rest: string, rep: string)
    requires |pat| > 0
    ensures Replace(pat + rest, pat, rep) == rep + Replace(rest, pat, rep)
  {
    assert (pat + rest)[..|pat|] == pat;
    assert (pat + rest)[|pat|..] == rest;
  }

  /** `archive_zone + file_path.replace(landing_zone, '')`. */
  function ArchivePath(archiveZone: string, landingZone: string, path: string): (r: string)
    requires |landingZone| > 0
    ensures |archiveZone| <= |r| && r[..|archiveZone|] == archiveZone
  {
    archiveZone + Replace(path, landingZone, "")
  }

  /**
   * A file listed directly under the landing zone lands at the same relative
   * path under the archive zone, provided the landing zone does not occur
   * again in the relative path.
   */
  lemma ArchivePathOfLandedFile(archiveZone: string, landingZone: string, path: string, rest: string)
    requires |landingZone| > 0
    requires path == landingZone + rest
    requires forall i | 0 <= i <= |rest| :: !OccursAt(rest, landingZone, i)
    ensures ArchivePath(archiveZone, landingZone, path) == archiveZone + rest
  {
    ReplaceLeading(landingZone, rest, "");
  }

  /**
   * A path that does not contain the landing zone is archived under its full
   * path, appended to the archive zone.
   */
  lemma ArchivePathOutsideLandingZone(archiveZone: string, landingZone: string, path: string)
    requires |landingZone| > 0
    requires forall i | 0 <= i <= |path| :: !OccursAt(path, landingZone, i)
    ensures ArchivePath(archiveZone, landingZone, path) == archiveZone + path
  {
  }

  /** The worked example: the notebook's landing zone is swapped for its archive zone. */
  lemma ArchiveOfExampleFile()
    ensures ArchivePath("s3://your-bucket/archive-zone/", "s3://your-bucket/landing-zone/",
                        "s3://your-bucket/landing-zone/edm_entity1.csv")
         == "s3://your-bucket/archive-zone/edm_entity1.csv"
  {
    ExampleFileIsLanded();
    ArchivePathOfLandedFile("s3://your-bucket/archive-zone/", "s3://your-bucket/landing-zone/",
                            "s3://your-bucket/landing-zone/edm_entity1.csv", "edm_entity1.csv");
  }

  /** The example file sits directly under the landing zone, which its name does not contain. */
  lemma ExampleFileIsLanded()
    ensures "s3://your-bucket/landing-zone/edm_entity1.csv"
         == "s3://your-bucket/landing-zone/" + "edm_entity1.csv"
    ensures forall i | 0 <= i <= |"edm_entity1.csv"| :: !OccursAt("edm_entity1.csv", "s3://your-bucket/landing-zone/", i)
    ensures "s3://your-bucket/archive-zone/edm_entity1.csv"
         == "s3://your-bucket/archive-zone/" + "edm_entity1.csv"
  {
    assert |"edm_entity1.csv"| < |"s3://your-bucket/landing-zone/"|;
  }
}
