/**
 * `detect_format` of the notebook: the text after the last `.` of the path
 * (`split('.')[-1]`), lower-cased, is the format when it names one of the
 * supported readers; every other path is read as CSV.
 */
module FileFormat {

  /** The formats the notebook accepts verbatim, in the order it lists them. */
  const Supported: seq<string> := ["csv", "json", "parquet", "txt"]

  /**
   * `s.split('.')[-1]`: the text after the last `.`, or the whole string
   * when it has none.
   */
  function LastPiece(s: string): (ext: string)
    ensures |ext| <= |s| && ext == s[|s| - |ext|..]
    ensures '.' !in ext
    ensures |ext| < |s| ==> s[|s| - |ext| - 1] == '.'
    decreases |s|
  {
    if s == [] then []
    else if s[|s| - 1] == '.' then []
    else
      var init := s[..|s| - 1];
      var e := LastPiece(init);
      var ext := e + [s[|s| - 1]];
      assert s == init + [s[|s| - 1]];
      assert s[|s| - |ext|..] == init[|init| - |e|..] + [s[|s| - 1]];
      assert |ext| < |s| ==> s[|s| - |ext| - 1] == init[|init| - |e| - 1];
      ext
  }

  /** ASCII lower-casing of one character; every other character is kept. */
  function LowerChar(c: char): (l: char)
    ensures 'A' <= c <= 'Z' ==> 'a' <= l <= 'z' && l as int - 'a' as int == c as int - 'A' as int
    ensures !('A' <= c <= 'Z') ==> l == c
  {
    if 'A' <= c <= 'Z' then (c as int - 'A' as int + 'a' as int) as char else c
  }

  /** `str.lower()` restricted to ASCII letters. */
  function Lower(s: string): (l: string)
    ensures |l| == |s|
    ensures forall i | 0 <= i < |s| :: l[i] == LowerChar(s[i])
  {
    if s == [] then [] else [LowerChar(s[0])] + Lower(s[1..])
  }

  /** `detect_format(file_path)`. */
  function DetectFormat(path: string): (format: string)
    ensures format in Supported
  {
    var ext := Lower(LastPiece(path));
    if ext in Supported then ext else "csv"
  }

  /** The last piece is exactly the text after the final `.`. */
  lemma {:induction false} LastPieceAfterDot(head: string, ext: string)
    requires '.' !in ext
    ensures LastPiece(head + "." + ext) == ext
    decreases |ext|
  {
    var s := head + "." + ext;
    if ext != [] {
      var init := ext[..|ext| - 1];
      assert s[..|s| - 1] == head + "." + init;
      assert ext[|ext| - 1] in ext;
      LastPieceAfterDot(head, init);
      assert init + [ext[|ext| - 1]] == ext;
    }
  }

  /** A string with no `.` is its own last piece. */
  lemma LastPieceWithoutDot(s: string)
    requires '.' !in s
    ensures LastPiece(s) == s
  {
    var e := LastPiece(s);
    assert forall i | 0 <= i < |s| :: s[i] != '.';
    assert |e| == |s|;
    assert s[0..] == s;
  }

  /** The format is decided by the extension alone, ignoring ASCII case. */
  lemma DetectFormatOfExtension(head: string, ext: string)
    requires '.' !in ext
    ensures DetectFormat(head + "." + ext) == if Lower(ext) in Supported then Lower(ext) else "csv"
  {
    LastPieceAfterDot(head, ext);
  }

  /** Two paths whose extensions agree up to ASCII case get the same format. */
  lemma DetectFormatIgnoresCase(head1: string, ext1: string, head2: string, ext2: string)
    requires '.' !in ext1 && '.' !in ext2
    requires Lower(ext1) == Lower(ext2)
    ensures DetectFormat(head1 + "." + ext1) == DetectFormat(head2 + "." + ext2)
  {
    LastPieceAfterDot(head1, ext1);
    LastPieceAfterDot(head2, ext2);
  }

  /** No supported format name holds a `/`. */
  lemma SlashIsNoFormat(l: string)
    requires '/' in l
    ensures l !in Supported
  {
    assert forall f | f in Supported :: '/' !in f;
  }

  /** Lower-casing keeps every character that is not an upper-case letter. */
  lemma LowerKeeps(s: string, c: char)
    requires c in s && !('A' <= c <= 'Z')
    ensures c in Lower(s)
  {
    var i :| 0 <= i < |s| && s[i] == c;
    assert Lower(s)[i] == c;
  }

  /** A path with a `/` and no `.` at all is read as CSV. */
  lemma DetectFormatWithoutExtension(path: string)
    requires '/' in path && '.' !in path
    ensures DetectFormat(path) == "csv"
  {
    LastPieceWithoutDot(path);
    LowerKeeps(path, '/');
    SlashIsNoFormat(Lower(path));
  }

  /** An upper-case extension is lowered before the comparison. */
  lemma UpperCaseExtension()
    ensures DetectFormat("s3://bucket/landing/orders.JSON") == "json"
  {
    assert Lower("JSON") == "json";
    assert "s3://bucket/landing/orders.JSON" == "s3://bucket/landing/orders" + "." + "JSON";
    DetectFormatOfExtension("s3://bucket/landing/orders", "JSON");
  }

  /** Only the text after the last `.` counts: a compressed text file is read as CSV. */
  lemma OnlyLastExtensionCounts()
    ensures DetectFormat("s3://bucket/landing/orders.txt.gz") == "csv"
  {
    assert Lower("gz") == "gz";
    assert "s3://bucket/landing/orders.txt.gz" == "s3://bucket/landing/orders.txt" + "." + "gz";
    DetectFormatOfExtension("s3://bucket/landing/orders.txt", "gz");
  }
}
