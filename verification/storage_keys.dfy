/** The object-store keys and local paths the web service derives from a user name and
    a file name (app.py), and the number of row chunks a query's dataset is cut into.
    A key's last segment is what `key.split('/')[-1]` yields. */
module StorageKeys {
  import opened Wrappers
  import opened Text

  const Slash := "/"
  /** Where `/query` downloads the dataset before reading it. */
  const TmpDir := "/tmp/"
  /** The folder, under each user's name, that holds query results. */
  const ResultsDir := "/processed-results/"
  const CsvExt := ".csv"
  const ResultSuffix := "_result.json"
  /** Rows per chunk in `/query`. */
  const ChunkSize := 50

  // ---------------------------------------------------------------- last segment

  /** `b` is the last `/`-separated segment of `key`: a suffix without `/` that is
      either all of `key` or preceded by a `/`. */
  predicate IsLastSegment(key: string, b: string) {
    && '/' !in b
    && |b| <= |key| && b == key[|key| - |b|..]
    && (b == key || (|b| < |key| && key[|key| - |b| - 1] == '/'))
  }

  /** A key has only one last segment. */
  lemma {:induction false} LastSegmentUnique(key: string, b1: string, b2: string)
    requires IsLastSegment(key, b1) && IsLastSegment(key, b2)
    ensures b1 == b2
  {
  }

  /** A string in which `/` does not occur holds no `/` character. */
  lemma {:induction false} NoSlash(t: string)
    requires !Contains(t, Slash)
    ensures '/' !in t
    decreases |t|
  {
    if |t| > 0 {
      assert !StartsWith(t, Slash);
      NoSlash(t[1..]);
      assert t == [t[0]] + t[1..];
    }
  }

  /** `key.split('/')[-1]`. */
  function Basename(key: string): (b: string)
    ensures IsLastSegment(key, b)
  {
    var parts := Split(key, Slash);
    LastSegmentOfSplit(key, parts);
    parts[|parts| - 1]
  }

  /** The last piece of `key.split('/')` is the key's last segment. */
  lemma {:induction false} LastSegmentOfSplit(key: string, parts: seq<string>)
    requires parts == Split(key, Slash)
    ensures IsLastSegment(key, parts[|parts| - 1])
  {
    SplitLast(key, Slash);
    SplitPiecesFree(key, Slash);
    var b := parts[|parts| - 1];
    NoSlash(b);
    SlashBefore(key, parts);
  }

  lemma {:induction false} SlashBefore(key: string, parts: seq<string>)
    requires |parts| >= 1 && LastPieceOf(key, Slash, parts)
    ensures var b := parts[|parts| - 1];
            |parts| > 1 ==> |b| < |key| && key[|key| - |b| - 1] == '/'
  {
    var b := parts[|parts| - 1];
    if |parts| > 1 {
      var head := key[..|key| - |b|];
      assert head[|head| - 1..] == Slash;
      assert head[|head| - 1] == '/';
    }
  }

  // ---------------------------------------------------------------- keys

  /** `/upload`: the object key of a file is the user name, a slash and the file name. */
  function FileKey(user: string, filename: string): (key: string)
    ensures StartsWith(key, user + Slash) && EndsWith(key, filename)
  {
    var key := user + Slash + filename;
    assert key[..|user + Slash|] == user + Slash;
    assert key[|key| - |filename|..] == filename;
    key
  }

  /** The last segment of an upload's key is the file name it was uploaded under,
      when that name holds no slash. */
  lemma {:induction false} BasenameOfFileKey(user: string, filename: string)
    requires '/' !in filename
    ensures Basename(FileKey(user, filename)) == filename
  {
    var key := FileKey(user, filename);
    assert key[|key| - |filename|..] == filename;
    assert key[|key| - |filename| - 1] == '/';
    LastSegmentUnique(key, Basename(key), filename);
  }

  /** `/query`: the local path the dataset is downloaded to, in `/tmp/` and named after
      the key's last segment. */
  function DatasetPath(fileKey: string): (path: string)
    ensures StartsWith(path, TmpDir)
    ensures IsLastSegment(fileKey, path[|TmpDir|..])
  {
    var b := Basename(fileKey);
    assert (TmpDir + b)[|TmpDir|..] == b;
    TmpDir + b
  }

  /** The download path depends on the file name only: two users querying files of
      the same name use the same local path. */
  lemma {:induction false} SharedDatasetPath(u1: string, u2: string, filename: string)
    requires '/' !in filename
    ensures DatasetPath(FileKey(u1, filename)) == DatasetPath(FileKey(u2, filename)) == TmpDir + filename
  {
    BasenameOfFileKey(u1, filename);
    BasenameOfFileKey(u2, filename);
  }

  /** `/results`: the prefix under which a user's results are listed. */
  function ResultsPrefix(user: string): (prefix: string)
    ensures StartsWith(prefix, user + Slash) && EndsWith(prefix, Slash)
  {
    var prefix := user + ResultsDir;
    assert prefix[..|user + Slash|] == user + Slash;
    prefix
  }

  /** `/query`: the key the result is stored under — the user's results folder, then the
      key's last segment with every `.csv` replaced by `_result.json`. */
  function ResultKey(user: string, fileKey: string): (key: string)
    ensures StartsWith(key, ResultsPrefix(user))
    ensures '/' !in key[|ResultsPrefix(user)|..]
  {
    var b := Basename(fileKey);
    var leaf := Replace(b, CsvExt, ResultSuffix);
    ReplaceCharAbsent(b, CsvExt, ResultSuffix, '/');
    assert (ResultsPrefix(user) + leaf)[|ResultsPrefix(user)|..] == leaf;
    ResultsPrefix(user) + leaf
  }

  /** The key of a result, and the local dataset path, for a `file_key` field that may
      be missing: without one, `/query` fails (and answers 500) before any key exists. */
  datatype QueryKeys = QueryKeys(datasetPath: string, resultKey: string)

  function KeysForQuery(user: string, fileKey: Option<string>): (r: Option<QueryKeys>)
    ensures r.None? <==> fileKey.None?
    ensures r.Some? ==> StartsWith(r.value.datasetPath, TmpDir)
                        && StartsWith(r.value.resultKey, ResultsPrefix(user))
  {
    match fileKey
    case None => None
    case Some(k) => Some(QueryKeys(DatasetPath(k), ResultKey(user, k)))
  }

  /** Replacing a pattern in a string that ends with it and has no other occurrence
      replaces just that ending, when the pattern's first character does not recur in
      it (as the `.` of `.csv` does not): no occurrence can straddle the boundary. */
  lemma {:induction false} ReplaceEnding(stem: string, pat: string, repl: string)
    requires |pat| > 0 && pat[0] !in pat[1..] && !Contains(stem, pat)
    ensures Replace(stem + pat, pat, repl) == stem + repl
    decreases |stem|
  {
    var s := stem + pat;
    if |stem| == 0 {
      assert s == pat;
      assert s[|pat|..] == [];
    } else {
      assert !StartsWith(stem, pat) && !Contains(stem[1..], pat);
      NoStartBeforeEnding(stem, pat);
      assert Replace(s, pat, repl) == [s[0]] + Replace(s[1..], pat, repl);
      assert s[1..] == stem[1..] + pat;
      ReplaceEnding(stem[1..], pat, repl);
      assert [stem[0]] + (stem[1..] + repl) == stem + repl;
    }
  }

  /** Under the same conditions, `stem + pat` does not start with `pat` for a non-empty
      `stem`. */
  lemma {:induction false} NoStartBeforeEnding(stem: string, pat: string)
    requires |pat| > 0 && pat[0] !in pat[1..] && |stem| > 0 && !StartsWith(stem, pat)
    ensures !StartsWith(stem + pat, pat)
  {
    var s := stem + pat;
    var k := |stem|;
    if k >= |pat| {
      assert s[..|pat|] == stem[..|pat|];
    } else {
      assert pat[k] == pat[1..][k - 1];
      assert s[k] == pat[0] != pat[k];
    }
  }

  /** A result for `name.csv`, where `name` holds no `.csv` of its own, is stored as
      `name_result.json` under the querying user's results folder. */
  lemma {:induction false} ResultKeyOfCsv(user: string, owner: string, stem: string)
    requires '/' !in stem && !Contains(stem, CsvExt)
    ensures ResultKey(user, FileKey(owner, stem + CsvExt)) == ResultsPrefix(user) + stem + ResultSuffix
  {
    assert '/' !in stem + CsvExt;
    BasenameOfFileKey(owner, stem + CsvExt);
    assert CsvExt[0] !in CsvExt[1..];
    ReplaceEnding(stem, CsvExt, ResultSuffix);
  }

  /** A file name that does not contain `.csv` is kept as it is in the result key. */
  lemma {:induction false} ResultKeyOfOther(user: string, owner: string, name: string)
    requires '/' !in name && !Contains(name, CsvExt)
    ensures ResultKey(user, FileKey(owner, name)) == ResultsPrefix(user) + name
  {
    BasenameOfFileKey(owner, name);
    ReplaceAbsent(name, CsvExt, ResultSuffix);
  }

  /** For user names without a slash, a user's results prefix never matches another
      user's result key: `/results` lists only the caller's own results. */
  lemma {:induction false} ResultsIsolated(u1: string, u2: string, fileKey: string)
    requires '/' !in u1 && '/' !in u2
    ensures StartsWith(ResultKey(u1, fileKey), ResultsPrefix(u2)) <==> u1 == u2
  {
    var key := ResultKey(u1, fileKey);
    if StartsWith(key, ResultsPrefix(u2)) {
      assert key[..|u1|] == u1 && key[|u1|] == '/';
      assert key[..|u2|] == u2 && key[|u2|] == '/';
    }
  }

  /** Without the slash-free assumption isolation fails: a user whose name is another
      user's results prefix followed by anything writes result keys under that other
      user's prefix, so they appear in the other user's `/results` listing. */
  lemma {:induction false} ResultsLeak(victim: string, rest: string, fileKey: string)
    ensures var intruder := ResultsPrefix(victim) + rest;
            && intruder != victim
            && StartsWith(ResultKey(intruder, fileKey), ResultsPrefix(victim))
  {
    var p := ResultsPrefix(victim);
    var key := ResultKey(p + rest, fileKey);
    assert |p + rest| > |victim|;
    assert key[..|p + rest|] == p + rest;
    assert key[..|p|] == (p + rest)[..|p|];
  }

  /** The same leak without any query: a user named after another user's results
      prefix uploads a file, and its key `{user}/{filename}` lies under that prefix,
      so the other user's `/results` listing reads it. */
  lemma {:induction false} UploadLeak(victim: string, rest: string, filename: string)
    ensures var intruder := ResultsPrefix(victim) + rest;
            && intruder != victim
            && StartsWith(FileKey(intruder, filename), ResultsPrefix(victim))
  {
    var p := ResultsPrefix(victim);
    var key := FileKey(p + rest, filename);
    assert |p + rest| > |victim|;
    assert key[..|p|] == p;
  }

  /** For user names without a slash, no upload of one user lies under another
      user's results prefix. */
  lemma {:induction false} UploadIsolated(u1: string, u2: string, filename: string)
    requires '/' !in u1 && '/' !in u2
    ensures StartsWith(FileKey(u1, filename), ResultsPrefix(u2)) ==> u1 == u2
  {
    var key := FileKey(u1, filename);
    if StartsWith(key, ResultsPrefix(u2)) {
      assert key[..|u1|] == u1 && key[|u1|] == '/';
      assert key[..|u2|] == u2 && key[|u2|] == '/';
    }
  }

  // ---------------------------------------------------------------- chunks

  /** `len(dataset) // chunk_size + 1`: the least number of chunks of at most 50 rows
      that is larger than `rows / 50` — one more than needed when 50 divides `rows`. */
  function ChunkCount(rows: nat): (n: nat)
    ensures n >= 1
    ensures ChunkSize * (n - 1) <= rows < ChunkSize * n
  {
    rows / ChunkSize + 1
  }
}
