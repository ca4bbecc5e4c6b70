/**
 * The commit extractor: `build_commits` and `build_file_commits` turn the commits yielded by the
 * mining library into flat records. The library is an input sequence of `Commit` values.
 */
module Analyzer {
  import opened Wrappers
  import opened Sanitizer

  /** A timestamp as the mining library hands it over; carried, never interpreted. */
  type Timestamp = string

  /** A delta-maintainability score as the mining library hands it over; carried, never interpreted. */
  type Metric = string

  /** The name and e-mail of an author or committer. */
  datatype Developer = Developer(name: string, email: string)

  /** One modified file of a commit; a path is `None` for an added (old) or deleted (new) file. */
  datatype ModifiedFile = ModifiedFile(filename: string, oldPath: Option<string>, newPath: Option<string>)

  /**
   * A commit as the mining library exposes it. Each attribute read inside the `try` blocks is an
   * `Option`: `None` means that reading it raises. The hash is read before the `try`; the model
   * takes that read never to raise, since a raise there would end the whole traversal.
   */
  datatype Commit = Commit(
    hash: string,
    msg: Option<string>,
    author: Option<Developer>,
    committer: Option<Developer>,
    insertions: Option<int>,
    deletions: Option<int>,
    authorDate: Option<Timestamp>,
    authorTimezone: Option<int>,
    committerDate: Option<Timestamp>,
    committerTimezone: Option<int>,
    inMainBranch: Option<bool>,
    merge: Option<bool>,
    files: Option<int>,
    branches: Option<seq<string>>,
    modifiedFiles: Option<seq<ModifiedFile>>,
    dmmUnitSize: Option<Metric>,
    dmmUnitComplexity: Option<Metric>,
    dmmUnitInterfacing: Option<Metric>,
    projectName: Option<string>,
    projectPath: Option<string>)

  /** One row of the commit table. */
  datatype CommitRecord = CommitRecord(
    hash: string,
    message: string,
    authorName: string,
    authorEmail: string,
    authorDate: Timestamp,
    authorTz: int,
    committerName: string,
    committerEmail: string,
    committerDate: Timestamp,
    committerTz: int,
    inMain: bool,
    isMerge: bool,
    numDeletes: int,
    numInserts: int,
    netLines: int,
    numFiles: int,
    branches: string,
    files: string,
    pydrillerFiles: seq<ModifiedFile>,
    dmmUnitSize: Metric,
    dmmUnitComplexity: Metric,
    dmmUnitInterfacing: Metric)

  /** One row of the file-change table: a commit's fields plus one of its modified files. */
  datatype FileCommitRecord = FileCommitRecord(
    hash: string,
    message: string,
    authorName: string,
    authorEmail: string,
    authorDate: Timestamp,
    authorTz: int,
    committerName: string,
    committerEmail: string,
    committerDate: Timestamp,
    committerTz: int,
    inMain: bool,
    isMerge: bool,
    numDeletes: int,
    numInserts: int,
    netLines: int,
    branches: string,
    filename: string,
    oldPath: Option<string>,
    newPath: Option<string>,
    projectName: string,
    projectPath: string)

  /** The total length of the texts `xs`. */
  function TotalLength(xs: seq<string>): nat
  {
    if |xs| == 0 then 0 else |xs[0]| + TotalLength(xs[1..])
  }

  /**
   * Python's `sep.join(xs)`: the texts in order with one separator between neighbours, so the
   * first text starts the result and its length is the texts' plus one separator per gap.
   */
  function Join(sep: string, xs: seq<string>): (r: string)
    ensures |xs| == 0 ==> r == ""
    ensures |xs| > 0 ==> xs[0] <= r
    ensures |r| == TotalLength(xs) + (if |xs| == 0 then 0 else (|xs| - 1) * |sep|)
  {
    if |xs| == 0 then "" else if |xs| == 1 then xs[0] else xs[0] + sep + Join(sep, xs[1..])
  }

  /** Joining appends: one text joins to itself, and a further text follows one more separator. */
  lemma {:induction false} JoinSnoc(sep: string, xs: seq<string>, x: string)
    ensures Join(sep, [x]) == x
    ensures |xs| > 0 ==> Join(sep, xs + [x]) == Join(sep, xs) + sep + x
    decreases |xs|
  {
    if |xs| == 1 {
      assert (xs + [x])[1..] == [x];
    } else if |xs| > 1 {
      assert (xs + [x])[1..] == xs[1..] + [x];
      JoinSnoc(sep, xs[1..], x);
      assert Join(sep, xs + [x]) == xs[0] + sep + (Join(sep, xs[1..]) + sep + x);
    }
  }

  /** The new paths of the modified files that have one, in modified-file order. */
  function NewPaths(fs: seq<ModifiedFile>): seq<string>
  {
    if |fs| == 0 then []
    else
      var rest := NewPaths(fs[..|fs| - 1]);
      match fs[|fs| - 1].newPath
      case Some(p) => rest + [p]
      case None => rest
  }

  /** Every attribute `build_commits` reads inside its `try` can be read. */
  predicate CommitReadable(c: Commit)
  {
    && c.msg.Some? && c.author.Some? && c.committer.Some?
    && c.insertions.Some? && c.deletions.Some?
    && c.authorDate.Some? && c.authorTimezone.Some?
    && c.committerDate.Some? && c.committerTimezone.Some?
    && c.inMainBranch.Some? && c.merge.Some? && c.files.Some? && c.branches.Some?
    && c.modifiedFiles.Some?
    && c.dmmUnitSize.Some? && c.dmmUnitComplexity.Some? && c.dmmUnitInterfacing.Some?
  }

  /** Every attribute `build_file_commits` reads inside its `try` can be read. */
  predicate FileCommitReadable(c: Commit)
  {
    && c.msg.Some? && c.author.Some? && c.committer.Some?
    && c.insertions.Some? && c.deletions.Some?
    && c.authorDate.Some? && c.authorTimezone.Some?
    && c.committerDate.Some? && c.committerTimezone.Some?
    && c.inMainBranch.Some? && c.merge.Some? && c.branches.Some?
    && c.projectName.Some? && c.projectPath.Some?
    && c.modifiedFiles.Some?
  }

  /** The record `build_commits` appends for a commit, given its list of new paths. */
  function MakeCommitRecord(c: Commit, files: seq<string>): (r: CommitRecord)
    requires CommitReadable(c)
    ensures r.hash == c.hash
    ensures r.message == SanitizeMessage(c.msg.value)
    ensures forall ch :: ch in r.message ==> !Forbidden(ch)
    ensures r.authorName == c.author.value.name && r.authorEmail == c.author.value.email
    ensures r.authorDate == c.authorDate.value && r.authorTz == c.authorTimezone.value
    ensures r.committerName == c.committer.value.name && r.committerEmail == c.committer.value.email
    ensures r.committerDate == c.committerDate.value && r.committerTz == c.committerTimezone.value
    ensures r.inMain == c.inMainBranch.value && r.isMerge == c.merge.value
    ensures r.numDeletes == c.deletions.value && r.numInserts == c.insertions.value
    ensures r.netLines == r.numInserts - r.numDeletes
    ensures r.numFiles == c.files.value
    ensures r.branches == Join(", ", c.branches.value) && r.files == Join(", ", files)
    ensures r.pydrillerFiles == c.modifiedFiles.value
    ensures r.dmmUnitSize == c.dmmUnitSize.value && r.dmmUnitComplexity == c.dmmUnitComplexity.value
    ensures r.dmmUnitInterfacing == c.dmmUnitInterfacing.value
  {
    NoForbiddenChars(c.msg.value);
    var author := c.author.value;
    var committer := c.committer.value;
    CommitRecord(
      c.hash, SanitizeMessage(c.msg.value),
      author.name, author.email, c.authorDate.value, c.authorTimezone.value,
      committer.name, committer.email, c.committerDate.value, c.committerTimezone.value,
      c.inMainBranch.value, c.merge.value,
      c.deletions.value, c.insertions.value, c.insertions.value - c.deletions.value,
      c.files.value, Join(", ", c.branches.value), Join(", ", files),
      c.modifiedFiles.value,
      c.dmmUnitSize.value, c.dmmUnitComplexity.value, c.dmmUnitInterfacing.value)
  }

  /** The record of one commit, or `None` when one of its reads raises and it is skipped. */
  function CommitRecordOf(c: Commit): (r: Option<CommitRecord>)
    ensures r.Some? <==> CommitReadable(c)
    ensures r.Some? ==> r.value.hash == c.hash && r.value.files == Join(", ", NewPaths(c.modifiedFiles.value))
  {
    if CommitReadable(c) then Some(MakeCommitRecord(c, NewPaths(c.modifiedFiles.value))) else None
  }

  /**
   * The commit table for a traversal: the records of the readable commits, in traversal order.
   * There is at most one record per commit, and every record has `net_lines == num_inserts - num_deletes`.
   */
  function CommitTable(repo: seq<Commit>): (t: seq<CommitRecord>)
    ensures |t| <= |repo|
    ensures forall r :: r in t ==> r.netLines == r.numInserts - r.numDeletes
  {
    if |repo| == 0 then []
    else
      var rest := CommitTable(repo[..|repo| - 1]);
      match CommitRecordOf(repo[|repo| - 1])
      case Some(r) => rest + [r]
      case None => rest
  }

  /** The record `build_file_commits` appends for one modified file of a commit. */
  function MakeFileCommitRecord(c: Commit, f: ModifiedFile): (r: FileCommitRecord)
    requires FileCommitReadable(c)
    ensures r.hash == c.hash
    ensures r.message == SanitizeMessage(c.msg.value)
    ensures forall ch :: ch in r.message ==> !Forbidden(ch)
    ensures r.authorName == c.author.value.name && r.authorEmail == c.author.value.email
    ensures r.authorDate == c.authorDate.value && r.authorTz == c.authorTimezone.value
    ensures r.committerName == c.committer.value.name && r.committerEmail == c.committer.value.email
    ensures r.committerDate == c.committerDate.value && r.committerTz == c.committerTimezone.value
    ensures r.inMain == c.inMainBranch.value && r.isMerge == c.merge.value
    ensures r.numDeletes == c.deletions.value && r.numInserts == c.insertions.value
    ensures r.netLines == r.numInserts - r.numDeletes
    ensures r.branches == Join(", ", c.branches.value)
    ensures r.filename == f.filename && r.oldPath == f.oldPath && r.newPath == f.newPath
    ensures r.projectName == c.projectName.value && r.projectPath == c.projectPath.value
  {
    NoForbiddenChars(c.msg.value);
    var author := c.author.value;
    var committer := c.committer.value;
    FileCommitRecord(
      c.hash, SanitizeMessage(c.msg.value),
      author.name, author.email, c.authorDate.value, c.authorTimezone.value,
      committer.name, committer.email, c.committerDate.value, c.committerTimezone.value,
      c.inMainBranch.value, c.merge.value,
      c.deletions.value, c.insertions.value, c.insertions.value - c.deletions.value,
      Join(", ", c.branches.value),
      f.filename, f.oldPath, f.newPath,
      c.projectName.value, c.projectPath.value)
  }

  /** The records of one commit's modified files `fs`, in order: one per file, each with consistent net lines. */
  function FileBlock(c: Commit, fs: seq<ModifiedFile>): (b: seq<FileCommitRecord>)
    requires FileCommitReadable(c)
    ensures |b| == |fs|
    ensures forall r :: r in b ==> r.netLines == r.numInserts - r.numDeletes
  {
    if |fs| == 0 then [] else FileBlock(c, fs[..|fs| - 1]) + [MakeFileCommitRecord(c, fs[|fs| - 1])]
  }

  /** What one commit contributes to the file-change table: nothing when one of its reads raises. */
  function FileRecordsOf(c: Commit): (r: seq<FileCommitRecord>)
    ensures !FileCommitReadable(c) ==> r == []
    ensures FileCommitReadable(c) ==>
              |r| == |c.modifiedFiles.value| &&
              forall k :: 0 <= k < |r| ==> r[k] == MakeFileCommitRecord(c, c.modifiedFiles.value[k])
  {
    if FileCommitReadable(c) then
      var fs := c.modifiedFiles.value;
      assert forall k :: 0 <= k < |fs| ==> FileBlock(c, fs)[k] == MakeFileCommitRecord(c, fs[k]) by {
        forall k | 0 <= k < |fs| {
          FileBlockAt(c, fs, k);
        }
      }
      FileBlock(c, fs)
    else []
  }

  /**
   * The file-change table for a traversal: one record per modified file of each readable commit,
   * each with `net_lines == num_inserts - num_deletes`.
   */
  function FileCommitTable(repo: seq<Commit>): (t: seq<FileCommitRecord>)
    ensures |t| == ModifiedFileCount(repo)
    ensures forall r :: r in t ==> r.netLines == r.numInserts - r.numDeletes
  {
    if |repo| == 0 then [] else FileCommitTable(repo[..|repo| - 1]) + FileRecordsOf(repo[|repo| - 1])
  }

  /** The number of modified files over the commits `build_file_commits` can read. */
  function ModifiedFileCount(repo: seq<Commit>): nat
  {
    if |repo| == 0 then 0
    else
      var c := repo[|repo| - 1];
      ModifiedFileCount(repo[..|repo| - 1]) + (if FileCommitReadable(c) then |c.modifiedFiles.value| else 0)
  }

  /** The inner loop of `build_commits`: collect the new paths that are not `None`. */
  method CollectNewPaths(fs: seq<ModifiedFile>) returns (files: seq<string>)
    ensures files == NewPaths(fs)
  {
    files := [];
    var k := 0;
    while k < |fs|
      invariant 0 <= k <= |fs|
      invariant files == NewPaths(fs[..k])
    {
      assert fs[..k + 1][..k] == fs[..k];
      match fs[k].newPath {
        case Some(p) => files := files + [p];
        case None =>
      }
      k := k + 1;
    }
    assert fs[..|fs|] == fs;
  }

  /** `build_commits`: one record per readable commit; a commit whose reads raise is skipped. */
  method BuildCommits(repo: seq<Commit>) returns (commits: seq<CommitRecord>)
    ensures commits == CommitTable(repo)
    ensures forall r :: r in commits ==> r.netLines == r.numInserts - r.numDeletes
    ensures |commits| <= |repo|
  {
    commits := [];
    var i := 0;
    while i < |repo|
      invariant 0 <= i <= |repo|
      invariant commits == CommitTable(repo[..i])
    {
      assert repo[..i + 1][..i] == repo[..i];
      var c := repo[i];
      if CommitReadable(c) {
        var files := CollectNewPaths(c.modifiedFiles.value);
        commits := commits + [MakeCommitRecord(c, files)];
      }
      i := i + 1;
    }
    assert repo[..|repo|] == repo;
  }

  /** `build_file_commits`: for each readable commit one record per modified file, in order. */
  method BuildFileCommits(repo: seq<Commit>) returns (commits: seq<FileCommitRecord>)
    ensures commits == FileCommitTable(repo)
    ensures |commits| == ModifiedFileCount(repo)
    ensures forall r :: r in commits ==> r.netLines == r.numInserts - r.numDeletes
  {
    commits := [];
    var i := 0;
    while i < |repo|
      invariant 0 <= i <= |repo|
      invariant commits == FileCommitTable(repo[..i])
    {
      FileCommitTableStep(repo, i);
      var c := repo[i];
      if FileCommitReadable(c) {
        commits := AppendFileRecords(commits, c);
      }
      i := i + 1;
    }
    assert repo[..|repo|] == repo;
  }

  /** The inner loop of `build_file_commits`: one record per modified file of `c`, appended in order. */
  method AppendFileRecords(commits: seq<FileCommitRecord>, c: Commit) returns (out: seq<FileCommitRecord>)
    requires FileCommitReadable(c)
    ensures out == commits + FileBlock(c, c.modifiedFiles.value)
  {
    out := commits;
    var fs := c.modifiedFiles.value;
    var k := 0;
    while k < |fs|
      invariant 0 <= k <= |fs|
      invariant out == commits + FileBlock(c, fs[..k])
    {
      FileBlockStep(c, fs, k);
      out := out + [MakeFileCommitRecord(c, fs[k])];
      k := k + 1;
    }
    assert fs[..|fs|] == fs;
  }

  /** One step of the inner loop of `build_file_commits`: the record of file `k` is appended. */
  lemma FileBlockStep(c: Commit, fs: seq<ModifiedFile>, k: nat)
    requires FileCommitReadable(c) && k < |fs|
    ensures FileBlock(c, fs[..k + 1]) == FileBlock(c, fs[..k]) + [MakeFileCommitRecord(c, fs[k])]
  {
    assert fs[..k + 1][..k] == fs[..k];
  }

  /** One step of the outer loop of `build_file_commits`: the records of commit `i` are appended. */
  lemma FileCommitTableStep(repo: seq<Commit>, i: nat)
    requires i < |repo|
    ensures FileCommitTable(repo[..i + 1]) == FileCommitTable(repo[..i]) + FileRecordsOf(repo[i])
  {
    assert repo[..i + 1][..i] == repo[..i];
  }

  // ---------------------------------------------------------------------------------------------
  // Properties of the commit table

  /** Traversal order is kept: the table of a concatenation is the concatenation of the tables. */
  lemma {:induction false} CommitTableConcat(a: seq<Commit>, b: seq<Commit>)
    ensures CommitTable(a + b) == CommitTable(a) + CommitTable(b)
    decreases |b|
  {
    if |b| == 0 {
      assert a + b == a;
    } else {
      assert (a + b)[..|a + b| - 1] == a + b[..|b| - 1];
      CommitTableConcat(a, b[..|b| - 1]);
    }
  }

  /** A commit whose reads raise produces no record, and the traversal goes on after it. */
  lemma CommitSkipped(before: seq<Commit>, c: Commit, after: seq<Commit>)
    requires !CommitReadable(c)
    ensures CommitTable(before + [c] + after) == CommitTable(before) + CommitTable(after)
  {
    CommitTableConcat(before + [c], after);
    CommitTableConcat(before, [c]);
    assert [c][..0] == [];
  }

  /** A readable commit produces exactly its record, between those of its neighbours. */
  lemma CommitKept(before: seq<Commit>, c: Commit, after: seq<Commit>)
    requires CommitReadable(c)
    ensures CommitTable(before + [c] + after)
         == CommitTable(before) + [MakeCommitRecord(c, NewPaths(c.modifiedFiles.value))] + CommitTable(after)
  {
    CommitTableConcat(before + [c], after);
    CommitTableConcat(before, [c]);
    assert [c][..0] == [];
  }

  /** Collecting new paths distributes over concatenation, so modified-file order is kept. */
  lemma {:induction false} NewPathsConcat(a: seq<ModifiedFile>, b: seq<ModifiedFile>)
    ensures NewPaths(a + b) == NewPaths(a) + NewPaths(b)
    decreases |b|
  {
    if |b| == 0 {
      assert a + b == a;
    } else {
      assert (a + b)[..|a + b| - 1] == a + b[..|b| - 1];
      NewPathsConcat(a, b[..|b| - 1]);
    }
  }

  /** A path is collected exactly when some modified file has it as its new path. */
  lemma {:induction false} NewPathsMembers(fs: seq<ModifiedFile>, p: string)
    ensures p in NewPaths(fs) <==> exists k :: 0 <= k < |fs| && fs[k].newPath == Some(p)
  {
    if |fs| > 0 {
      var init := fs[..|fs| - 1];
      NewPathsMembers(init, p);
      if exists k :: 0 <= k < |fs| && fs[k].newPath == Some(p) {
        var k :| 0 <= k < |fs| && fs[k].newPath == Some(p);
        if k < |fs| - 1 {
          assert init[k] == fs[k];
        }
      }
      if exists k :: 0 <= k < |init| && init[k].newPath == Some(p) {
        var k :| 0 <= k < |init| && init[k].newPath == Some(p);
        assert fs[k] == init[k];
      }
    }
  }

  /** A commit record lists, joined by ", ", exactly the new paths of its modified files. */
  lemma CommitRecordFiles(c: Commit)
    requires CommitReadable(c)
    ensures CommitRecordOf(c).Some?
    ensures CommitRecordOf(c).value.files == Join(", ", NewPaths(c.modifiedFiles.value))
    ensures forall p :: p in NewPaths(c.modifiedFiles.value) <==>
              exists k :: 0 <= k < |c.modifiedFiles.value| && c.modifiedFiles.value[k].newPath == Some(p)
  {
    forall p {
      NewPathsMembers(c.modifiedFiles.value, p);
    }
  }

  // ---------------------------------------------------------------------------------------------
  // Properties of the file-change table

  /** The `k`-th record of a block belongs to the `k`-th modified file. */
  lemma {:induction false} FileBlockAt(c: Commit, fs: seq<ModifiedFile>, k: nat)
    requires FileCommitReadable(c) && k < |fs|
    ensures |FileBlock(c, fs)| == |fs|
    ensures FileBlock(c, fs)[k] == MakeFileCommitRecord(c, fs[k])
  {
    if k < |fs| - 1 {
      FileBlockAt(c, fs[..|fs| - 1], k);
    }
  }

  /** Concatenation is associative. */
  lemma ConcatAssoc<T>(x: seq<T>, y: seq<T>, z: seq<T>)
    ensures x + y + z == x + (y + z)
  {
  }

  /** Traversal order is kept in the file-change table too. */
  lemma {:induction false} FileCommitTableConcat(a: seq<Commit>, b: seq<Commit>)
    ensures FileCommitTable(a + b) == FileCommitTable(a) + FileCommitTable(b)
    decreases |b|
  {
    if |b| == 0 {
      assert a + b == a;
    } else {
      assert (a + b)[..|a + b| - 1] == a + b[..|b| - 1];
      FileCommitTableConcat(a, b[..|b| - 1]);
      ConcatAssoc(FileCommitTable(a), FileCommitTable(b[..|b| - 1]), FileRecordsOf(b[|b| - 1]));
    }
  }

  /**
   * One commit contributes, between its neighbours' records, one record per modified file in
   * order when its commit-level reads succeed, and nothing when one of them raises.
   */
  lemma CommitContribution(before: seq<Commit>, c: Commit, after: seq<Commit>)
    ensures FileCommitTable(before + [c] + after)
         == FileCommitTable(before) + FileRecordsOf(c) + FileCommitTable(after)
    ensures !FileCommitReadable(c) ==> FileRecordsOf(c) == []
    ensures FileCommitReadable(c) ==>
              |FileRecordsOf(c)| == |c.modifiedFiles.value| &&
              forall k :: 0 <= k < |c.modifiedFiles.value| ==>
                FileRecordsOf(c)[k] == MakeFileCommitRecord(c, c.modifiedFiles.value[k])
  {
    FileCommitTableConcat(before + [c], after);
    FileCommitTableConcat(before, [c]);
    assert [c][..0] == [];
  }

  /** The fields of a file-change record that do not depend on the file. */
  function CommitPart(r: FileCommitRecord): FileCommitRecord
  {
    r.(filename := "", oldPath := None, newPath := None)
  }

  /** A file-change record repeats the commit-level columns of the commit table's record. */
  predicate AgreesWith(fr: FileCommitRecord, cr: CommitRecord)
  {
    && fr.hash == cr.hash && fr.message == cr.message
    && fr.authorName == cr.authorName && fr.authorEmail == cr.authorEmail
    && fr.authorDate == cr.authorDate && fr.authorTz == cr.authorTz
    && fr.committerName == cr.committerName && fr.committerEmail == cr.committerEmail
    && fr.committerDate == cr.committerDate && fr.committerTz == cr.committerTz
    && fr.inMain == cr.inMain && fr.isMerge == cr.isMerge
    && fr.numDeletes == cr.numDeletes && fr.numInserts == cr.numInserts
    && fr.netLines == cr.netLines && fr.branches == cr.branches
  }

  /**
   * The records of one commit differ only in `filename`, `old_path` and `new_path`, which are
   * those of their modified file; the rest agrees with the commit's row in the commit table.
   */
  lemma FileRecordsCarryCommit(c: Commit, j: nat, k: nat)
    requires FileCommitReadable(c)
    requires j < |FileRecordsOf(c)| && k < |FileRecordsOf(c)|
    ensures |FileRecordsOf(c)| == |c.modifiedFiles.value|
    ensures CommitPart(FileRecordsOf(c)[j]) == CommitPart(FileRecordsOf(c)[k])
    ensures FileRecordsOf(c)[j].filename == c.modifiedFiles.value[j].filename
    ensures FileRecordsOf(c)[j].oldPath == c.modifiedFiles.value[j].oldPath
    ensures FileRecordsOf(c)[j].newPath == c.modifiedFiles.value[j].newPath
    ensures CommitReadable(c) ==> AgreesWith(FileRecordsOf(c)[j], CommitRecordOf(c).value)
  {
  }
}
