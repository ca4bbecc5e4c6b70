/**
 * The file-data merger: `generate_merged_file_data` between reading its two tables and writing
 * the result. A table is a set of column names and a sequence of rows, each row a map from
 * column name to cell, as pandas holds a data frame read from delimited text.
 */
module Merger {
  import opened Wrappers

  /** A cell: missing (pandas' NaN) or the cell's text, carried uninterpreted. */
  datatype Cell = Missing | Value(text: string)

  type Row = map<string, Cell>

  datatype Table = Table(columns: set<string>, rows: seq<Row>)

  /** Why a pandas call of the merger raises. */
  datatype MergeError =
    | MissingColumns(names: set<string>)  // KeyError: a named column is absent
    | DuplicateColumns                    // MergeError: the suffixes would repeat a column name

  /** The join key on both sides. */
  const Key: string := "relative_path"

  /** Every row has exactly the table's columns. */
  predicate WellFormed(t: Table)
  {
    forall i :: 0 <= i < |t.rows| ==> t.rows[i].Keys == t.columns
  }

  /** The cells of one column, top to bottom. */
  function Column(t: Table, c: string): seq<Cell>
    requires WellFormed(t) && c in t.columns
  {
    seq(|t.rows|, i requires 0 <= i < |t.rows| => t.rows[i][c])
  }

  /** `rename(columns={from: to})`; pandas ignores a `from` that is not a column. */
  function RenameColumn(t: Table, from: string, to: string): (r: Table)
    requires WellFormed(t)
    ensures WellFormed(r) && |r.rows| == |t.rows|
    ensures from !in t.columns ==> r == t
    ensures from in t.columns ==> r.columns == t.columns - {from} + {to}
    ensures from in t.columns ==> forall i :: 0 <= i < |t.rows| ==> r.rows[i][to] == t.rows[i][from]
    ensures forall i, c :: 0 <= i < |t.rows| && c in t.columns && c != from && c != to ==>
              r.rows[i][c] == t.rows[i][c]
  {
    if from !in t.columns then t
    else
      Table(t.columns - {from} + {to},
        seq(|t.rows|, i requires 0 <= i < |t.rows| => (t.rows[i] - {from})[to := t.rows[i][from]]))
  }

  /** `df[name] = df[src]`: a KeyError when `src` is not a column. */
  function CopyColumn(t: Table, name: string, src: string): (r: Result<Table, MergeError>)
    requires WellFormed(t)
    ensures src !in t.columns <==> r == Failure(MissingColumns({src}))
    ensures r.Success? ==>
              WellFormed(r.value) && r.value.columns == t.columns + {name} && |r.value.rows| == |t.rows| &&
              forall i :: 0 <= i < |t.rows| ==>
                r.value.rows[i][name] == t.rows[i][src] &&
                forall c :: c in t.columns && c != name ==> r.value.rows[i][c] == t.rows[i][c]
  {
    if src !in t.columns then Failure(MissingColumns({src}))
    else Success(Table(t.columns + {name},
      seq(|t.rows|, i requires 0 <= i < |t.rows| => t.rows[i][name := t.rows[i][src]])))
  }

  /** `fillna('')` on one cell. */
  function Fill(c: Cell): Cell
  {
    if c.Missing? then Value("") else c
  }

  /** `fillna('')`: no cell is missing afterwards, and present cells are unchanged. */
  function FillNa(t: Table): (r: Table)
    requires WellFormed(t)
    ensures WellFormed(r) && r.columns == t.columns && |r.rows| == |t.rows|
    ensures forall i, c :: 0 <= i < |r.rows| && c in r.columns ==> r.rows[i][c] != Missing
    ensures forall i, c :: 0 <= i < |r.rows| && c in r.columns && t.rows[i][c].Value? ==>
              r.rows[i][c] == t.rows[i][c]
    ensures forall i, c :: 0 <= i < |r.rows| && c in r.columns && t.rows[i][c].Missing? ==>
              r.rows[i][c] == Value("")
    ensures forall i, c :: 0 <= i < |r.rows| && c in r.columns ==> r.rows[i][c] == Fill(t.rows[i][c])
  {
    Table(t.columns, seq(|t.rows|, i requires 0 <= i < |t.rows| =>
      map c | c in t.rows[i] :: Fill(t.rows[i][c])))
  }

  /** The root directory marker "." becomes the empty text; every other cell is kept. */
  function RootPath(c: Cell): Cell
  {
    if c == Value(".") then Value("") else c
  }

  /** `replace({'path': {'.': ''}})`: the root marker in column `path` becomes the empty text. */
  function ReplaceRootPath(t: Table): (r: Table)
    requires WellFormed(t)
    ensures WellFormed(r) && r.columns == t.columns && |r.rows| == |t.rows|
    ensures forall i :: 0 <= i < |r.rows| && "path" in t.columns ==> r.rows[i]["path"] == RootPath(t.rows[i]["path"])
    ensures forall i, c :: 0 <= i < |r.rows| && c in t.columns && c != "path" ==> r.rows[i][c] == t.rows[i][c]
  {
    if "path" !in t.columns then t
    else
      Table(t.columns, seq(|t.rows|, i requires 0 <= i < |t.rows| =>
        if t.rows[i]["path"] == Value(".") then t.rows[i]["path" := Value("")] else t.rows[i]))
  }

  /** `drop(columns=cols)`: a KeyError naming the absent ones unless all are columns. */
  function DropColumns(t: Table, cols: set<string>): (r: Result<Table, MergeError>)
    requires WellFormed(t)
    ensures cols <= t.columns <==> r.Success?
    ensures r.Failure? ==> r.error == MissingColumns(cols - t.columns)
    ensures r.Success? ==>
              WellFormed(r.value) && r.value.columns == t.columns - cols && |r.value.rows| == |t.rows| &&
              forall i, c :: 0 <= i < |t.rows| && c in r.value.columns ==> r.value.rows[i][c] == t.rows[i][c]
  {
    if !(cols <= t.columns) then Failure(MissingColumns(cols - t.columns))
    else Success(Table(t.columns - cols, seq(|t.rows|, i requires 0 <= i < |t.rows| => t.rows[i] - cols)))
  }

  // ---------------------------------------------------------------------------------------------
  // `pd.merge(left, right, left_on=Key, right_on=Key)`: an inner join

  /** Columns other than the key that both sides have; pandas suffixes them `_x` and `_y`. */
  function Overlap(lc: set<string>, rc: set<string>): set<string>
  {
    lc * rc - {Key}
  }

  /** The name pandas gives column `c` in the joined table, with suffix `sfx` when it overlaps. */
  function Suffixed(c: string, ov: set<string>, sfx: string): string
  {
    if c in ov then c + sfx else c
  }

  /** Each of `cols` named apart by `Suffixed`. */
  predicate Injective(cols: set<string>, ov: set<string>, sfx: string)
  {
    forall a, b :: a in cols && b in cols && Suffixed(a, ov, sfx) == Suffixed(b, ov, sfx) ==> a == b
  }

  /** The join names every left column and every non-key right column differently. */
  predicate NamesDistinct(lc: set<string>, rc: set<string>)
  {
    var ov := Overlap(lc, rc);
    && Injective(lc, ov, "_x")
    && Injective(rc - {Key}, ov, "_y")
    && (forall a, b :: a in lc && b in rc - {Key} ==> Suffixed(a, ov, "_x") != Suffixed(b, ov, "_y"))
  }

  /** The inputs of a join that pandas accepts. */
  predicate JoinReady(l: Table, r: Table)
  {
    WellFormed(l) && WellFormed(r) && Key in l.columns && Key in r.columns && NamesDistinct(l.columns, r.columns)
  }

  function SuffixedNames(cols: set<string>, ov: set<string>, sfx: string): set<string>
  {
    set c | c in cols :: Suffixed(c, ov, sfx)
  }

  /** The columns of the joined table: the left ones, then the right ones but the key. */
  function JoinColumns(lc: set<string>, rc: set<string>): set<string>
  {
    var ov := Overlap(lc, rc);
    SuffixedNames(lc, ov, "_x") + SuffixedNames(rc - {Key}, ov, "_y")
  }

  /** The cells of `cols` of one row, under their joined names. */
  function SuffixedCells(row: Row, cols: set<string>, ov: set<string>, sfx: string): (m: Row)
    requires cols <= row.Keys && Injective(cols, ov, sfx)
    ensures m.Keys == SuffixedNames(cols, ov, sfx)
    ensures forall c :: c in cols ==> m[Suffixed(c, ov, sfx)] == row[c]
  {
    map c | c in cols :: Suffixed(c, ov, sfx) := row[c]
  }

  /** The joined row of left row `i` and right row `j`. */
  function JoinRow(l: Table, r: Table, i: nat, j: nat): (o: Row)
    requires JoinReady(l, r) && i < |l.rows| && j < |r.rows|
    ensures o.Keys == JoinColumns(l.columns, r.columns)
    ensures o[Key] == l.rows[i][Key]
  {
    var ov := Overlap(l.columns, r.columns);
    var left := SuffixedCells(l.rows[i], l.columns, ov, "_x");
    var right := SuffixedCells(r.rows[j], r.columns - {Key}, ov, "_y");
    assert Suffixed(Key, ov, "_x") == Key;
    assert Key !in right;
    left + right
  }

  /** Every cell of both rows sits in the joined row under its joined name, and nothing else does. */
  lemma JoinRowCells(l: Table, r: Table, i: nat, j: nat)
    requires JoinReady(l, r) && i < |l.rows| && j < |r.rows|
    ensures forall c :: c in l.columns ==> JoinRow(l, r, i, j)[Suffixed(c, Overlap(l.columns, r.columns), "_x")] == l.rows[i][c]
    ensures forall c :: c in r.columns - {Key} ==> JoinRow(l, r, i, j)[Suffixed(c, Overlap(l.columns, r.columns), "_y")] == r.rows[j][c]
  {
    var ov := Overlap(l.columns, r.columns);
    var right := SuffixedCells(r.rows[j], r.columns - {Key}, ov, "_y");
    assert forall c :: c in l.columns ==> Suffixed(c, ov, "_x") !in right;
  }

  /** The key of every row of `t`, top to bottom. */
  function Keys(t: Table): seq<Cell>
    requires WellFormed(t) && Key in t.columns
  {
    Column(t, Key)
  }

  /**
   * The pairs `(i, j)` with `j < m` and equal keys `lk[i] == rk[j]`, in increasing order of `j`.
   */
  function RowPairs(lk: seq<Cell>, rk: seq<Cell>, i: nat, m: nat): (ps: seq<(nat, nat)>)
    requires i < |lk| && m <= |rk|
    ensures forall k :: 0 <= k < |ps| ==> ps[k].0 == i && ps[k].1 < m && lk[i] == rk[ps[k].1]
  {
    if m == 0 then []
    else RowPairs(lk, rk, i, m - 1) + (if lk[i] == rk[m - 1] then [(i, m - 1)] else [])
  }

  /** The pairs of equal keys with a left index below `n`, left index by left index. */
  function Pairs(lk: seq<Cell>, rk: seq<Cell>, n: nat): (ps: seq<(nat, nat)>)
    requires n <= |lk|
    ensures forall k :: 0 <= k < |ps| ==> ps[k].0 < n && ps[k].1 < |rk| && lk[ps[k].0] == rk[ps[k].1]
  {
    if n == 0 then [] else Pairs(lk, rk, n - 1) + RowPairs(lk, rk, n - 1, |rk|)
  }

  /** The joined row of pair `p`; every pair the join produces addresses a row of each table. */
  function PairRow(l: Table, r: Table, p: (nat, nat)): Row
    requires JoinReady(l, r)
  {
    if p.0 < |l.rows| && p.1 < |r.rows| then JoinRow(l, r, p.0, p.1) else map[]
  }

  /** The joined row of each pair, in order. */
  function JoinRowsOf(l: Table, r: Table, ps: seq<(nat, nat)>): seq<Row>
    requires JoinReady(l, r)
  {
    seq(|ps|, k requires 0 <= k < |ps| => PairRow(l, r, ps[k]))
  }

  /** The rows of the inner join of `l` and `r`. */
  function JoinRows(l: Table, r: Table): seq<Row>
    requires JoinReady(l, r)
  {
    JoinRowsOf(l, r, Pairs(Keys(l), Keys(r), |l.rows|))
  }

  /**
   * What the merge on `relative_path` returns or raises: a `KeyError` when a side lacks the key,
   * a duplicate-name error when the suffixed names clash, and otherwise the joined table.
   */
  function Merge(l: Table, r: Table): (res: Result<Table, MergeError>)
    requires WellFormed(l) && WellFormed(r)
    ensures res.Success? <==> JoinReady(l, r)
    ensures Key !in l.columns || Key !in r.columns ==> res == Failure(MissingColumns({Key}))
    ensures Key in l.columns && Key in r.columns && !NamesDistinct(l.columns, r.columns) ==> res == Failure(DuplicateColumns)
    ensures res.Success? ==> res.value.columns == JoinColumns(l.columns, r.columns)
  {
    if Key !in l.columns || Key !in r.columns then Failure(MissingColumns({Key}))
    else if !NamesDistinct(l.columns, r.columns) then Failure(DuplicateColumns)
    else Success(Table(JoinColumns(l.columns, r.columns), JoinRows(l, r)))
  }

  // ---------------------------------------------------------------------------------------------
  // Properties of the join

  /** Every equal-key pair of a left row with one of the first `m` right rows is listed. */
  lemma {:induction false} RowPairsComplete(lk: seq<Cell>, rk: seq<Cell>, i: nat, m: nat, j: nat)
    requires i < |lk| && j < m <= |rk| && lk[i] == rk[j]
    ensures (i, j) in RowPairs(lk, rk, i, m)
  {
    if j < m - 1 {
      RowPairsComplete(lk, rk, i, m - 1, j);
      assert RowPairs(lk, rk, i, m) == RowPairs(lk, rk, i, m - 1) + (if lk[i] == rk[m - 1] then [(i, m - 1)] else []);
    }
  }

  /** Every equal-key pair with left index below `n` is listed. */
  lemma {:induction false} PairsComplete(lk: seq<Cell>, rk: seq<Cell>, n: nat, i: nat, j: nat)
    requires i < n <= |lk| && j < |rk| && lk[i] == rk[j]
    ensures (i, j) in Pairs(lk, rk, n)
  {
    var before, row := Pairs(lk, rk, n - 1), RowPairs(lk, rk, n - 1, |rk|);
    assert Pairs(lk, rk, n) == before + row;
    if i < n - 1 {
      PairsComplete(lk, rk, n - 1, i, j);
      assert (i, j) in before;
    } else {
      RowPairsComplete(lk, rk, i, |rk|, j);
      assert (i, j) in row;
    }
  }

  /** The number of cells among the first `m` of `ks` equal to `k`. */
  function CountEqual(k: Cell, ks: seq<Cell>, m: nat): nat
    requires m <= |ks|
  {
    if m == 0 then 0 else CountEqual(k, ks, m - 1) + (if ks[m - 1] == k then 1 else 0)
  }

  /** The sum over the first `n` left keys of the number of equal right keys. */
  function PairCount(lk: seq<Cell>, rk: seq<Cell>, n: nat): nat
    requires n <= |lk|
  {
    if n == 0 then 0 else PairCount(lk, rk, n - 1) + CountEqual(lk[n - 1], rk, |rk|)
  }

  lemma {:induction false} RowPairsCount(lk: seq<Cell>, rk: seq<Cell>, i: nat, m: nat)
    requires i < |lk| && m <= |rk|
    ensures |RowPairs(lk, rk, i, m)| == CountEqual(lk[i], rk, m)
  {
    if m > 0 {
      RowPairsCount(lk, rk, i, m - 1);
    }
  }

  /** One pair per left key and equal right key. */
  lemma {:induction false} PairsCount(lk: seq<Cell>, rk: seq<Cell>, n: nat)
    requires n <= |lk|
    ensures |Pairs(lk, rk, n)| == PairCount(lk, rk, n)
  {
    if n > 0 {
      PairsCount(lk, rk, n - 1);
      RowPairsCount(lk, rk, n - 1, |rk|);
    }
  }

  /** The inner join succeeds on joinable tables, with well-formed rows, one per pair of rows with equal keys. */
  lemma InnerJoinCorrect(l: Table, r: Table)
    requires JoinReady(l, r)
    ensures Merge(l, r) == Success(Table(JoinColumns(l.columns, r.columns), JoinRows(l, r)))
    ensures WellFormed(Table(JoinColumns(l.columns, r.columns), JoinRows(l, r)))
    ensures |JoinRows(l, r)| == PairCount(Keys(l), Keys(r), |l.rows|)
  {
    PairsCount(Keys(l), Keys(r), |l.rows|);
  }

  /** Row `o` is the joined row of a left row and a right row with equal keys. */
  predicate JoinedFrom(l: Table, r: Table, o: Row)
    requires JoinReady(l, r)
  {
    exists i, j :: 0 <= i < |l.rows| && 0 <= j < |r.rows| && l.rows[i][Key] == r.rows[j][Key] &&
      o == JoinRow(l, r, i, j)
  }

  /** Every row of the inner join is the joined row of a pair of rows with equal keys. */
  lemma InnerJoinSound(l: Table, r: Table)
    requires JoinReady(l, r)
    ensures forall p :: 0 <= p < |JoinRows(l, r)| ==> JoinedFrom(l, r, JoinRows(l, r)[p])
  {
    var ps := Pairs(Keys(l), Keys(r), |l.rows|);
    forall p | 0 <= p < |JoinRows(l, r)|
      ensures JoinedFrom(l, r, JoinRows(l, r)[p])
    {
      var i, j := ps[p].0, ps[p].1;
      assert JoinRows(l, r)[p] == JoinRow(l, r, i, j);
    }
  }

  /** Every pair of rows with equal keys contributes its joined row to the inner join. */
  lemma InnerJoinComplete(l: Table, r: Table, i: nat, j: nat)
    requires JoinReady(l, r) && i < |l.rows| && j < |r.rows| && l.rows[i][Key] == r.rows[j][Key]
    ensures JoinRow(l, r, i, j) in JoinRows(l, r)
  {
    var ps := Pairs(Keys(l), Keys(r), |l.rows|);
    PairsComplete(Keys(l), Keys(r), |l.rows|, i, j);
    var k :| 0 <= k < |ps| && ps[k] == (i, j);
    assert JoinRows(l, r) == JoinRowsOf(l, r, ps);
    assert JoinRowsOf(l, r, ps)[k] == PairRow(l, r, ps[k]);
  }

  // ---------------------------------------------------------------------------------------------
  // `generate_merged_file_data`

  /** The join keys of the file-change table: its `new_path` cells after `fillna('')`. */
  function FileCommitKeys(fc: Table): seq<Cell>
    requires WellFormed(fc) && "new_path" in fc.columns
  {
    seq(|fc.rows|, i requires 0 <= i < |fc.rows| => Fill(fc.rows[i]["new_path"]))
  }

  /** The columns of the file-change table as the commit extractor writes it, index included. */
  const FileCommitColumns: set<string> := {
    "Unnamed: 0", "hash", "message", "author_name", "author_email", "author_date", "author_tz",
    "committer_name", "committer_email", "committer_date", "committer_tz", "in_main", "is_merge",
    "num_deletes", "num_inserts", "net_lines", "branches", "filename", "old_path", "new_path",
    "project_name", "project_path"}

  /** The columns of a file-size table the merger accepts, index included. */
  const FileSizeColumns: set<string> := {"Unnamed: 0", "path", "filename", "root", "fullpath", "relative_path"}

  /** No column is named like the suffixed copy of an overlapping column. */
  predicate NoSuffixClash(lc: set<string>, rc: set<string>)
  {
    forall o, c :: o in Overlap(lc, rc) && c in lc + rc ==> c != o + "_x" && c != o + "_y"
  }

  lemma SuffixCancel(a: string, b: string, sfx: string)
    requires a + sfx == b + sfx
    ensures a == b
  {
    assert |a| == |b|;
    assert a == (a + sfx)[..|a|];
    assert b == (b + sfx)[..|b|];
  }

  /** Without such a column the suffixes cannot make two names equal. */
  lemma NoSuffixClashNamesDistinct(lc: set<string>, rc: set<string>)
    requires NoSuffixClash(lc, rc)
    ensures NamesDistinct(lc, rc)
  {
    var ov := Overlap(lc, rc);
    forall a, b | a in lc && b in lc && Suffixed(a, ov, "_x") == Suffixed(b, ov, "_x")
      ensures a == b
    {
      assert a in lc + rc && b in lc + rc;
      if a in ov && b in ov {
        SuffixCancel(a, b, "_x");
      }
    }
    forall a, b | a in rc - {Key} && b in rc - {Key} && Suffixed(a, ov, "_y") == Suffixed(b, ov, "_y")
      ensures a == b
    {
      assert a in lc + rc && b in lc + rc;
      if a in ov && b in ov {
        SuffixCancel(a, b, "_y");
      }
    }
    forall a, b | a in lc && b in rc - {Key}
      ensures Suffixed(a, ov, "_x") != Suffixed(b, ov, "_y")
    {
      assert a in lc + rc && b in lc + rc;
      if a in ov && b in ov {
        var x := a + "_x";
        var y := b + "_y";
        assert x[|x| - 1] != y[|y| - 1];
      }
    }
  }

  /** The columns left by `rename(columns={from: to})`. */
  function RenamedColumns(cols: set<string>, from: string, to: string): set<string>
  {
    if from in cols then cols - {from} + {to} else cols
  }

  /** A name is a column after the rename iff it was one and is not `from`, or it is `to` and `from` was one. */
  lemma RenamedMember(cols: set<string>, from: string, to: string, c: string)
    ensures c in RenamedColumns(cols, from, to) <==> (c in cols && c != from) || (c == to && from in cols)
  {
  }

  /** No step renames or drops the key. */
  lemma KeyIsNotRenamed()
    ensures Key !in {"Unnamed: 0", "File_Commit_ID", "File_ID", "path", "root", "fullpath", "filename", "filename_x", "filename_y"}
  {
  }

  /** The key survives the join under its own name. */
  lemma JoinKeepsKey(lc: set<string>, rc: set<string>)
    requires Key in lc
    ensures Key in JoinColumns(lc, rc)
  {
    var ov := Overlap(lc, rc);
    assert Suffixed(Key, ov, "_x") == Key;
    assert Suffixed(Key, ov, "_x") in SuffixedNames(lc, ov, "_x");
  }

  /**
   * The file-change table before the join: the index column is named `File_Commit_ID`, the key
   * copies `new_path`, and no cell is missing.
   */
  method PrepareFileCommits(t: Table) returns (res: Result<Table, MergeError>)
    requires WellFormed(t)
    ensures res.Failure? <==> "new_path" !in t.columns
    ensures res.Failure? ==> res.error == MissingColumns({"new_path"})
    ensures res.Success? ==>
              WellFormed(res.value) && |res.value.rows| == |t.rows| &&
              res.value.columns == RenamedColumns(t.columns, "Unnamed: 0", "File_Commit_ID") + {Key} &&
              (forall i :: 0 <= i < |t.rows| ==> res.value.rows[i][Key] == Fill(t.rows[i]["new_path"])) &&
              (forall i, c :: 0 <= i < |t.rows| && c in t.columns && c !in {"Unnamed: 0", "File_Commit_ID", Key} ==>
                 res.value.rows[i][c] == Fill(t.rows[i][c])) &&
              ("Unnamed: 0" in t.columns ==>
                 forall i :: 0 <= i < |t.rows| ==> res.value.rows[i]["File_Commit_ID"] == Fill(t.rows[i]["Unnamed: 0"])) &&
              forall i, c :: 0 <= i < |res.value.rows| && c in res.value.columns ==> res.value.rows[i][c] != Missing
  {
    var fc := RenameColumn(t, "Unnamed: 0", "File_Commit_ID");
    var copied := CopyColumn(fc, Key, "new_path");
    if copied.Failure? {
      return Failure(copied.error);
    }
    fc := FillNa(copied.value);
    res := Success(fc);
  }

  /**
   * The file-size table before the join: the index column is named `File_ID`, a root `path` is
   * rewritten, and `root` and `fullpath` are gone; the key and `filename` are untouched.
   */
  method PrepareFileSizes(t: Table) returns (res: Result<Table, MergeError>)
    requires WellFormed(t)
    ensures res.Success? <==> "root" in t.columns && "fullpath" in t.columns
    ensures res.Failure? ==> res.error == MissingColumns({"root", "fullpath"} - t.columns)
    ensures res.Success? ==>
              WellFormed(res.value) && |res.value.rows| == |t.rows| &&
              res.value.columns == RenamedColumns(t.columns, "Unnamed: 0", "File_ID") - {"root", "fullpath"} &&
              (forall i, c :: 0 <= i < |t.rows| && c in t.columns && c !in {"Unnamed: 0", "File_ID", "path", "root", "fullpath"} ==>
                 res.value.rows[i][c] == t.rows[i][c]) &&
              ("path" in t.columns ==>
                 "path" in res.value.columns &&
                 forall i :: 0 <= i < |t.rows| ==>
                   res.value.rows[i]["path"] == RootPath(t.rows[i]["path"])) &&
              ("Unnamed: 0" in t.columns ==>
                 forall i :: 0 <= i < |t.rows| ==> res.value.rows[i]["File_ID"] == t.rows[i]["Unnamed: 0"])
  {
    var files := RenameColumn(t, "Unnamed: 0", "File_ID");
    files := ReplaceRootPath(files);
    var trimmed := DropColumns(files, {"root", "fullpath"});
    if trimmed.Failure? {
      return Failure(trimmed.error);
    }
    res := Success(trimmed.value);
  }

  /** After the join: drop the index columns and the file-change `filename`, keep the size table's. */
  method ConsolidateColumns(t: Table) returns (res: Result<Table, MergeError>)
    requires WellFormed(t)
    ensures res.Success? <==> {"File_Commit_ID", "File_ID", "filename_x"} <= t.columns
    ensures res.Success? ==>
              WellFormed(res.value) && |res.value.rows| == |t.rows| &&
              res.value.columns == RenamedColumns(t.columns - {"File_Commit_ID", "File_ID", "filename_x"}, "filename_y", "filename") &&
              (forall i, c :: 0 <= i < |t.rows| && c in res.value.columns && c != "filename" ==>
                 c in t.columns && res.value.rows[i][c] == t.rows[i][c]) &&
              ("filename_y" in t.columns ==> "filename" in res.value.columns && forall i :: 0 <= i < |t.rows| ==> res.value.rows[i]["filename"] == t.rows[i]["filename_y"])
    ensures res.Success? && Key in t.columns ==> Consolidated(t, res.value) && ConsolidatedCells(t, res.value)
  {
    var cleaned := DropColumns(t, {"File_Commit_ID", "File_ID", "filename_x"});
    if cleaned.Failure? {
      return Failure(cleaned.error);
    }
    res := Success(RenameColumn(cleaned.value, "filename_y", "filename"));
    if Key in t.columns {
      ConsolidatedFromStep(t, res.value);
    }
  }

  /**
   * Column sets the merge accepts: the file-change table has its index, `new_path` and
   * `filename` and none of the names the steps add, and the size table has at least the columns
   * the merger reads, any further ones (the sizes) being neither reserved nor file-change columns.
   */
  predicate Mergeable(fcCols: set<string>, fsCols: set<string>)
  {
    && "Unnamed: 0" in fcCols && "filename" in fcCols && "new_path" in fcCols
    && "File_Commit_ID" !in fcCols && "File_ID" !in fcCols && "path" !in fcCols && Key !in fcCols
    && "filename_x" !in fcCols && "filename_y" !in fcCols
    && FileSizeColumns <= fsCols
    && (fsCols - FileSizeColumns) !! (fcCols + Reserved)
  }

  /**
   * For mergeable column sets, the prepared size table has `File_ID`, `path`, `filename`, the
   * key and the extra columns, only `filename` is shared, and no name clashes with a suffixed one.
   */
  lemma MergeableOverlap(fcCols: set<string>, fsCols: set<string>, lc: set<string>, rc: set<string>)
    requires Mergeable(fcCols, fsCols)
    requires lc == RenamedColumns(fcCols, "Unnamed: 0", "File_Commit_ID") + {Key}
    requires rc == RenamedColumns(fsCols, "Unnamed: 0", "File_ID") - {"root", "fullpath"}
    ensures Key in lc && "File_Commit_ID" in lc && "filename" in lc
    ensures rc == {"File_ID", "path", "filename", Key} + (fsCols - FileSizeColumns)
    ensures Overlap(lc, rc) == {"filename"}
    ensures NoSuffixClash(lc, rc)
  {
    assert "filename" + "_x" == "filename_x" && "filename" + "_y" == "filename_y";
  }

  /** Mergeable tables can be joined, and the joined table has the columns consolidation needs. */
  lemma MergeableColumnsJoin(fcCols: set<string>, fsCols: set<string>, lc: set<string>, rc: set<string>)
    requires Mergeable(fcCols, fsCols)
    requires lc == RenamedColumns(fcCols, "Unnamed: 0", "File_Commit_ID") + {Key}
    requires rc == RenamedColumns(fsCols, "Unnamed: 0", "File_ID") - {"root", "fullpath"}
    ensures Key in lc && Key in rc && NamesDistinct(lc, rc)
    ensures Overlap(lc, rc) == {"filename"}
    ensures JoinColumns(lc, rc) >= {"File_Commit_ID", "File_ID", "filename_x", "filename_y"}
  {
    MergeableOverlap(fcCols, fsCols, lc, rc);
    NoSuffixClashNamesDistinct(lc, rc);
    var ov := Overlap(lc, rc);
    assert Suffixed("File_Commit_ID", ov, "_x") == "File_Commit_ID" && Suffixed("File_ID", ov, "_y") == "File_ID";
    assert Suffixed("filename", ov, "_x") == "filename_x" && Suffixed("filename", ov, "_y") == "filename_y";
    assert "File_ID" in rc - {Key} && "filename" in rc - {Key};
    assert Suffixed("File_Commit_ID", ov, "_x") in SuffixedNames(lc, ov, "_x");
    assert Suffixed("filename", ov, "_x") in SuffixedNames(lc, ov, "_x");
    assert Suffixed("File_ID", ov, "_y") in SuffixedNames(rc - {Key}, ov, "_y");
    assert Suffixed("filename", ov, "_y") in SuffixedNames(rc - {Key}, ov, "_y");
  }

  /** Suffixing the one overlapping name `n` of `cols` replaces it by `n + sfx`. */
  lemma SuffixedOne(cols: set<string>, n: string, sfx: string)
    requires n in cols && n + sfx !in cols
    ensures SuffixedNames(cols, {n}, sfx) == cols - {n} + {n + sfx}
  {
    forall x | x in cols - {n} + {n + sfx}
      ensures x in SuffixedNames(cols, {n}, sfx)
    {
      if x == n + sfx {
        assert Suffixed(n, {n}, sfx) == x;
      } else {
        assert Suffixed(x, {n}, sfx) == x;
      }
    }
  }

  /**
   * Mergeable tables give the file-change columns without the index, plus the key, `path` and
   * the size table's extra columns.
   */
  lemma MergedColumnsWithSizeTable(fcCols: set<string>, fsCols: set<string>)
    requires Mergeable(fcCols, fsCols)
    ensures MergedColumns(fcCols, fsCols) == fcCols - {"Unnamed: 0"} + {Key, "path"} + (fsCols - FileSizeColumns)
  {
    var lc := RenamedColumns(fcCols, "Unnamed: 0", "File_Commit_ID") + {Key};
    var rc := RenamedColumns(fsCols, "Unnamed: 0", "File_ID") - {"root", "fullpath"};
    MergeableOverlap(fcCols, fsCols, lc, rc);
    assert "filename" + "_x" == "filename_x" && "filename" + "_y" == "filename_y";
    SuffixedOne(lc, "filename", "_x");
    SuffixedOne(rc - {Key}, "filename", "_y");
  }

  /**
   * The extractor's file-change table is mergeable with the size table of the columns the
   * merger reads, and with one that also carries a `size` column.
   */
  lemma StandardMergeable()
    ensures Mergeable(FileCommitColumns, FileSizeColumns)
    ensures Mergeable(FileCommitColumns, FileSizeColumns + {"size"})
    ensures FileSizeColumns - FileSizeColumns == {} && (FileSizeColumns + {"size"}) - FileSizeColumns == {"size"}
  {
    assert (FileSizeColumns + {"size"}) - FileSizeColumns == {"size"};
    assert "size" !in FileCommitColumns;
  }

  /** For those tables the result has the extractor's columns but the index, plus the key and `path`. */
  lemma StandardMergedColumns()
    ensures MergedColumns(FileCommitColumns, FileSizeColumns) == FileCommitColumns - {"Unnamed: 0"} + {Key, "path"}
  {
    StandardMergeable();
    MergedColumnsWithSizeTable(FileCommitColumns, FileSizeColumns);
  }

  /** A `size` column of the size table reaches the result. */
  lemma SizedMergedColumns()
    ensures MergedColumns(FileCommitColumns, FileSizeColumns + {"size"})
         == FileCommitColumns - {"Unnamed: 0"} + {Key, "path", "size"}
  {
    StandardMergeable();
    MergedColumnsWithSizeTable(FileCommitColumns, FileSizeColumns + {"size"});
  }

  /** File change `i` and file `j` have the same key once the file change's `new_path` is filled. */
  predicate Matching(fileCommits: Table, fileSizes: Table, i: int, j: int)
  {
    && 0 <= i < |fileCommits.rows| && 0 <= j < |fileSizes.rows|
    && "new_path" in fileCommits.rows[i] && Key in fileSizes.rows[j]
    && Fill(fileCommits.rows[i]["new_path"]) == fileSizes.rows[j][Key]
  }

  /** The columns the steps rename, drop or treat apart on either side; every other file-change column is carried through. */
  const Reserved: set<string> :=
    {"Unnamed: 0", "File_Commit_ID", "File_ID", Key, "filename", "filename_x", "filename_y"}

  /** The size table also loses `root` and `fullpath`; every other size column is carried through. */
  const SizeReserved: set<string> := Reserved + {"root", "fullpath"}

  /** The size-table columns that still exist at the join, as far as a carried file-change column can tell. */
  function JoinedSizeColumns(fsCols: set<string>): set<string>
  {
    fsCols - {"root", "fullpath"}
  }

  /** The name column `c` of one input has in the result, given the other input's columns. */
  function JoinedAs(c: string, other: set<string>, sfx: string): string
  {
    if c in other then c + sfx else c
  }

  /** A cell of the size table as it is carried into the result: `path` loses the root marker. */
  function SizeCell(c: string, cell: Cell): Cell
  {
    if c == "path" then RootPath(cell) else cell
  }

  /**
   * Output row `o` (of a table with columns `oc`) comes from file change `i` and file `j`: their
   * keys match, `o` carries that key, `o`'s `filename` is the file's when both inputs have one,
   * and every other carried column of either input holds that input's cell, the file change's
   * filled and the file's with the root marker removed from `path`.
   */
  predicate TraceOf(fileCommits: Table, fileSizes: Table, oc: set<string>, o: Row, i: int, j: int)
  {
    && Matching(fileCommits, fileSizes, i, j)
    && Key in o && o[Key] == fileSizes.rows[j][Key]
    && ("filename" in fileCommits.columns && "filename" in fileSizes.columns ==>
          "filename" in oc && "filename" in o && "filename" in fileSizes.rows[j] &&
          o["filename"] == fileSizes.rows[j]["filename"])
    && (forall c :: c in fileCommits.columns && c !in Reserved ==>
          JoinedAs(c, JoinedSizeColumns(fileSizes.columns), "_x") in oc &&
          JoinedAs(c, JoinedSizeColumns(fileSizes.columns), "_x") in o && c in fileCommits.rows[i] &&
          o[JoinedAs(c, JoinedSizeColumns(fileSizes.columns), "_x")] == Fill(fileCommits.rows[i][c]))
    && (forall c :: c in fileSizes.columns && c !in SizeReserved ==>
          JoinedAs(c, fileCommits.columns, "_y") in oc && JoinedAs(c, fileCommits.columns, "_y") in o &&
          c in fileSizes.rows[j] && o[JoinedAs(c, fileCommits.columns, "_y")] == SizeCell(c, fileSizes.rows[j][c]))
  }

  /** Output row `o` comes from some file change and some file. */
  predicate TracesBack(fileCommits: Table, fileSizes: Table, oc: set<string>, o: Row)
  {
    exists i, j :: 0 <= i < |fileCommits.rows| && 0 <= j < |fileSizes.rows| && TraceOf(fileCommits, fileSizes, oc, o, i, j)
  }

  /**
   * The columns of the merged table for inputs with columns `fcCols` and `fsCols`: the prepared
   * tables' columns joined, without the two index columns and `filename_x`, and with
   * `filename_y` named `filename`.
   */
  function MergedColumns(fcCols: set<string>, fsCols: set<string>): set<string>
  {
    var lc := RenamedColumns(fcCols, "Unnamed: 0", "File_Commit_ID") + {Key};
    var rc := RenamedColumns(fsCols, "Unnamed: 0", "File_ID") - {"root", "fullpath"};
    RenamedColumns(JoinColumns(lc, rc) - {"File_Commit_ID", "File_ID", "filename_x"}, "filename_y", "filename")
  }

  /** The pairs (file change, file) of equal keys, file change by file change, then file by file. */
  function MergedPairs(fileCommits: Table, fileSizes: Table): seq<(nat, nat)>
    requires WellFormed(fileCommits) && "new_path" in fileCommits.columns
    requires WellFormed(fileSizes) && Key in fileSizes.columns
  {
    Pairs(FileCommitKeys(fileCommits), Keys(fileSizes), |fileCommits.rows|)
  }

  /**
   * `generate_merged_file_data` without its reads and writes: prepare both tables, join them on
   * the key, and consolidate the columns.
   */
  method GenerateMergedFileData(fileCommits: Table, fileSizes: Table) returns (res: Result<Table, MergeError>)
    requires WellFormed(fileCommits) && WellFormed(fileSizes)
    ensures "new_path" !in fileCommits.columns ==> res == Failure(MissingColumns({"new_path"}))
    ensures "new_path" in fileCommits.columns && !("root" in fileSizes.columns && "fullpath" in fileSizes.columns) ==>
              res == Failure(MissingColumns({"root", "fullpath"} - fileSizes.columns))
    ensures Mergeable(fileCommits.columns, fileSizes.columns) ==>
              res.Success? &&
              res.value.columns == fileCommits.columns - {"Unnamed: 0"} + {Key, "path"} + (fileSizes.columns - FileSizeColumns)
    ensures res.Success? ==>
              "new_path" in fileCommits.columns && "root" in fileSizes.columns && "fullpath" in fileSizes.columns &&
              Key in fileSizes.columns &&
              WellFormed(res.value) && Key in res.value.columns &&
              "File_Commit_ID" !in res.value.columns && "File_ID" !in res.value.columns &&
              "filename_x" !in res.value.columns &&
              |res.value.rows| == PairCount(FileCommitKeys(fileCommits), Keys(fileSizes), |fileCommits.rows|)
    ensures res.Success? ==> res.value.columns == MergedColumns(fileCommits.columns, fileSizes.columns)
    ensures res.Success? ==>
              |res.value.rows| == |MergedPairs(fileCommits, fileSizes)| &&
              forall p :: 0 <= p < |res.value.rows| ==>
                TraceOf(fileCommits, fileSizes, res.value.columns, res.value.rows[p],
                        MergedPairs(fileCommits, fileSizes)[p].0, MergedPairs(fileCommits, fileSizes)[p].1)
    ensures res.Success? ==>
              forall p :: 0 <= p < |res.value.rows| ==> TracesBack(fileCommits, fileSizes, res.value.columns, res.value.rows[p])
    ensures res.Success? ==>
              forall i, j :: Matching(fileCommits, fileSizes, i, j) ==>
                exists p :: 0 <= p < |res.value.rows| && TraceOf(fileCommits, fileSizes, res.value.columns, res.value.rows[p], i, j)
  {
    var standard := Mergeable(fileCommits.columns, fileSizes.columns);
    if standard {
      assert "root" in fileSizes.columns && "fullpath" in fileSizes.columns;
    }
    var left := PrepareFileCommits(fileCommits);
    if left.Failure? {
      return Failure(left.error);
    }
    var right := PrepareFileSizes(fileSizes);
    if right.Failure? {
      return Failure(right.error);
    }
    var fc, files := left.value, right.value;
    if standard {
      MergeableColumnsJoin(fileCommits.columns, fileSizes.columns, fc.columns, files.columns);
    }
    res := JoinPrepared(fileCommits, fileSizes, fc, files);
    if standard {
      MergedColumnsWithSizeTable(fileCommits.columns, fileSizes.columns);
    }
  }

  /**
   * The join and the consolidation of `generate_merged_file_data`, on the tables `fc` and `files`
   * that the two preparation steps made from `fileCommits` and `fileSizes`.
   */
  method JoinPrepared(fileCommits: Table, fileSizes: Table, fc: Table, files: Table) returns (res: Result<Table, MergeError>)
    requires WellFormed(fileCommits) && WellFormed(fileSizes) && "new_path" in fileCommits.columns
    requires WellFormed(fc) && WellFormed(files)
    requires |fc.rows| == |fileCommits.rows| && fc.columns == RenamedColumns(fileCommits.columns, "Unnamed: 0", "File_Commit_ID") + {Key}
    requires forall i :: 0 <= i < |fileCommits.rows| ==> fc.rows[i][Key] == Fill(fileCommits.rows[i]["new_path"])
    requires |files.rows| == |fileSizes.rows| && files.columns == RenamedColumns(fileSizes.columns, "Unnamed: 0", "File_ID") - {"root", "fullpath"}
    requires forall i, c :: 0 <= i < |fileSizes.rows| && c in fileSizes.columns && c !in {"Unnamed: 0", "File_ID", "path", "root", "fullpath"} ==>
               files.rows[i][c] == fileSizes.rows[i][c]
    requires forall i, c :: 0 <= i < |fileCommits.rows| && c in fileCommits.columns && c !in {"Unnamed: 0", "File_Commit_ID", Key} ==>
               fc.rows[i][c] == Fill(fileCommits.rows[i][c])
    requires "path" in fileSizes.columns ==>
               "path" in files.columns && forall i :: 0 <= i < |fileSizes.rows| ==> files.rows[i]["path"] == RootPath(fileSizes.rows[i]["path"])
    ensures (Key in fc.columns && Key in files.columns && NamesDistinct(fc.columns, files.columns) &&
             {"File_Commit_ID", "File_ID", "filename_x"} <= JoinColumns(fc.columns, files.columns)) ==> res.Success?
    ensures res.Success? ==>
              Key in fileSizes.columns && WellFormed(res.value) && Key in res.value.columns &&
              "File_Commit_ID" !in res.value.columns && "File_ID" !in res.value.columns &&
              "filename_x" !in res.value.columns &&
              |res.value.rows| == PairCount(FileCommitKeys(fileCommits), Keys(fileSizes), |fileCommits.rows|)
    ensures res.Success? ==> res.value.columns == MergedColumns(fileCommits.columns, fileSizes.columns)
    ensures res.Success? ==>
              |res.value.rows| == |MergedPairs(fileCommits, fileSizes)| &&
              forall p :: 0 <= p < |res.value.rows| ==>
                TraceOf(fileCommits, fileSizes, res.value.columns, res.value.rows[p],
                        MergedPairs(fileCommits, fileSizes)[p].0, MergedPairs(fileCommits, fileSizes)[p].1)
    ensures res.Success? ==>
              forall p :: 0 <= p < |res.value.rows| ==> TracesBack(fileCommits, fileSizes, res.value.columns, res.value.rows[p])
    ensures res.Success? ==>
              forall i, j :: Matching(fileCommits, fileSizes, i, j) ==>
                exists p :: 0 <= p < |res.value.rows| && TraceOf(fileCommits, fileSizes, res.value.columns, res.value.rows[p], i, j)
  {
    var merged := Merge(fc, files);
    if merged.Failure? {
      return Failure(merged.error);
    }
    var joined := merged.value;
    assert WellFormed(joined) && joined.rows == JoinRows(fc, files) &&
           |joined.rows| == PairCount(Keys(fc), Keys(files), |fc.rows|) &&
           (forall p :: 0 <= p < |joined.rows| ==> JoinedFrom(fc, files, joined.rows[p])) &&
           JoinComplete(fc, files, joined.rows) by {
      InnerJoinCorrect(fc, files);
      InnerJoinSound(fc, files);
      InnerJoinCompleteAll(fc, files);
    }
    var out := ConsolidateColumns(joined);
    if out.Failure? {
      return Failure(out.error);
    }
    res := out;
    MergedOutcome(fileCommits, fileSizes, fc, files, joined, out.value);
  }

  /** The three steps' guarantees give every property of the merged table `out`. */
  lemma MergedOutcome(fileCommits: Table, fileSizes: Table, fc: Table, files: Table, merged: Table, out: Table)
    requires WellFormed(fileCommits) && WellFormed(fileSizes) && "new_path" in fileCommits.columns
    requires JoinReady(fc, files) && merged.columns == JoinColumns(fc.columns, files.columns)
    requires |fc.rows| == |fileCommits.rows| && fc.columns == RenamedColumns(fileCommits.columns, "Unnamed: 0", "File_Commit_ID") + {Key}
    requires forall i :: 0 <= i < |fileCommits.rows| ==> fc.rows[i][Key] == Fill(fileCommits.rows[i]["new_path"])
    requires |files.rows| == |fileSizes.rows| && files.columns == RenamedColumns(fileSizes.columns, "Unnamed: 0", "File_ID") - {"root", "fullpath"}
    requires forall i, c :: 0 <= i < |fileSizes.rows| && c in fileSizes.columns && c !in {"Unnamed: 0", "File_ID", "path", "root", "fullpath"} ==>
               files.rows[i][c] == fileSizes.rows[i][c]
    requires forall i, c :: 0 <= i < |fileCommits.rows| && c in fileCommits.columns && c !in {"Unnamed: 0", "File_Commit_ID", Key} ==>
               fc.rows[i][c] == Fill(fileCommits.rows[i][c])
    requires "path" in fileSizes.columns ==>
               "path" in files.columns && forall i :: 0 <= i < |fileSizes.rows| ==> files.rows[i]["path"] == RootPath(fileSizes.rows[i]["path"])
    requires Consolidated(merged, out) && ConsolidatedCells(merged, out)
    requires merged.rows == JoinRows(fc, files) && |merged.rows| == PairCount(Keys(fc), Keys(files), |fc.rows|)
    requires forall p :: 0 <= p < |merged.rows| ==> JoinedFrom(fc, files, merged.rows[p])
    requires JoinComplete(fc, files, merged.rows)
    ensures Key in fileSizes.columns && Key in out.columns
    ensures "File_Commit_ID" !in out.columns && "File_ID" !in out.columns && "filename_x" !in out.columns
    ensures |out.rows| == PairCount(FileCommitKeys(fileCommits), Keys(fileSizes), |fileCommits.rows|)
    ensures out.columns == MergedColumns(fileCommits.columns, fileSizes.columns)
    ensures |out.rows| == |MergedPairs(fileCommits, fileSizes)| &&
            forall p :: 0 <= p < |out.rows| ==>
              TraceOf(fileCommits, fileSizes, out.columns, out.rows[p],
                      MergedPairs(fileCommits, fileSizes)[p].0, MergedPairs(fileCommits, fileSizes)[p].1)
    ensures forall p :: 0 <= p < |out.rows| ==> TracesBack(fileCommits, fileSizes, out.columns, out.rows[p])
    ensures forall i, j :: Matching(fileCommits, fileSizes, i, j) ==>
              exists p :: 0 <= p < |out.rows| && TraceOf(fileCommits, fileSizes, out.columns, out.rows[p], i, j)
  {
    PreparedFromSteps(fileCommits, fileSizes, fc, files);
    assert Stages(fileCommits, fileSizes, fc, files, merged, out);
    ConsolidatedColumns(fc.columns, files.columns, merged.columns, out.columns);
    PreparedKeys(fileCommits, fileSizes, fc, files);
    AllRowsTrace(fileCommits, fileSizes, fc, files, merged, out);
    MergedRowsTrace(fileCommits, fileSizes, fc, files, merged, out);
    MergedRowsComplete(fileCommits, fileSizes, fc, files, merged, out);
    MergedRowsInPairOrder(fileCommits, fileSizes, fc, files, merged, out);
  }

  /**
   * What the two preparation steps guarantee about the tables being joined: `fc` is keyed by the
   * filled `new_path` of `fileCommits`, and `files` keeps the key and `filename` of `fileSizes`.
   */
  predicate Prepared(fileCommits: Table, fileSizes: Table, fc: Table, files: Table)
  {
    && WellFormed(fileCommits) && WellFormed(fileSizes) && "new_path" in fileCommits.columns
    && Key in fileSizes.columns
    && JoinReady(fc, files) && |fc.rows| == |fileCommits.rows| && |files.rows| == |fileSizes.rows|
    && (forall k :: 0 <= k < |fc.rows| ==> fc.rows[k][Key] == Fill(fileCommits.rows[k]["new_path"]))
    && (forall k :: 0 <= k < |files.rows| ==> files.rows[k][Key] == fileSizes.rows[k][Key])
    && ("filename" in fileCommits.columns ==> "filename" in fc.columns)
    && ("filename" in fileSizes.columns ==>
          "filename" in files.columns &&
          forall k :: 0 <= k < |files.rows| ==> files.rows[k]["filename"] == fileSizes.rows[k]["filename"])
  }

  /** What the consolidation step guarantees: every row keeps its key, and `filename_y` becomes `filename`. */
  predicate Consolidated(merged: Table, out: Table)
  {
    && WellFormed(merged) && WellFormed(out) && |out.rows| == |merged.rows|
    && Key in merged.columns && Key in out.columns
    && (forall k :: 0 <= k < |merged.rows| ==> out.rows[k][Key] == merged.rows[k][Key])
    && ("filename_y" in merged.columns ==>
          "filename" in out.columns &&
          forall k :: 0 <= k < |merged.rows| ==> out.rows[k]["filename"] == merged.rows[k]["filename_y"])
  }

  /** The preparation steps' guarantees about the columns carried through and their cells. */
  predicate PreparedCells(fileCommits: Table, fileSizes: Table, fc: Table, files: Table)
    requires Prepared(fileCommits, fileSizes, fc, files)
  {
    && fc.columns == RenamedColumns(fileCommits.columns, "Unnamed: 0", "File_Commit_ID") + {Key}
    && files.columns == RenamedColumns(fileSizes.columns, "Unnamed: 0", "File_ID") - {"root", "fullpath"}
    && (forall k, c :: 0 <= k < |fc.rows| && c in fileCommits.columns && c !in Reserved ==>
          c in fc.columns && fc.rows[k][c] == Fill(fileCommits.rows[k][c]))
    && (forall k, c :: 0 <= k < |files.rows| && c in fileSizes.columns && c !in SizeReserved ==>
          c in files.columns && files.rows[k][c] == SizeCell(c, fileSizes.rows[k][c]))
  }

  /** The consolidation step's guarantees about the columns it keeps. */
  predicate ConsolidatedCells(merged: Table, out: Table)
    requires Consolidated(merged, out)
  {
    && out.columns == RenamedColumns(merged.columns - {"File_Commit_ID", "File_ID", "filename_x"}, "filename_y", "filename")
    && forall k, c :: 0 <= k < |out.rows| && c in out.columns && c != "filename" ==>
         c in merged.columns && out.rows[k][c] == merged.rows[k][c]
  }

  /** The guarantees of the three steps of the merge, from the inputs to the result. */
  predicate Stages(fileCommits: Table, fileSizes: Table, fc: Table, files: Table, merged: Table, out: Table)
  {
    && Prepared(fileCommits, fileSizes, fc, files) && PreparedCells(fileCommits, fileSizes, fc, files)
    && merged.columns == JoinColumns(fc.columns, files.columns)
    && Consolidated(merged, out) && ConsolidatedCells(merged, out)
  }

  /** Every pair of rows with equal keys has its joined row among `rows`. */
  predicate JoinComplete(l: Table, r: Table, rows: seq<Row>)
    requires JoinReady(l, r)
  {
    forall i, j :: 0 <= i < |l.rows| && 0 <= j < |r.rows| && l.rows[i][Key] == r.rows[j][Key] ==>
      JoinRow(l, r, i, j) in rows
  }

  /** The inner join leaves out no pair of rows with equal keys. */
  lemma InnerJoinCompleteAll(l: Table, r: Table)
    requires JoinReady(l, r)
    ensures JoinComplete(l, r, JoinRows(l, r))
  {
    forall i, j | 0 <= i < |l.rows| && 0 <= j < |r.rows| && l.rows[i][Key] == r.rows[j][Key]
      ensures JoinRow(l, r, i, j) in JoinRows(l, r)
    {
      InnerJoinComplete(l, r, i, j);
    }
  }

  /** The preparation steps' guarantees, bundled. */
  lemma PreparedFromSteps(fileCommits: Table, fileSizes: Table, fc: Table, files: Table)
    requires WellFormed(fileCommits) && WellFormed(fileSizes) && "new_path" in fileCommits.columns
    requires JoinReady(fc, files)
    requires |fc.rows| == |fileCommits.rows| && fc.columns == RenamedColumns(fileCommits.columns, "Unnamed: 0", "File_Commit_ID") + {Key}
    requires forall i :: 0 <= i < |fileCommits.rows| ==> fc.rows[i][Key] == Fill(fileCommits.rows[i]["new_path"])
    requires |files.rows| == |fileSizes.rows| && files.columns == RenamedColumns(fileSizes.columns, "Unnamed: 0", "File_ID") - {"root", "fullpath"}
    requires forall i, c :: 0 <= i < |fileSizes.rows| && c in fileSizes.columns && c !in {"Unnamed: 0", "File_ID", "path", "root", "fullpath"} ==>
               files.rows[i][c] == fileSizes.rows[i][c]
    requires forall i, c :: 0 <= i < |fileCommits.rows| && c in fileCommits.columns && c !in {"Unnamed: 0", "File_Commit_ID", Key} ==>
               fc.rows[i][c] == Fill(fileCommits.rows[i][c])
    requires "path" in fileSizes.columns ==>
               "path" in files.columns && forall i :: 0 <= i < |fileSizes.rows| ==> files.rows[i]["path"] == RootPath(fileSizes.rows[i]["path"])
    ensures Prepared(fileCommits, fileSizes, fc, files)
    ensures PreparedCells(fileCommits, fileSizes, fc, files)
  {
    KeyIsNotRenamed();
    RenamedMember(fileSizes.columns, "Unnamed: 0", "File_ID", Key);
    RenamedMember(fileCommits.columns, "Unnamed: 0", "File_Commit_ID", "filename");
    RenamedMember(fileSizes.columns, "Unnamed: 0", "File_ID", "filename");
    assert "filename" !in {"Unnamed: 0", "File_ID", "path", "root", "fullpath"};
    forall c | c in fileCommits.columns && c !in Reserved
      ensures c in fc.columns
    {
      RenamedMember(fileCommits.columns, "Unnamed: 0", "File_Commit_ID", c);
    }
    forall c | c in fileSizes.columns && c !in SizeReserved
      ensures c in files.columns
    {
      RenamedMember(fileSizes.columns, "Unnamed: 0", "File_ID", c);
    }
  }

  /** The consolidation step's guarantees, bundled. */
  lemma ConsolidatedFromStep(merged: Table, out: Table)
    requires WellFormed(merged) && WellFormed(out) && |out.rows| == |merged.rows|
    requires Key in merged.columns && Key in out.columns
    requires out.columns == RenamedColumns(merged.columns - {"File_Commit_ID", "File_ID", "filename_x"}, "filename_y", "filename")
    requires forall i, c :: 0 <= i < |merged.rows| && c in out.columns && c != "filename" ==>
               c in merged.columns && out.rows[i][c] == merged.rows[i][c]
    requires "filename_y" in merged.columns ==>
               "filename" in out.columns && forall i :: 0 <= i < |merged.rows| ==> out.rows[i]["filename"] == merged.rows[i]["filename_y"]
    ensures Consolidated(merged, out) && ConsolidatedCells(merged, out)
  {
    forall c | c in out.columns && c != "filename"
      ensures c in merged.columns
    {
      RenamedMember(merged.columns - {"File_Commit_ID", "File_ID", "filename_x"}, "filename_y", "filename", c);
    }
  }

  /** After consolidation the key is still a column and the index and left `filename` columns are gone. */
  lemma ConsolidatedColumns(lc: set<string>, rc: set<string>, jc: set<string>, oc: set<string>)
    requires Key in lc && jc == JoinColumns(lc, rc)
    requires oc == RenamedColumns(jc - {"File_Commit_ID", "File_ID", "filename_x"}, "filename_y", "filename")
    ensures Key in jc && Key in oc
    ensures "File_Commit_ID" !in oc && "File_ID" !in oc && "filename_x" !in oc
  {
    JoinKeepsKey(lc, rc);
    KeyIsNotRenamed();
    var rest := jc - {"File_Commit_ID", "File_ID", "filename_x"};
    RenamedMember(rest, "filename_y", "filename", Key);
    RenamedMember(rest, "filename_y", "filename", "File_Commit_ID");
    RenamedMember(rest, "filename_y", "filename", "File_ID");
    RenamedMember(rest, "filename_y", "filename", "filename_x");
  }

  /** The key columns of the prepared tables, in terms of the inputs. */
  lemma PreparedKeys(fileCommits: Table, fileSizes: Table, fc: Table, files: Table)
    requires Prepared(fileCommits, fileSizes, fc, files)
    ensures Keys(fc) == FileCommitKeys(fileCommits)
    ensures Keys(files) == Keys(fileSizes)
  {
  }

  /** Each row of `merged` joined from a pair of rows traces back to that pair in `out`. */
  predicate RowsTraced(fileCommits: Table, fileSizes: Table, fc: Table, files: Table, merged: Table, out: Table)
    requires JoinReady(fc, files)
  {
    && |out.rows| == |merged.rows|
    && forall p, i, j ::
         (0 <= p < |merged.rows| && 0 <= i < |fc.rows| && 0 <= j < |files.rows| &&
          fc.rows[i][Key] == files.rows[j][Key] && merged.rows[p] == JoinRow(fc, files, i, j)) ==>
           TraceOf(fileCommits, fileSizes, out.columns, out.rows[p], i, j)
  }

  /** The three steps' guarantees make every joined row trace back to its pair. */
  lemma AllRowsTrace(fileCommits: Table, fileSizes: Table, fc: Table, files: Table, merged: Table, out: Table)
    requires Stages(fileCommits, fileSizes, fc, files, merged, out)
    ensures JoinReady(fc, files) && RowsTraced(fileCommits, fileSizes, fc, files, merged, out)
  {
    forall p, i, j | 0 <= p < |merged.rows| && 0 <= i < |fc.rows| && 0 <= j < |files.rows| &&
                     fc.rows[i][Key] == files.rows[j][Key] && merged.rows[p] == JoinRow(fc, files, i, j)
      ensures TraceOf(fileCommits, fileSizes, out.columns, out.rows[p], i, j)
    {
      RowTrace(fileCommits, fileSizes, fc, files, merged, out, p, i, j);
    }
  }

  /** How a row of the result traces back to one row of each input. */
  lemma MergedRowsTrace(fileCommits: Table, fileSizes: Table, fc: Table, files: Table, merged: Table, out: Table)
    requires JoinReady(fc, files) && RowsTraced(fileCommits, fileSizes, fc, files, merged, out)
    requires forall p :: 0 <= p < |merged.rows| ==> JoinedFrom(fc, files, merged.rows[p])
    ensures forall p :: 0 <= p < |out.rows| ==> TracesBack(fileCommits, fileSizes, out.columns, out.rows[p])
  {
    forall p | 0 <= p < |out.rows|
      ensures TracesBack(fileCommits, fileSizes, out.columns, out.rows[p])
    {
      assert JoinedFrom(fc, files, merged.rows[p]);
      var i, j :| 0 <= i < |fc.rows| && 0 <= j < |files.rows| && fc.rows[i][Key] == files.rows[j][Key] &&
                  merged.rows[p] == JoinRow(fc, files, i, j);
      assert TraceOf(fileCommits, fileSizes, out.columns, out.rows[p], i, j);
    }
  }

  /** Row `p` of the result traces back to the `p`-th pair of equal keys. */
  lemma MergedRowsInPairOrder(fileCommits: Table, fileSizes: Table, fc: Table, files: Table, merged: Table, out: Table)
    requires Prepared(fileCommits, fileSizes, fc, files) && RowsTraced(fileCommits, fileSizes, fc, files, merged, out)
    requires merged.rows == JoinRows(fc, files)
    ensures |out.rows| == |MergedPairs(fileCommits, fileSizes)|
    ensures forall p :: 0 <= p < |out.rows| ==>
              TraceOf(fileCommits, fileSizes, out.columns, out.rows[p],
                      MergedPairs(fileCommits, fileSizes)[p].0, MergedPairs(fileCommits, fileSizes)[p].1)
  {
    PreparedKeys(fileCommits, fileSizes, fc, files);
    var ps := Pairs(Keys(fc), Keys(files), |fc.rows|);
    assert ps == MergedPairs(fileCommits, fileSizes);
    forall p | 0 <= p < |out.rows|
      ensures TraceOf(fileCommits, fileSizes, out.columns, out.rows[p], ps[p].0, ps[p].1)
    {
      var i, j := ps[p].0, ps[p].1;
      assert merged.rows[p] == JoinRow(fc, files, i, j);
      assert Keys(fc)[i] == Keys(files)[j];
    }
  }

  /** Every file change with a matching file has a row of the result that traces back to the pair. */
  lemma MergedRowsComplete(fileCommits: Table, fileSizes: Table, fc: Table, files: Table, merged: Table, out: Table)
    requires Prepared(fileCommits, fileSizes, fc, files) && RowsTraced(fileCommits, fileSizes, fc, files, merged, out)
    requires JoinComplete(fc, files, merged.rows)
    ensures forall i, j :: Matching(fileCommits, fileSizes, i, j) ==>
              exists p :: 0 <= p < |out.rows| && TraceOf(fileCommits, fileSizes, out.columns, out.rows[p], i, j)
  {
    forall i, j | Matching(fileCommits, fileSizes, i, j)
      ensures exists p :: 0 <= p < |out.rows| && TraceOf(fileCommits, fileSizes, out.columns, out.rows[p], i, j)
    {
      assert fc.rows[i][Key] == files.rows[j][Key];
      assert JoinRow(fc, files, i, j) in merged.rows;
      var p :| 0 <= p < |merged.rows| && merged.rows[p] == JoinRow(fc, files, i, j);
      assert TraceOf(fileCommits, fileSizes, out.columns, out.rows[p], i, j);
    }
  }

  /** Output row `p`, made from left row `i` and right row `j`, traces back to them. */
  lemma RowTrace(fileCommits: Table, fileSizes: Table, fc: Table, files: Table, merged: Table, out: Table,
                 p: nat, i: nat, j: nat)
    requires Stages(fileCommits, fileSizes, fc, files, merged, out)
    requires p < |merged.rows| && i < |fc.rows| && j < |files.rows| && fc.rows[i][Key] == files.rows[j][Key]
    requires merged.rows[p] == JoinRow(fc, files, i, j)
    ensures TraceOf(fileCommits, fileSizes, out.columns, out.rows[p], i, j)
  {
    assert merged.rows[p][Key] == fc.rows[i][Key];
    if "filename" in fileCommits.columns && "filename" in fileSizes.columns {
      FilenameTrace(fc, files, i, j, merged, out, p);
    }
    forall c | c in fileCommits.columns && c !in Reserved
      ensures var n := JoinedAs(c, JoinedSizeColumns(fileSizes.columns), "_x");
              n in out.columns && n in out.rows[p] && out.rows[p][n] == Fill(fileCommits.rows[i][c])
    {
      assert c in fc.columns && fc.rows[i][c] == Fill(fileCommits.rows[i][c]);
      LeftJoined(fileCommits, fileSizes, fc, files, i, j, c);
      KeptName(c, JoinedSizeColumns(fileSizes.columns), "_x");
      ConsolidatedCell(merged, out, p, JoinedAs(c, JoinedSizeColumns(fileSizes.columns), "_x"));
    }
    forall c | c in fileSizes.columns && c !in SizeReserved
      ensures JoinedAs(c, fileCommits.columns, "_y") in out.columns && JoinedAs(c, fileCommits.columns, "_y") in out.rows[p] &&
              out.rows[p][JoinedAs(c, fileCommits.columns, "_y")] == SizeCell(c, fileSizes.rows[j][c])
    {
      assert c in files.columns && files.rows[j][c] == SizeCell(c, fileSizes.rows[j][c]);
      RightJoined(fileCommits, fileSizes, fc, files, i, j, c);
      KeptName(c, fileCommits.columns, "_y");
      ConsolidatedCell(merged, out, p, JoinedAs(c, fileCommits.columns, "_y"));
    }
  }

  /** A carried column of the file-change table holds the filled cell of left row `i` in the joined row. */
  lemma LeftJoined(fileCommits: Table, fileSizes: Table, fc: Table, files: Table, i: nat, j: nat, c: string)
    requires JoinReady(fc, files) && i < |fc.rows| && j < |files.rows| && i < |fileCommits.rows|
    requires files.columns == RenamedColumns(fileSizes.columns, "Unnamed: 0", "File_ID") - {"root", "fullpath"}
    requires c !in Reserved && c in fc.columns && c in fileCommits.rows[i] && fc.rows[i][c] == Fill(fileCommits.rows[i][c])
    ensures JoinedAs(c, JoinedSizeColumns(fileSizes.columns), "_x") in JoinColumns(fc.columns, files.columns)
    ensures JoinRow(fc, files, i, j)[JoinedAs(c, JoinedSizeColumns(fileSizes.columns), "_x")] == Fill(fileCommits.rows[i][c])
  {
    RenamedMember(fileSizes.columns, "Unnamed: 0", "File_ID", c);
    var ov := Overlap(fc.columns, files.columns);
    assert Suffixed(c, ov, "_x") == JoinedAs(c, JoinedSizeColumns(fileSizes.columns), "_x");
    assert Suffixed(c, ov, "_x") in SuffixedNames(fc.columns, ov, "_x");
    JoinRowLeft(fc, files, i, j, c);
  }

  /** A carried column of the size table holds the prepared cell of right row `j` in the joined row. */
  lemma RightJoined(fileCommits: Table, fileSizes: Table, fc: Table, files: Table, i: nat, j: nat, c: string)
    requires JoinReady(fc, files) && i < |fc.rows| && j < |files.rows| && j < |fileSizes.rows|
    requires fc.columns == RenamedColumns(fileCommits.columns, "Unnamed: 0", "File_Commit_ID") + {Key}
    requires c !in SizeReserved && c in files.columns && c in fileSizes.rows[j] && files.rows[j][c] == SizeCell(c, fileSizes.rows[j][c])
    ensures JoinedAs(c, fileCommits.columns, "_y") in JoinColumns(fc.columns, files.columns)
    ensures JoinRow(fc, files, i, j)[JoinedAs(c, fileCommits.columns, "_y")] == SizeCell(c, fileSizes.rows[j][c])
  {
    RenamedMember(fileCommits.columns, "Unnamed: 0", "File_Commit_ID", c);
    assert Suffixed(c, Overlap(fc.columns, files.columns), "_y") == JoinedAs(c, fileCommits.columns, "_y");
    JoinedName(fc.columns, files.columns, c);
    JoinRowRight(fc, files, i, j, c);
  }

  /** A joined column that consolidation neither drops nor renames keeps its cells. */
  lemma ConsolidatedCell(merged: Table, out: Table, p: nat, n: string)
    requires Consolidated(merged, out) && ConsolidatedCells(merged, out) && p < |merged.rows|
    requires n in merged.columns && n !in {"File_Commit_ID", "File_ID", "filename_x", "filename_y", "filename"}
    ensures n in out.columns && n in out.rows[p] && out.rows[p][n] == merged.rows[p][n]
  {
    RenamedMember(merged.columns - {"File_Commit_ID", "File_ID", "filename_x"}, "filename_y", "filename", n);
  }

  /** A carried column's name in the join is none of the names the consolidation drops or renames. */
  lemma KeptName(c: string, other: set<string>, sfx: string)
    requires c !in Reserved && (sfx == "_x" || sfx == "_y")
    ensures JoinedAs(c, other, sfx) !in {"File_Commit_ID", "File_ID", "filename_x", "filename_y", "filename"}
  {
    if c in other {
      var n := c + sfx;
      assert n[|n| - 1] == sfx[1];
      if n == "filename_x" {
        SuffixCancel(c, "filename", "_x");
      }
      if n == "filename_y" {
        SuffixCancel(c, "filename", "_y");
      }
    }
  }

  /** With `filename` on both sides, the result's `filename` is the size table's. */
  lemma FilenameTrace(fc: Table, files: Table, i: nat, j: nat, merged: Table, out: Table, p: nat)
    requires JoinReady(fc, files) && i < |fc.rows| && j < |files.rows|
    requires "filename" in fc.columns && "filename" in files.columns
    requires merged.columns == JoinColumns(fc.columns, files.columns)
    requires WellFormed(merged) && WellFormed(out) && p < |merged.rows| == |out.rows|
    requires merged.rows[p] == JoinRow(fc, files, i, j)
    requires "filename_y" in merged.columns ==> "filename" in out.columns && forall q :: 0 <= q < |merged.rows| ==> out.rows[q]["filename"] == merged.rows[q]["filename_y"]
    ensures "filename" in out.columns && out.rows[p]["filename"] == files.rows[j]["filename"]
  {
    JoinRowFilename(fc, files, i, j);
  }

  /** A `filename` on both sides of the join: the right one is `filename_y` of the joined row. */
  lemma JoinRowFilename(l: Table, r: Table, i: nat, j: nat)
    requires JoinReady(l, r) && i < |l.rows| && j < |r.rows|
    requires "filename" in l.columns && "filename" in r.columns
    ensures "filename_y" in JoinColumns(l.columns, r.columns)
    ensures JoinRow(l, r, i, j)["filename_y"] == r.rows[j]["filename"]
  {
    var ov := Overlap(l.columns, r.columns);
    assert "filename" in ov;
    assert Suffixed("filename", ov, "_y") == "filename_y";
    JoinedName(l.columns, r.columns, "filename");
    JoinRowRight(l, r, i, j, "filename");
  }

  /** A left cell sits in the joined row under its suffixed name. */
  lemma JoinRowLeft(l: Table, r: Table, i: nat, j: nat, c: string)
    requires JoinReady(l, r) && i < |l.rows| && j < |r.rows| && c in l.columns
    ensures JoinRow(l, r, i, j)[Suffixed(c, Overlap(l.columns, r.columns), "_x")] == l.rows[i][c]
  {
    JoinRowCells(l, r, i, j);
  }

  /** A right cell other than the key sits in the joined row under its suffixed name. */
  lemma JoinRowRight(l: Table, r: Table, i: nat, j: nat, c: string)
    requires JoinReady(l, r) && i < |l.rows| && j < |r.rows| && c in r.columns && c != Key
    ensures JoinRow(l, r, i, j)[Suffixed(c, Overlap(l.columns, r.columns), "_y")] == r.rows[j][c]
  {
    JoinRowCells(l, r, i, j);
  }

  /** A right column other than the key appears in the joined table under its suffixed name. */
  lemma JoinedName(lc: set<string>, rc: set<string>, c: string)
    requires c in rc && c != Key
    ensures Suffixed(c, Overlap(lc, rc), "_y") in JoinColumns(lc, rc)
  {
    var ov := Overlap(lc, rc);
    assert Suffixed(c, ov, "_y") in SuffixedNames(rc - {Key}, ov, "_y");
  }
}
