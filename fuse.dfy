/** `fuse_main_csv` once the directory listing and the CSV reader are taken
    away: each file is its sequence of rows, in the order the listing gave. */
module Fuse {
  import opened Outcomes
  import opened SongRecords

  /** Where the merge stopped: the file (by position in the listing), the row
      within it (row 0 is the skipped first line) and the field that raised. */
  datatype FuseError = FuseError(file: nat, row: nat, field: Field)

  /** The records of one file: its first row dropped, every other row
      constructed in order; the first row that fails aborts. */
  function FileRecords(rows: seq<Row>, file: nat): Result<seq<SongRecord>, FuseError>
  {
    if |rows| <= 1 then Success([])
    else
      match FileRecords(rows[..|rows| - 1], file)
      case Failure(e) => Failure(e)
      case Success(done) =>
        match Construct(rows[|rows| - 1])
        case Failure(f) => Failure(FuseError(file, |rows| - 1, f))
        case Success(rec) => Success(done + [rec])
  }

  /** The merged catalog: the files' records concatenated in file order;
      the first failing file aborts the merge. */
  function Merged(files: seq<seq<Row>>): Result<seq<SongRecord>, FuseError>
  {
    if |files| == 0 then Success([])
    else
      match Merged(files[..|files| - 1])
      case Failure(e) => Failure(e)
      case Success(done) =>
        match FileRecords(files[|files| - 1], |files| - 1)
        case Failure(e) => Failure(e)
        case Success(recs) => Success(done + recs)
  }

  lemma {:induction false} FileFailureSticks(rows: seq<Row>, file: nat, i: nat)
    requires i <= |rows| && FileRecords(rows[..i], file).Failure?
    ensures FileRecords(rows, file) == FileRecords(rows[..i], file)
    decreases |rows| - i
  {
    if i < |rows| {
      assert rows[..i + 1][..i] == rows[..i];
      FileFailureSticks(rows, file, i + 1);
    } else {
      assert rows[..i] == rows;
    }
  }

  lemma {:induction false} FuseFailureSticks(files: seq<seq<Row>>, k: nat)
    requires k <= |files| && Merged(files[..k]).Failure?
    ensures Merged(files) == Merged(files[..k])
    decreases |files| - k
  {
    if k < |files| {
      assert files[..k + 1][..k] == files[..k];
      FuseFailureSticks(files, k + 1);
    } else {
      assert files[..k] == files;
    }
  }

  /** The list comprehension over one file's reader, after `next(reader, None)`
      has consumed the first row if there is one. */
  method ReadFile(rows: seq<Row>, file: nat) returns (r: Result<seq<SongRecord>, FuseError>)
    ensures r == FileRecords(rows, file)
  {
    var built: seq<SongRecord> := [];
    var i := if |rows| == 0 then 0 else 1;
    while i < |rows|
      invariant i <= |rows| && (i == 0 ==> |rows| == 0)
      invariant FileRecords(rows[..i], file) == Success(built)
    {
      assert rows[..i + 1][..i] == rows[..i];
      var rec := Construct(rows[i]);
      if rec.Failure? {
        FileFailureSticks(rows, file, i + 1);
        return Failure(FuseError(file, i, rec.error));
      }
      built := built + [rec.value];
      i := i + 1;
    }
    assert rows[..i] == rows;
    return Success(built);
  }

  /** `fuse_main_csv`: extend the catalog with each file's records in turn. */
  method FuseFiles(files: seq<seq<Row>>) returns (r: Result<seq<SongRecord>, FuseError>)
    ensures r == Merged(files)
  {
    var lines: seq<SongRecord> := [];
    var k := 0;
    while k < |files|
      invariant k <= |files|
      invariant Merged(files[..k]) == Success(lines)
    {
      assert files[..k + 1][..k] == files[..k];
      var recs := ReadFile(files[k], k);
      if recs.Failure? {
        FuseFailureSticks(files, k + 1);
        return Failure(recs.error);
      }
      lines := lines + recs.value;
      k := k + 1;
    }
    assert files[..k] == files;
    return Success(lines);
  }

  // An independent description of the merge: flatten the data rows of all
  // files first, then construct every one of them.

  /** The rows of one file that become records: all but the first. */
  function DataRows(rows: seq<Row>): seq<Row> {
    if |rows| == 0 then [] else rows[1..]
  }

  /** The data rows of all files, in file order then row order. */
  function AllDataRows(files: seq<seq<Row>>): seq<Row> {
    if |files| == 0 then [] else AllDataRows(files[..|files| - 1]) + DataRows(files[|files| - 1])
  }

  /** The sum over the files of max(rows - 1, 0). */
  function DataRowCount(files: seq<seq<Row>>): nat {
    if |files| == 0 then 0
    else DataRowCount(files[..|files| - 1]) + (if |files[|files| - 1]| == 0 then 0 else |files[|files| - 1]| - 1)
  }

  predicate AllConstruct(rows: seq<Row>) {
    forall i :: 0 <= i < |rows| ==> Construct(rows[i]).Success?
  }

  function Constructed(rows: seq<Row>): seq<SongRecord>
    requires AllConstruct(rows)
  {
    seq(|rows|, i requires 0 <= i < |rows| => Construct(rows[i]).value)
  }

  lemma ConstructedAppend(a: seq<Row>, b: seq<Row>)
    ensures AllConstruct(a + b) <==> AllConstruct(a) && AllConstruct(b)
    ensures AllConstruct(a + b) ==> Constructed(a + b) == Constructed(a) + Constructed(b)
  {
    if !AllConstruct(a) {
      var i :| 0 <= i < |a| && Construct(a[i]).Failure?;
      assert (a + b)[i] == a[i];
    }
    if !AllConstruct(b) {
      var i :| 0 <= i < |b| && Construct(b[i]).Failure?;
      assert (a + b)[|a| + i] == b[i];
    }
  }

  /** One file contributes exactly its data rows, each constructed, and
      fails exactly when one of them fails. */
  lemma {:induction false} FileRecordsReference(rows: seq<Row>, file: nat)
    ensures FileRecords(rows, file).Success? <==> AllConstruct(DataRows(rows))
    ensures FileRecords(rows, file).Success? ==>
      FileRecords(rows, file).value == Constructed(DataRows(rows))
  {
    if |rows| > 1 {
      var front := rows[..|rows| - 1];
      FileRecordsReference(front, file);
      assert DataRows(rows) == DataRows(front) + [rows[|rows| - 1]];
      ConstructedAppend(DataRows(front), [rows[|rows| - 1]]);
    }
  }

  /** The merge succeeds exactly when every data row of every file
      constructs, and then the catalog is those rows' records in file order
      then row order. */
  lemma {:induction false} FuseReference(files: seq<seq<Row>>)
    ensures Merged(files).Success? <==> AllConstruct(AllDataRows(files))
    ensures Merged(files).Success? ==> Merged(files).value == Constructed(AllDataRows(files))
  {
    if |files| > 0 {
      var front := files[..|files| - 1];
      var last := files[|files| - 1];
      FuseReference(front);
      FileRecordsReference(last, |files| - 1);
      ConstructedAppend(AllDataRows(front), DataRows(last));
    }
  }

  lemma {:induction false} AllDataRowsLength(files: seq<seq<Row>>)
    ensures |AllDataRows(files)| == DataRowCount(files)
  {
    if |files| > 0 {
      AllDataRowsLength(files[..|files| - 1]);
    }
  }

  /** A successful merge has one record per data row: the sum over the
      files of max(rows - 1, 0); no files give the empty catalog. */
  lemma CatalogLength(files: seq<seq<Row>>)
    ensures files == [] ==> Merged(files) == Success([])
    ensures Merged(files).Success? ==> |Merged(files).value| == DataRowCount(files)
  {
    FuseReference(files);
    AllDataRowsLength(files);
  }

  lemma {:induction false} AllDataRowsAppend(a: seq<seq<Row>>, b: seq<seq<Row>>)
    ensures AllDataRows(a + b) == AllDataRows(a) + AllDataRows(b)
  {
    if |b| > 0 {
      var front := b[..|b| - 1];
      var last := b[|b| - 1];
      AllDataRowsAppend(a, front);
      assert (a + b)[..|a + b| - 1] == a + front;
      assert (a + b)[|a + b| - 1] == last;
      assert AllDataRows(a + b) == AllDataRows(a + front) + DataRows(last);
      assert AllDataRows(b) == AllDataRows(front) + DataRows(last);
    } else {
      assert a + b == a;
    }
  }

  /** Merging two lists of files: a failure in the first list is the failure
      of the whole, and two successes concatenate. */
  lemma FuseAppend(a: seq<seq<Row>>, b: seq<seq<Row>>)
    ensures Merged(a).Failure? ==> Merged(a + b) == Merged(a)
    ensures Merged(a).Success? && Merged(b).Success? ==>
      Merged(a + b) == Success(Merged(a).value + Merged(b).value)
  {
    if Merged(a).Failure? {
      assert (a + b)[..|a|] == a;
      FuseFailureSticks(a + b, |a|);
    }
    FuseReference(a);
    FuseReference(b);
    FuseReference(a + b);
    AllDataRowsAppend(a, b);
    ConstructedAppend(AllDataRows(a), AllDataRows(b));
  }

  /** A file with no row or only its first row adds nothing. */
  lemma ShortFileAddsNothing(files: seq<seq<Row>>, f: seq<Row>)
    requires |f| <= 1
    ensures Merged(files + [f]) == Merged(files)
  {
    assert (files + [f])[..|files|] == files;
    if Merged(files).Success? {
      assert Merged(files).value + [] == Merged(files).value;
    }
  }

  /** A failed file names its first data row that does not construct: all
      rows before it construct, and no records are returned. */
  lemma {:induction false} FileFailureIsFirst(rows: seq<Row>, file: nat)
    requires FileRecords(rows, file).Failure?
    ensures var e := FileRecords(rows, file).error;
      e.file == file && 1 <= e.row < |rows| &&
      Construct(rows[e.row]) == Failure(e.field) &&
      FileRecords(rows[..e.row], file).Success?
  {
    var front := rows[..|rows| - 1];
    if FileRecords(front, file).Failure? {
      FileFailureIsFirst(front, file);
      var e := FileRecords(rows, file).error;
      assert front[..e.row] == rows[..e.row];
    } else {
      assert rows[..|rows| - 1] == front;
    }
  }

  /** A failed merge names the first data row, in file order then row order,
      whose numeric fields do not coerce: every file before it and every row
      before it in its file construct, and no partial catalog is returned. */
  lemma {:induction false} FuseFailureIsFirst(files: seq<seq<Row>>)
    requires Merged(files).Failure?
    ensures var e := Merged(files).error;
      e.file < |files| && 1 <= e.row < |files[e.file]| &&
      Construct(files[e.file][e.row]) == Failure(e.field) &&
      Merged(files[..e.file]).Success? &&
      FileRecords(files[e.file][..e.row], e.file).Success?
  {
    var front := files[..|files| - 1];
    if Merged(front).Failure? {
      FuseFailureIsFirst(front);
      var e := Merged(files).error;
      assert front[..e.file] == files[..e.file];
    } else {
      FileFailureIsFirst(files[|files| - 1], |files| - 1);
    }
  }
}
