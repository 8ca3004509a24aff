/** `output_main_csv`: the text of the merged catalog file, and reading that
    text back through the merge's first-row skip. */
module Output {
  import opened Outcomes
  import opened SongRecords
  import Text
  import Fuse

  /** The fixed first line of the catalog file. Its column names differ from
      the reader's field names; it is documentation only. It is written as
      the concatenation of its columns, which is the same string and keeps
      proofs about it cheap for the solver. */
  const Header: string :=
    "Title" + "," + "Album" + "," + "Artist" + "," + "Duration (ms)" + "," +
    "Rating" + "," + "Play Count" + "," + "Removed"

  /** One serialised record per catalog entry, in catalog order. */
  function Lines(catalog: seq<SongRecord>): seq<string> {
    seq(|catalog|, i requires 0 <= i < |catalog| => Serialize(catalog[i]))
  }

  /** The file text: the header and the record lines joined by line breaks,
      with no line break after the last line. */
  function CatalogText(catalog: seq<SongRecord>): (text: string)
    ensures |text| >= |Header| && text[..|Header|] == Header
  {
    var parts := [Header] + Lines(catalog);
    Text.JoinStartsWith(parts, '\n');
    Text.Join(parts, '\n')
  }

  /** The header read as a row: seven fields, the fourth of which is the
      column name `Duration (ms)`. */
  function HeaderRow(): Row {
    Row("Title", "Album", "Artist", "Duration (ms)", "Rating", "Play Count", "Removed")
  }

  lemma HeaderJoin()
    ensures Header == Text.Join(RowFields(HeaderRow()), ',')
  {
    var h := HeaderRow();
    Text.Join7(h.title, h.album, h.artist, h.durationMs, h.rating, h.playCount, h.removed, ',');
  }

  lemma HeaderFields()
    ensures Text.AllFreeOf(RowFields(HeaderRow()), ',')
    ensures Text.AllFreeOf(RowFields(HeaderRow()), '\n')
  {
    var f := RowFields(HeaderRow());
    forall k | 0 <= k < 7
      ensures Text.FreeOf(f[k], ',') && Text.FreeOf(f[k], '\n')
    {
      ColumnNameText(f[k]);
    }
  }

  /** Text made of letters, spaces and parentheses holds no comma and no
      line break. */
  lemma ColumnNameText(s: string)
    requires forall i :: 0 <= i < |s| ==>
      'A' <= s[i] <= 'Z' || 'a' <= s[i] <= 'z' || s[i] == ' ' || s[i] == '(' || s[i] == ')'
    ensures Text.FreeOf(s, ',') && Text.FreeOf(s, '\n')
  {
  }

  /** The header is one line of seven comma-separated fields, and as a row
      it does not construct: `Duration (ms)` is not integer text. This is why
      the merge drops the first row of every file. */
  lemma HeaderIsNotARecord()
    ensures Text.FreeOf(Header, '\n')
    ensures ParseLine(Header) == Some(HeaderRow())
    ensures Construct(HeaderRow()) == Failure(DurationMs)
  {
    HeaderJoin();
    HeaderFields();
    Text.JoinFree(RowFields(HeaderRow()), ',', '\n');
    Text.SplitJoin(RowFields(HeaderRow()), ',');
  }

  /** An empty catalog writes exactly the header. */
  lemma EmptyCatalogText()
    ensures CatalogText([]) == Header
  {
  }

  predicate SingleLineRecords(catalog: seq<SongRecord>) {
    forall i :: 0 <= i < |catalog| ==> TextFreeOf(catalog[i], '\n')
  }

  /** The text splits into the header followed by one line per record, in
      catalog order, when no text field holds a line break: n records give
      n + 1 lines. */
  lemma CatalogTextLines(catalog: seq<SongRecord>)
    requires SingleLineRecords(catalog)
    ensures Text.Split(CatalogText(catalog), '\n') == [Header] + Lines(catalog)
    ensures |Text.Split(CatalogText(catalog), '\n')| == |catalog| + 1
    ensures Text.Split(CatalogText(catalog), '\n')[0] == Header
  {
    HeaderIsNotARecord();
    var parts := [Header] + Lines(catalog);
    forall k | 0 <= k < |parts|
      ensures Text.FreeOf(parts[k], '\n')
    {
      if k > 0 {
        SerializeSingleLine(catalog[k - 1]);
      }
    }
    Text.SplitJoin(parts, '\n');
  }

  /** The text starts with the header and never ends in a line break; after
      the header comes a line break exactly when the catalog is not empty. */
  lemma CatalogTextShape(catalog: seq<SongRecord>)
    ensures |CatalogText(catalog)| >= |Header|
    ensures CatalogText(catalog)[..|Header|] == Header
    ensures |CatalogText(catalog)| > |Header| <==> |catalog| > 0
    ensures |catalog| > 0 ==> CatalogText(catalog)[|Header|] == '\n'
    ensures CatalogText(catalog)[|CatalogText(catalog)| - 1] != '\n'
  {
    var parts := [Header] + Lines(catalog);
    Text.JoinStartsWith(parts, '\n');
    if |catalog| > 0 {
      assert parts[1..] == Lines(catalog);
    } else {
      assert parts == [Header];
    }
    CatalogTextEnd(catalog);
  }

  lemma CatalogTextEnd(catalog: seq<SongRecord>)
    ensures |CatalogText(catalog)| > 0
    ensures CatalogText(catalog)[|CatalogText(catalog)| - 1] != '\n'
  {
    var parts := [Header] + Lines(catalog);
    var last := parts[|parts| - 1];
    if |catalog| > 0 {
      assert last == Serialize(catalog[|catalog| - 1]);
      LineEnd(catalog[|catalog| - 1]);
    } else {
      assert last == Header;
    }
    Text.JoinLastChar(parts, '\n');
  }

  /** A serialised record ends in a comma or in `True`, never in a line
      break. */
  lemma LineEnd(r: SongRecord)
    ensures |Serialize(r)| > 0 && Serialize(r)[|Serialize(r)| - 1] != '\n'
  {
    var line := Serialize(r);
    var flag := RemovedText(r.removed);
    if r.removed {
      assert line[|line| - |flag|..][|flag| - 1] == line[|line| - 1];
    }
  }

  /** Reading a catalog file back: split into lines, each line split at
      commas into a row of seven fields; `None` if some line is not seven
      fields. */
  function ReadBack(text: string): Option<seq<Row>> {
    var lines := Text.Split(text, '\n');
    if forall i :: 0 <= i < |lines| ==> ParseLine(lines[i]).Some? then
      Some(seq(|lines|, i requires 0 <= i < |lines| => ParseLine(lines[i]).value))
    else None
  }

  /** The rows a catalog's records are written as. */
  function RecordRows(catalog: seq<SongRecord>): seq<Row> {
    seq(|catalog|, i requires 0 <= i < |catalog| => RowOf(catalog[i]))
  }

  /** Reading the written text gives the header row followed by one row per
      record, when no text field holds a comma or a line break. */
  lemma ReadBackCatalog(catalog: seq<SongRecord>)
    requires SingleLineRecords(catalog)
    requires forall i :: 0 <= i < |catalog| ==> TextFreeOf(catalog[i], ',')
    ensures ReadBack(CatalogText(catalog)) == Some([HeaderRow()] + RecordRows(catalog))
  {
    CatalogTextLines(catalog);
    var lines := [Header] + Lines(catalog);
    var rows := [HeaderRow()] + RecordRows(catalog);
    forall i | 0 <= i < |lines|
      ensures ParseLine(lines[i]) == Some(rows[i])
    {
      LineReadsAsRow(catalog, i);
    }
    ReadBackLines(CatalogText(catalog), rows);
  }

  lemma LineReadsAsRow(catalog: seq<SongRecord>, i: nat)
    requires i <= |catalog|
    requires forall i :: 0 <= i < |catalog| ==> TextFreeOf(catalog[i], ',')
    ensures ParseLine(([Header] + Lines(catalog))[i]) == Some(([HeaderRow()] + RecordRows(catalog))[i])
  {
    var lines := [Header] + Lines(catalog);
    var rows := [HeaderRow()] + RecordRows(catalog);
    if i == 0 {
      HeaderIsNotARecord();
      assert lines[0] == Header && rows[0] == HeaderRow();
    } else {
      SerializeRoundTrip(catalog[i - 1]);
      assert lines[i] == Serialize(catalog[i - 1]) && rows[i] == RowOf(catalog[i - 1]);
    }
  }

  lemma ReadBackLines(text: string, rows: seq<Row>)
    requires |Text.Split(text, '\n')| == |rows|
    requires forall i :: 0 <= i < |rows| ==> ParseLine(Text.Split(text, '\n')[i]) == Some(rows[i])
    ensures ReadBack(text) == Some(rows)
  {
    var lines := Text.Split(text, '\n');
    assert forall i :: 0 <= i < |lines| ==> ParseLine(lines[i]).Some?;
    var read := seq(|lines|, i requires 0 <= i < |lines| => ParseLine(lines[i]).value);
    assert forall i :: 0 <= i < |rows| ==> read[i] == rows[i];
    assert read == rows;
  }

  /** Merging one file made of any first row followed by the rows of a
      catalog's records gives back the catalog. */
  lemma MergeRecordRows(first: Row, catalog: seq<SongRecord>)
    ensures Fuse.Merged([[first] + RecordRows(catalog)]) == Success(catalog)
  {
    var rows := [first] + RecordRows(catalog);
    var data := Fuse.DataRows(rows);
    assert data == RecordRows(catalog);
    forall i | 0 <= i < |data|
      ensures Construct(data[i]) == Success(catalog[i])
    {
      RowOfConstructs(catalog[i]);
    }
    Fuse.FileRecordsReference(rows, 0);
    assert Fuse.Constructed(data) == catalog;
    assert Fuse.FileRecords(rows, 0) == Success(catalog);
    assert [rows][..0] == [];
    assert [] + catalog == catalog;
  }

  /** Round trip of the whole file: when no title, album or artist holds a
      comma or line break, reading the written text back as one file through
      the merge, which skips its header line, gives the same catalog. */
  lemma WriteThenMerge(catalog: seq<SongRecord>)
    requires SingleLineRecords(catalog)
    requires forall i :: 0 <= i < |catalog| ==> TextFreeOf(catalog[i], ',')
    ensures ReadBack(CatalogText(catalog)).Some?
    ensures ReadBack(CatalogText(catalog)).value[0] == HeaderRow()
    ensures Fuse.Merged([ReadBack(CatalogText(catalog)).value]) == Success(catalog)
  {
    ReadBackCatalog(catalog);
    MergeRecordRows(HeaderRow(), catalog);
  }
}
