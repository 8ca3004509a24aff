/** One catalog entry: how a CSV row of seven text fields becomes a
    `SongRecord`, and how a record is written back as one line. */
module SongRecords {
  import opened Outcomes
  import Decimal
  import Text

  /** A row as the CSV reader hands it over: seven text fields, named as in
      the reader's fixed field list. */
  datatype Row = Row(
    title: string, album: string, artist: string,
    durationMs: string, rating: string, playCount: string, removed: string)

  /** The numeric field whose `int` coercion raised. */
  datatype Field = DurationMs | Rating | PlayCount

  datatype SongRecord = SongRecord(
    title: string, album: string, artist: string,
    durationMs: int, rating: int, playCount: int, removed: bool)

  /** Python truthiness of a string. */
  predicate Truthy(s: string) {
    s != ""
  }

  /** The dataclass constructor followed by `__post_init__`: the three numeric
      fields are coerced with `int` in field order, the first that is not
      integer text raises, and `removed` becomes its truthiness. */
  function Construct(row: Row): (r: Result<SongRecord, Field>)
    ensures r.Success? <==>
      Decimal.ParseInt(row.durationMs).Some? &&
      Decimal.ParseInt(row.rating).Some? &&
      Decimal.ParseInt(row.playCount).Some?
    ensures r.Success? ==>
      r.value.title == row.title && r.value.album == row.album && r.value.artist == row.artist &&
      Decimal.ParseInt(row.durationMs) == Some(r.value.durationMs) &&
      Decimal.ParseInt(row.rating) == Some(r.value.rating) &&
      Decimal.ParseInt(row.playCount) == Some(r.value.playCount) &&
      (r.value.removed <==> row.removed != "")
    ensures r == Failure(DurationMs) <==> Decimal.ParseInt(row.durationMs).None?
    ensures r == Failure(Rating) <==>
      Decimal.ParseInt(row.durationMs).Some? && Decimal.ParseInt(row.rating).None?
    ensures r == Failure(PlayCount) <==>
      Decimal.ParseInt(row.durationMs).Some? && Decimal.ParseInt(row.rating).Some? &&
      Decimal.ParseInt(row.playCount).None?
  {
    match Decimal.ParseInt(row.durationMs)
    case None => Failure(DurationMs)
    case Some(duration) =>
      match Decimal.ParseInt(row.rating)
      case None => Failure(Rating)
      case Some(rating) =>
        match Decimal.ParseInt(row.playCount)
        case None => Failure(PlayCount)
        case Some(plays) =>
          Success(SongRecord(row.title, row.album, row.artist, duration, rating, plays, Truthy(row.removed)))
  }

  /** The text `__str__` writes for the `removed` flag: `str(True)` when
      set, nothing when clear. */
  function RemovedText(removed: bool): string {
    if removed then "True" else ""
  }

  /** The seven fields `__str__` writes, in its order. */
  function Fields(r: SongRecord): seq<string> {
    [r.title, r.album, r.artist,
     Decimal.IntText(r.durationMs), Decimal.IntText(r.rating), Decimal.IntText(r.playCount),
     RemovedText(r.removed)]
  }

  /** `__str__`: the fields joined by commas, without quoting. The line
      opens with the title and a comma, and closes with a comma and the
      flag's text. */
  function Serialize(r: SongRecord): (line: string)
    ensures |line| > |r.title| && line[..|r.title|] == r.title && line[|r.title|] == ','
    ensures var flag := RemovedText(r.removed);
      |line| > |flag| && line[|line| - |flag|..] == flag && line[|line| - |flag| - 1] == ','
  {
    var f := Fields(r);
    Text.Join7(f[0], f[1], f[2], f[3], f[4], f[5], f[6], ',');
    Text.Join(f, ',')
  }

  /** The title, album and artist of a record hold no character `c`. */
  predicate TextFreeOf(r: SongRecord, c: char) {
    Text.FreeOf(r.title, c) && Text.FreeOf(r.album, c) && Text.FreeOf(r.artist, c)
  }

  /** Reading one unquoted CSV line into the seven named fields; a line that
      does not split into exactly seven is not a row of this model. */
  function ParseLine(line: string): Option<Row> {
    var f := Text.Split(line, ',');
    if |f| == 7 then Some(Row(f[0], f[1], f[2], f[3], f[4], f[5], f[6])) else None
  }

  /** The line is the seven fields in order, each followed by one comma but
      the last. */
  lemma SerializeLayout(r: SongRecord)
    ensures Serialize(r) ==
      r.title + "," + r.album + "," + r.artist + "," +
      Decimal.IntText(r.durationMs) + "," + Decimal.IntText(r.rating) + "," +
      Decimal.IntText(r.playCount) + "," + RemovedText(r.removed)
  {
    Text.Join7(r.title, r.album, r.artist,
      Decimal.IntText(r.durationMs), Decimal.IntText(r.rating), Decimal.IntText(r.playCount),
      RemovedText(r.removed), ',');
  }

  /** A set flag ends the line in `,True`; a clear flag ends it in a comma. */
  lemma RemovedRendering(r: SongRecord)
    ensures r.removed ==> |Serialize(r)| >= 5 && Serialize(r)[|Serialize(r)| - 5..] == ",True"
    ensures !r.removed ==> |Serialize(r)| >= 1 && Serialize(r)[|Serialize(r)| - 1] == ','
  {
    SerializeLayout(r);
    var line := Serialize(r);
    var front := r.title + "," + r.album + "," + r.artist + "," +
      Decimal.IntText(r.durationMs) + "," + Decimal.IntText(r.rating) + "," +
      Decimal.IntText(r.playCount);
    assert line == front + "," + RemovedText(r.removed);
    if r.removed {
      assert line[|line| - 5..] == ",True";
    }
  }

  /** Every field of a record whose text fields hold no `c` is free of `c`
      (numbers and the flag never hold a comma or a line break). */
  lemma FieldsFree(r: SongRecord, c: char)
    requires c == ',' || c == '\n'
    requires TextFreeOf(r, c)
    ensures Text.AllFreeOf(Fields(r), c)
  {
  }

  /** A serialised record holds no line break when its text fields hold none. */
  lemma SerializeSingleLine(r: SongRecord)
    requires TextFreeOf(r, '\n')
    ensures Text.FreeOf(Serialize(r), '\n')
  {
    FieldsFree(r, '\n');
    Text.JoinFree(Fields(r), ',', '\n');
  }

  /** Round trip of one line: when title, album and artist hold no comma,
      the line splits into exactly the seven fields, and constructing a
      record from them gives back the original record. */
  lemma SerializeRoundTrip(r: SongRecord)
    requires TextFreeOf(r, ',')
    ensures Text.Split(Serialize(r), ',') == Fields(r)
    ensures ParseLine(Serialize(r)) == Some(RowOf(r))
    ensures Construct(RowOf(r)) == Success(r)
  {
    FieldsFree(r, ',');
    Text.SplitJoin(Fields(r), ',');
    RowOfConstructs(r);
  }

  /** The row of the fields `__str__` writes constructs the original record,
      whatever its text fields hold. */
  lemma RowOfConstructs(r: SongRecord)
    ensures Construct(RowOf(r)) == Success(r)
  {
    Decimal.ParseIntText(r.durationMs);
    Decimal.ParseIntText(r.rating);
    Decimal.ParseIntText(r.playCount);
  }

  /** The row whose fields are the text `__str__` writes for a record. */
  function RowOf(r: SongRecord): Row {
    Row(r.title, r.album, r.artist,
      Decimal.IntText(r.durationMs), Decimal.IntText(r.rating), Decimal.IntText(r.playCount),
      RemovedText(r.removed))
  }

  /** The row read from a line is exactly what the line holds, in the
      reader's field order. */
  function RowFields(row: Row): seq<string> {
    [row.title, row.album, row.artist, row.durationMs, row.rating, row.playCount, row.removed]
  }

  /** A row as `str` would have written it: integer fields in canonical
      decimal form and the flag empty or `True`. */
  predicate CanonicalRow(row: Row) {
    Decimal.CanonicalInt(row.durationMs) && Decimal.CanonicalInt(row.rating) &&
    Decimal.CanonicalInt(row.playCount) && (row.removed == "" || row.removed == "True")
  }

  /** The converse round trip: a canonical row constructs a record that
      serialises to the very fields of the row. */
  lemma CanonicalRowRoundTrip(row: Row)
    requires CanonicalRow(row)
    ensures Construct(row).Success?
    ensures Fields(Construct(row).value) == RowFields(row)
    ensures Serialize(Construct(row).value) == Text.Join(RowFields(row), ',')
  {
    Decimal.CanonicalIntRoundTrip(row.durationMs);
    Decimal.CanonicalIntRoundTrip(row.rating);
    Decimal.CanonicalIntRoundTrip(row.playCount);
  }

  /** The sample row of the catalog: `I Shot The Sheriff,Burnin,Bob Marley,282000,0,0,`
      is read, constructed and written back unchanged. */
  lemma SheriffExample()
    ensures ParseLine(SheriffLine()) == Some(SheriffRow())
    ensures Construct(SheriffRow()) ==
      Success(SongRecord("I Shot The Sheriff", "Burnin", "Bob Marley", 282000, 0, 0, false))
    ensures Serialize(Construct(SheriffRow()).value) == SheriffLine()
  {
    SheriffParse();
    SheriffLineFields();
    SheriffConstruct();
    CanonicalRowRoundTrip(SheriffRow());
  }

  lemma SheriffParse()
    ensures ParseLine(SheriffLine()) == Some(SheriffRow())
  {
    SheriffLineFields();
    Text.SplitJoin(RowFields(SheriffRow()), ',');
  }

  lemma SheriffConstruct()
    ensures CanonicalRow(SheriffRow())
    ensures Construct(SheriffRow()) ==
      Success(SongRecord("I Shot The Sheriff", "Burnin", "Bob Marley", 282000, 0, 0, false))
  {
    SixDigits();
    assert Decimal.CanonicalDigits("0");
    assert Decimal.CanonicalDigits("282000");
  }

  /** The sample line, written as the concatenation of its fields (the same
      string) to keep proofs about it cheap for the solver. */
  function SheriffLine(): string {
    "I Shot The Sheriff" + "," + "Burnin" + "," + "Bob Marley" + "," + "282000" + "," + "0" + "," + "0" + ","
  }

  function SheriffRow(): Row {
    Row("I Shot The Sheriff", "Burnin", "Bob Marley", "282000", "0", "0", "")
  }

  lemma SheriffLineFields()
    ensures Text.Join(RowFields(SheriffRow()), ',') == SheriffLine()
    ensures Text.AllFreeOf(RowFields(SheriffRow()), ',')
  {
    var row := SheriffRow();
    Text.Join7(row.title, row.album, row.artist, row.durationMs, row.rating, row.playCount, row.removed, ',');
    SheriffFieldsFree();
  }

  lemma SheriffFieldsFree()
    ensures Text.AllFreeOf(RowFields(SheriffRow()), ',')
  {
  }

  lemma SixDigits()
    ensures Decimal.ParseInt("282000") == Some(282000)
  {
    Decimal.DigitsSnoc("", '2');
    assert "" + ['2'] == "2";
    Decimal.DigitsSnoc("2", '8');
    assert "2" + ['8'] == "28";
    Decimal.DigitsSnoc("28", '2');
    assert "28" + ['2'] == "282";
    Decimal.DigitsSnoc("282", '0');
    assert "282" + ['0'] == "2820";
    Decimal.DigitsSnoc("2820", '0');
    assert "2820" + ['0'] == "28200";
    Decimal.DigitsSnoc("28200", '0');
    assert "28200" + ['0'] == "282000";
  }

  /** The row whose values appear in the dictionary literal of
      `output_main_csv`: title `05 - I Shot The Sheriff.mp3`, album
      `Burnin&#39;`, artist `Bob Marley`, numbers 282000, 0, 0 and an empty
      flag. It constructs, serialises to its own fields joined by commas,
      and that line reads back as the same row. */
  lemma TakeoutDictExample()
    ensures Construct(TakeoutDictRow()) ==
      Success(SongRecord("05 - I Shot The Sheriff.mp3", "Burnin&#39;", "Bob Marley", 282000, 0, 0, false))
    ensures Serialize(Construct(TakeoutDictRow()).value) == TakeoutDictLine()
    ensures ParseLine(TakeoutDictLine()) == Some(TakeoutDictRow())
  {
    var row := TakeoutDictRow();
    SixDigits();
    assert Decimal.CanonicalDigits("0");
    assert Decimal.CanonicalDigits("282000");
    CanonicalRowRoundTrip(row);
    Text.Join7(row.title, row.album, row.artist, row.durationMs, row.rating, row.playCount, row.removed, ',');
    var r := Construct(row).value;
    TakeoutDictFree();
    SerializeRoundTrip(r);
  }

  function TakeoutDictRow(): Row {
    Row("05 - I Shot The Sheriff.mp3", "Burnin&#39;", "Bob Marley", "282000", "0", "0", "")
  }

  /** The line of that row, written as the concatenation of its fields. */
  function TakeoutDictLine(): string {
    "05 - I Shot The Sheriff.mp3" + "," + "Burnin&#39;" + "," + "Bob Marley" + "," + "282000" + "," + "0" + "," + "0" + ","
  }

  lemma TakeoutDictFree()
    ensures Text.FreeOf("05 - I Shot The Sheriff.mp3", ',')
    ensures Text.FreeOf("Burnin&#39;", ',')
    ensures Text.FreeOf("Bob Marley", ',')
  {
  }
}
