/**
 * Reading the dictionary feed once it has been downloaded: the feed is a
 * sequence of rows of string cells. Row 1 holds column titles and row 3 is
 * reserved; both are skipped. Row 2 holds sixteen counters at fixed columns.
 * Every later row is one entry; a row that cannot be read is dropped.
 */
module Feed {
  import opened Wrappers
  import opened Numbers
  import opened Models

  type Row = seq<string>

  /** What a successful parse of the feed yields. */
  datatype Dataset = Dataset(entries: map<u32, Entry>, counters: Counters)

  /**
   * `read_int`: the cell at `index` of the counters row with every '.'
   * removed, read as a `u32`.
   */
  function ReadInt(row: Row, index: nat): (r: Result<u32, ApiError>)
    ensures r.Failure? ==> r.error in {MissingDictHeaders, MalformedNumber}
    ensures r == Failure(MissingDictHeaders) <==> index >= |row|
  {
    if index >= |row| then Failure(MissingDictHeaders)
    else match ParseU32(StripDots(row[index]))
      case Some(n) => Success(n)
      case None => Failure(MalformedNumber)
  }

  /** A counter written with thousands separators is read as the number it stands for. */
  lemma ReadIntGrouped(row: Row, index: nat, n: u32)
    requires index < |row| && row[index] == Grouped(n)
    ensures ReadInt(row, index) == Success(n)
  {
    ParseGrouped(n);
  }

  /** The worked example of a counters row: "100.000" is the count 100000. */
  lemma ReadIntExample()
    ensures ReadInt(["100.000"], 0) == Success(100000)
  {
    assert Show(100) == "100" by {
      assert Show(1) == "1";
      assert Show(10) == Show(1) + "0";
    }
    assert Pad3(0) == "000";
    assert Grouped(100000) == "100.000";
    ReadIntGrouped(["100.000"], 0, 100000);
  }

  /** A '.' anywhere in a counter cell makes no difference to what is read. */
  lemma ReadIntIgnoresDot(row: Row, index: nat, a: string, b: string)
    requires index < |row| && row[index] == a + "." + b
    ensures ReadInt(row, index) == ReadInt(row[index := a + b], index)
  {
    StripDotsIgnoresDot(a, b);
  }

  /** The number of cells the counters row needs for its last counter column. */
  const RawCounterWidth: nat := 22

  /** The columns of the counters row that are read, in the order they are read. */
  const CounterColumns: seq<nat> := [0, 1, 8, 9, 10, 11, 12, 13, 14, 15, 16, 17, 18, 19, 20, 21]

  lemma CounterColumnsInRange()
    ensures forall i :: 0 <= i < |CounterColumns| ==> CounterColumns[i] < RawCounterWidth
  {
  }

  /** Reads the given columns one after the other; the first column that fails fails the whole. */
  function ReadColumns(row: Row, cols: seq<nat>): (r: Result<seq<u32>, ApiError>)
    ensures r.Success? <==> forall i :: 0 <= i < |cols| ==> ReadInt(row, cols[i]).Success?
    ensures r.Success? ==> |r.value| == |cols|
    ensures r.Success? ==> forall i :: 0 <= i < |cols| ==> r.value[i] == ReadInt(row, cols[i]).value
    ensures r.Failure? ==> exists i :: 0 <= i < |cols| && FirstFailure(row, cols, i) && r.error == ReadInt(row, cols[i]).error
  {
    if cols == [] then Success([])
    else
      var head :- ReadInt(row, cols[0]);
      var rest :- ReadColumns(row, cols[1..]);
      Success([head] + rest)
  }

  /** Column `cols[i]` is the first of `cols` that cannot be read. */
  predicate FirstFailure(row: Row, cols: seq<nat>, i: nat)
    requires i < |cols|
  {
    ReadInt(row, cols[i]).Failure? && forall j :: 0 <= j < i ==> ReadInt(row, cols[j]).Success?
  }

  /** The counters of the feed's second row: the sixteen counter columns, read in order. */
  function ReadCounters(row: Row): (r: Result<Counters, ApiError>)
    ensures r.Success? <==> ReadColumns(row, CounterColumns).Success?
    ensures r.Success? ==> r.value.AsSeq() == ReadColumns(row, CounterColumns).value
    ensures r.Failure? ==> r.error == ReadColumns(row, CounterColumns).error
  {
    var v :- ReadColumns(row, CounterColumns);
    Success(CountersOf(v))
  }

  /** The counters record holding sixteen counts in column order. */
  function CountersOf(v: seq<u32>): (c: Counters)
    requires |v| == 16
    ensures c.AsSeq() == v
  {
    Counters(v[0], v[1], v[2], v[3], v[4], v[5], v[6], v[7],
             v[8], v[9], v[10], v[11], v[12], v[13], v[14], v[15])
  }

  /**
   * A counters row too short to hold column 21 fails: with MissingDictHeaders
   * unless a counter cell it does hold is read first and is not a numeral.
   */
  lemma ShortCountersRow(row: Row)
    requires |row| < RawCounterWidth
    ensures ReadCounters(row).Failure?
    ensures (forall i :: 0 <= i < |CounterColumns| && CounterColumns[i] < |row| ==> ReadInt(row, CounterColumns[i]).Success?)
            ==> ReadCounters(row) == Failure(MissingDictHeaders)
  {
    assert CounterColumns[15] == 21;
    assert ReadInt(row, CounterColumns[15]).Failure?;
  }

  /** The counters row is read exactly when every counter column is present and holds a numeral. */
  lemma CountersRowMeaning(row: Row)
    ensures ReadCounters(row).Success? <==>
            forall c :: c in CounterColumns ==> c < |row| && ParseU32(StripDots(row[c])).Some?
  {
    forall c | c in CounterColumns
      ensures ReadInt(row, c).Success? <==> c < |row| && ParseU32(StripDots(row[c])).Some?
    {
    }
    if ReadCounters(row).Success? {
      forall c | c in CounterColumns
        ensures ReadInt(row, c).Success?
      {
        var i :| 0 <= i < |CounterColumns| && CounterColumns[i] == c;
      }
    }
  }

  /** With all sixteen columns present, the only way the counters row fails is a cell that is not a numeral. */
  lemma FullCountersRow(row: Row)
    requires |row| >= RawCounterWidth
    ensures ReadCounters(row).Failure? ==> ReadCounters(row).error == MalformedNumber
  {
    if ReadCounters(row).Failure? {
      var i :| 0 <= i < |CounterColumns| && FirstFailure(row, CounterColumns, i)
               && ReadCounters(row).error == ReadInt(row, CounterColumns[i]).error;
      CounterColumnsInRange();
    }
  }

  // ---- entry rows ----

  /** The number of cells of an entry row: eight fixed columns and one per language. */
  const RawWidth: nat := 22

  /** The column of the text in `lang`. */
  function LanguageColumn(lang: LanguageCode): (c: nat)
    ensures 8 <= c < RawWidth
  {
    8 + LanguageIndex(lang)
  }

  /** An `Option<String>` cell: empty means absent. */
  function OptionalText(cell: string): Option<string> {
    if cell == "" then None else Some(cell)
  }

  /** An `Option<u32>` cell: `None` if the cell cannot be read, `Some(None)` if it is empty. */
  function OptionalU32(cell: string): Option<Option<u32>> {
    if cell == "" then Some(None)
    else match ParseU32(cell)
      case Some(n) => Some(Some(n))
      case None => None
  }

  /**
   * The topic cell as the deserialiser of `Option<Topic>` reads it: an empty
   * cell is no topic, a name of the vocabulary is that topic, anything else
   * is an error (`None`).
   */
  function TopicValue(cell: string, vocabulary: set<string>): Option<Option<Topic>> {
    if cell == "" then Some(None)
    else if cell in vocabulary then Some(Some(Topic(cell)))
    else None
  }

  /** `ok_or_default`: a value that cannot be deserialised becomes the default. */
  function OkOrDefault<T>(decoded: Option<T>, default: T): T {
    match decoded
    case Some(v) => v
    case None => default
  }

  /** The topic of a row: a known topic name, or no topic at all; never an error. */
  function DecodeTopic(cell: string, vocabulary: set<string>): (t: Option<Topic>)
    ensures t.Some? <==> cell != "" && cell in vocabulary
    ensures t.Some? ==> t.value.name == cell
  {
    OkOrDefault(TopicValue(cell, vocabulary), None)
  }

  /**
   * Deserialisation of one entry row into a `RawEntry`, by column position.
   * It fails on a row with fewer than 22 cells, an id that is not a `u32`
   * numeral and a non-empty sem_id that is not one; no other cell can make
   * it fail, and cells after the 22nd are not read.
   */
  function Deserialize(row: Row, vocabulary: set<string>): Option<RawEntry> {
    if |row| < RawWidth then None
    else match (ParseU32(row[0]), OptionalU32(row[1]))
      case (Some(id), Some(semId)) =>
        Some(RawEntry(
          id, semId, OptionalText(row[2]), DecodeTopic(row[3], vocabulary),
          OptionalText(row[4]), OptionalText(row[5]), OptionalText(row[6]), OptionalText(row[7]),
          OptionalText(row[8]), OptionalText(row[9]), OptionalText(row[10]), OptionalText(row[11]),
          OptionalText(row[12]), OptionalText(row[13]), OptionalText(row[14]), OptionalText(row[15]),
          OptionalText(row[16]), OptionalText(row[17]), OptionalText(row[18]), OptionalText(row[19]),
          OptionalText(row[20]), OptionalText(row[21])))
      case _ => None
  }

  /** The entry of one row, or `None` when the row is dropped. */
  function ConvertRow(row: Row, vocabulary: set<string>): Option<Entry> {
    match Deserialize(row, vocabulary)
    case None => None
    case Some(raw) =>
      match TryFrom(raw)
      case Success(e) => Some(e)
      case Failure(_) => None
  }

  /** What one row does to the entry map being built. */
  function Insert(entries: map<u32, Entry>, row: Row, vocabulary: set<string>): map<u32, Entry> {
    match ConvertRow(row, vocabulary)
    case Some(e) => entries[e.id := e]
    case None => entries
  }

  /** The entry map built from a sequence of entry rows, taken in order. */
  function EntriesOf(rows: seq<Row>, vocabulary: set<string>): map<u32, Entry> {
    if rows == [] then map[]
    else Insert(EntriesOf(rows[..|rows| - 1], vocabulary), rows[|rows| - 1], vocabulary)
  }

  /** The entry rows of a feed: everything after the third row. */
  function EntryRows(rows: seq<Row>): seq<Row> {
    if |rows| <= 3 then [] else rows[3..]
  }

  /** `fetch_dict` after the download: the counters of row 2, the entries of rows 4 and later. */
  function ParseFeed(rows: seq<Row>, vocabulary: set<string>): Result<Dataset, ApiError> {
    if |rows| < 2 then Failure(MissingDictHeaders)
    else
      var counters :- ReadCounters(rows[1]);
      Success(Dataset(EntriesOf(EntryRows(rows), vocabulary), counters))
  }

  /** `fetch_dict` as a whole, given what the download produced. */
  function FetchOutcome(fetched: Result<seq<Row>, ApiError>, vocabulary: set<string>): Result<Dataset, ApiError> {
    match fetched
    case Failure(e) => Failure(e)
    case Success(rows) => ParseFeed(rows, vocabulary)
  }

  /**
   * `fetch_dict`, with the downloaded feed as `fetched`: the counters are
   * read, then the entry rows are inserted into a map.
   */
  method FetchDict(fetched: Result<seq<Row>, ApiError>, vocabulary: set<string>)
    returns (r: Result<Dataset, ApiError>)
    ensures r == FetchOutcome(fetched, vocabulary)
  {
    if fetched.Failure? {
      return Failure(fetched.error);
    }
    var rows := fetched.value;
    if |rows| < 2 {
      return Failure(MissingDictHeaders);
    }
    var counters := ReadCounters(rows[1]);
    if counters.Failure? {
      return Failure(counters.error);
    }
    var entries := InsertRows(EntryRows(rows), vocabulary);
    return Success(Dataset(entries, counters.value));
  }

  /**
   * The row loop of `fetch_dict`: each row that deserialises and converts is
   * inserted under its id, replacing what an earlier row put there.
   */
  method InsertRows(records: seq<Row>, vocabulary: set<string>) returns (entries: map<u32, Entry>)
    ensures entries == EntriesOf(records, vocabulary)
  {
    entries := map[];
    for i := 0 to |records|
      invariant entries == EntriesOf(records[..i], vocabulary)
    {
      assert records[..i + 1][..i] == records[..i];
      var raw := Deserialize(records[i], vocabulary);
      if raw.Some? {
        var entry := TryFrom(raw.value);
        if entry.Success? {
          entries := entries[entry.value.id := entry.value];
        }
      }
    }
    assert records[..|records|] == records;
  }

  // ---- properties of the entry map ----

  /** Every key of the map built from the rows is the id of its entry. */
  lemma {:induction false} EntriesKeyedById(rows: seq<Row>, vocabulary: set<string>)
    ensures KeyedById(EntriesOf(rows, vocabulary))
  {
    if rows != [] {
      EntriesKeyedById(rows[..|rows| - 1], vocabulary);
    }
  }

  /** The row converts to an entry with this id. */
  predicate RowHasId(row: Row, vocabulary: set<string>, id: u32) {
    ConvertRow(row, vocabulary).Some? && ConvertRow(row, vocabulary).value.id == id
  }

  lemma InsertDomain(entries: map<u32, Entry>, row: Row, vocabulary: set<string>, id: u32)
    ensures id in Insert(entries, row, vocabulary) <==> id in entries || RowHasId(row, vocabulary, id)
  {
  }

  /** An id is in the map exactly when some row converts to an entry with that id. */
  lemma {:induction false} EntriesDomain(rows: seq<Row>, vocabulary: set<string>, id: u32)
    ensures id in EntriesOf(rows, vocabulary) <==> exists i :: 0 <= i < |rows| && RowHasId(rows[i], vocabulary, id)
  {
    if rows != [] {
      var init, last := rows[..|rows| - 1], rows[|rows| - 1];
      EntriesDomain(init, vocabulary, id);
      InsertDomain(EntriesOf(init, vocabulary), last, vocabulary, id);
      var hasId := row => RowHasId(row, vocabulary, id);
      WitnessInPrefix(rows, init, hasId);
      assert (exists i :: 0 <= i < |rows| && RowHasId(rows[i], vocabulary, id)) <==> (exists i :: 0 <= i < |rows| && hasId(rows[i]));
      assert (exists i :: 0 <= i < |init| && RowHasId(init[i], vocabulary, id)) <==> (exists i :: 0 <= i < |init| && hasId(init[i]));
    }
  }

  /** A witness in a non-empty sequence is either in its prefix or its last element. */
  lemma WitnessInPrefix<T>(s: seq<T>, init: seq<T>, p: T -> bool)
    requires s != [] && init == s[..|s| - 1]
    ensures (exists i :: 0 <= i < |s| && p(s[i])) <==> (exists i :: 0 <= i < |init| && p(init[i])) || p(s[|s| - 1])
  {
    if exists i :: 0 <= i < |init| && p(init[i]) {
      var i :| 0 <= i < |init| && p(init[i]);
      assert s[i] == init[i];
    }
    if exists i :: 0 <= i < |s| && p(s[i]) {
      var i :| 0 <= i < |s| && p(s[i]);
      if i < |init| {
        assert init[i] == s[i];
      }
    }
  }

  /** When rows share an id, the entry of the last of them is the one kept. */
  lemma {:induction false} EntriesLastWins(rows: seq<Row>, vocabulary: set<string>, i: nat)
    requires i < |rows| && ConvertRow(rows[i], vocabulary).Some?
    requires forall j :: i < j < |rows| && ConvertRow(rows[j], vocabulary).Some? ==>
               ConvertRow(rows[j], vocabulary).value.id != ConvertRow(rows[i], vocabulary).value.id
    ensures var e := ConvertRow(rows[i], vocabulary).value;
            e.id in EntriesOf(rows, vocabulary) && EntriesOf(rows, vocabulary)[e.id] == e
  {
    var init := rows[..|rows| - 1];
    if i < |rows| - 1 {
      forall j | i < j < |init| && ConvertRow(init[j], vocabulary).Some?
        ensures ConvertRow(init[j], vocabulary).value.id != ConvertRow(init[i], vocabulary).value.id
      {
        assert init[j] == rows[j];
      }
      assert init[i] == rows[i];
      EntriesLastWins(init, vocabulary, i);
    }
  }

  /** A row that cannot be converted leaves no trace: taking it out changes nothing. */
  lemma {:induction false} EntriesSkipUnreadable(before: seq<Row>, row: Row, after: seq<Row>, vocabulary: set<string>)
    requires ConvertRow(row, vocabulary).None?
    ensures EntriesOf(before + [row] + after, vocabulary) == EntriesOf(before + after, vocabulary)
  {
    if after == [] {
      assert before + [row] + after == before + [row];
      assert (before + [row])[..|before|] == before;
      assert before + after == before;
    } else {
      var init := after[..|after| - 1];
      var last := after[|after| - 1];
      EntriesSkipUnreadable(before, row, init, vocabulary);
      var long, short := before + [row] + after, before + after;
      assert long[..|long| - 1] == before + [row] + init && long[|long| - 1] == last;
      assert short[..|short| - 1] == before + init && short[|short| - 1] == last;
    }
  }

  // ---- properties of a row ----

  /** Which rows deserialise: those wide enough, with a numeric id and a readable sem_id. */
  lemma DeserializeAccepts(row: Row, vocabulary: set<string>)
    ensures Deserialize(row, vocabulary).Some? <==>
            |row| >= RawWidth && ParseU32(row[0]).Some? && OptionalU32(row[1]).Some?
  {
  }

  /** What a deserialised record holds: each cell of the row, read as the type of its column. */
  lemma DeserializeFields(row: Row, vocabulary: set<string>)
    requires Deserialize(row, vocabulary).Some?
    ensures |row| >= RawWidth
    ensures var r := Deserialize(row, vocabulary).value;
            && r.id == ParseU32(row[0]).value && r.semId == OptionalU32(row[1]).value
            && r.category == OptionalText(row[2])
            && r.topic == DecodeTopic(row[3], vocabulary)
            && r.subTopic == OptionalText(row[4]) && r.subSubTopic == OptionalText(row[5])
            && r.essentialFlag == OptionalText(row[6]) && r.basicFlag == OptionalText(row[7])
  {
  }

  /** A deserialised record holds the text of each language column. */
  lemma DeserializeTexts(row: Row, vocabulary: set<string>, lang: LanguageCode)
    requires Deserialize(row, vocabulary).Some?
    ensures |row| >= RawWidth
    ensures Deserialize(row, vocabulary).value.Text(lang) == OptionalText(row[LanguageColumn(lang)])
  {
  }

  /**
   * Which rows convert, and what their entry holds: the id and sem_id
   * numerals, the flags from the markers "e" and "b" (an empty cell is no
   * marker), the topic as decoded, and the text of every language column.
   */
  lemma ConvertRowMeaning(row: Row, vocabulary: set<string>)
    ensures ConvertRow(row, vocabulary).Some? <==>
            |row| >= RawWidth && ParseU32(row[0]).Some? && (row[1] == "" || ParseU32(row[1]).Some?)
    ensures ConvertRow(row, vocabulary).Some? ==>
            var e := ConvertRow(row, vocabulary).value;
            && e.id == ParseU32(row[0]).value
            && e.semId == (if row[1] == "" then None else ParseU32(row[1]))
            && e.topic == DecodeTopic(row[3], vocabulary)
            && (e.essentialFlag <==> row[6] == "e")
            && (e.basicFlag <==> row[7] == "b")
            && forall lang :: e.Text(lang) == OptionalText(row[LanguageColumn(lang)])
  {
    DeserializeAccepts(row, vocabulary);
    if Deserialize(row, vocabulary).Some? {
      DeserializeFields(row, vocabulary);
      forall lang
        ensures ConvertRow(row, vocabulary).value.Text(lang) == OptionalText(row[LanguageColumn(lang)])
      {
        DeserializeTexts(row, vocabulary, lang);
      }
    }
  }

  /** The topic cell never decides whether a row is kept: an unknown topic only makes the topic absent. */
  lemma TopicNeverRejects(row: Row, vocabulary: set<string>, cell: string)
    requires 3 < |row|
    ensures ConvertRow(row[3 := cell], vocabulary).Some? == ConvertRow(row, vocabulary).Some?
    ensures ConvertRow(row, vocabulary).Some? && cell !in vocabulary ==>
            ConvertRow(row[3 := cell], vocabulary).value.topic.None?
  {
    DeserializeAccepts(row, vocabulary);
    DeserializeAccepts(row[3 := cell], vocabulary);
    if ConvertRow(row[3 := cell], vocabulary).Some? {
      DeserializeFields(row[3 := cell], vocabulary);
    }
  }

  /** Cells after the 22nd are never read: appending cells to a row changes nothing. */
  lemma ExtraCellsIgnored(row: Row, extra: seq<string>, vocabulary: set<string>)
    requires |row| >= RawWidth
    ensures ConvertRow(row + extra, vocabulary) == ConvertRow(row, vocabulary)
  {
  }

  // ---- properties of the whole feed ----

  /**
   * The feed fails exactly when it has no counters row or that row cannot be
   * read; on success the counters are those of row 2 and the entries those of
   * rows 4 and later, each stored under its own id.
   */
  lemma ParseFeedMeaning(rows: seq<Row>, vocabulary: set<string>)
    ensures |rows| < 2 ==> ParseFeed(rows, vocabulary) == Failure(MissingDictHeaders)
    ensures |rows| >= 2 ==> (ParseFeed(rows, vocabulary).Success? <==> ReadCounters(rows[1]).Success?)
    ensures ParseFeed(rows, vocabulary).Failure? ==> ParseFeed(rows, vocabulary).error in {MissingDictHeaders, MalformedNumber}
    ensures ParseFeed(rows, vocabulary).Success? ==>
            var d := ParseFeed(rows, vocabulary).value;
            && d.counters == ReadCounters(rows[1]).value
            && d.entries == EntriesOf(EntryRows(rows), vocabulary)
            && KeyedById(d.entries)
  {
    EntriesKeyedById(EntryRows(rows), vocabulary);
  }

  /** A download that failed fails `fetch_dict` with its own error; a successful one yields entries keyed by id. */
  lemma FetchOutcomeKeyed(fetched: Result<seq<Row>, ApiError>, vocabulary: set<string>)
    ensures fetched.Failure? ==> FetchOutcome(fetched, vocabulary) == Failure(fetched.error)
    ensures FetchOutcome(fetched, vocabulary).Success? ==> KeyedById(FetchOutcome(fetched, vocabulary).value.entries)
  {
    if fetched.Success? {
      ParseFeedMeaning(fetched.value, vocabulary);
    }
  }

  /** Entry rows never make the feed fail, whatever they hold. */
  lemma EntryRowsNeverFail(rows: seq<Row>, extra: seq<Row>, vocabulary: set<string>)
    requires |rows| >= 2
    ensures ParseFeed(rows + extra, vocabulary).Success? == ParseFeed(rows, vocabulary).Success?
  {
    assert (rows + extra)[1] == rows[1];
  }

  /** The title row and the reserved third row are never looked at. */
  lemma SkippedRowsIgnored(rows: seq<Row>, vocabulary: set<string>, title: Row, reserved: Row)
    requires |rows| >= 3
    ensures ParseFeed(rows[0 := title][2 := reserved], vocabulary) == ParseFeed(rows, vocabulary)
  {
    var other := rows[0 := title][2 := reserved];
    assert other[1] == rows[1];
    assert EntryRows(other) == EntryRows(rows);
  }
}
