# Dictionary store model

A Dafny model of the in-memory multilingual dictionary of `src/models/dictionary.rs`.
The dictionary holds its feed's location, a map from entry id to entry, the sixteen
counters published by the feed, and the time of the last successful refresh.

- **Feed parsing** (`fetch_dict` after the download). The feed is a sequence of rows
  of string cells.
  - Row 1 (titles) and row 3 (reserved) are skipped.
  - Row 2 gives the counters. `read_int` reads the sixteen columns 0, 1 and 8–21: it
    strips every `.` and parses the rest as a `u32`.
  - Every later row is deserialised into a `RawEntry`, converted into an `Entry` and
    inserted under its id. A row that cannot be read is dropped.
- **Conversion** (`TryFrom<RawEntry> for Entry`). It copies the id, the cluster, the
  topic and the fourteen language texts. It derives the two flags from the markers
  `"e"` and `"b"`. `ok_or_default` turns an unknown topic into "no topic".
- **The store** (`Dictionary`). It is a class whose `Update` replaces entries,
  counters and timestamp together, or changes nothing and returns the error.
  - `FromUrl` builds an empty dictionary and refreshes it once.
  - `GetEntry` is a map lookup.
  - `Search` keeps the entries that pass the cluster, topic and text filters.

Modules:
- `Wrappers`: `Option` and `Result`.
- `Numbers`: Rust's `u32` parsing, `.` removal and grouped numerals such as "100.000".
- `Models`: the entities and `TryFrom`.
- `Feed`: reading the counters and the entry rows, and the insertion loop.
- `Search`: the filters.
- `Store`: the `Dictionary` class.

The download is not modelled: its outcome is the parameter `fetched`, a `Result` holding
either the rows or the download's error. The current time is the parameter `now`.

Where the source leaves things undefined, the model takes them as parameters:
- `Topic` is not defined in this file. A topic is modelled by its serialised name, and
  `vocabulary` is the set of names the `Topic` enum accepts.
- `Entry::matches` is not defined in this file either. `Search` takes the comparison as
  a parameter `matches` and assumes nothing about it.
- `HashMap` iteration order is the parameter `order`, a list of every key exactly once.
  The results of `Search` are stated as sets; they are ordered by `order`.

## Model

The definitions the lemmas below speak about, and the source lines each one models:
- `Numbers.StripDots`: `.replace('.', "")` (src/models/dictionary.rs:110).
- `Numbers.ParseU32`: `.parse()` into a `u32` (src/models/dictionary.rs:111).
- `Feed.Deserialize`: `r.deserialize::<RawEntry>(None)` (src/models/dictionary.rs:139, 150-175).
- `Feed.OkOrDefault`: `ok_or_default` (src/models/dictionary.rs:177-184).
- `Feed.EntriesOf`: the row loop as a fold (src/models/dictionary.rs:138-144).
- `Feed.ParseFeed`: `fetch_dict` after the download (src/models/dictionary.rs:99-147).
- `Feed.FetchOutcome`: `fetch_dict` as a whole (src/models/dictionary.rs:93-148).
- `Search.SemFilter`, `Search.TopicFilter` and `Search.TextFilter`: the three filters
  (src/models/dictionary.rs:64-68, 70-74 and 76-79).
- `Search.Passes`: the filter closure (src/models/dictionary.rs:63-82).
- The `Store.Dictionary` constructor: the empty dictionary built by `from_url`
  (src/models/dictionary.rs:25-30).


| member | source | states |
|---|---|---|
| Models.TryFrom | src/models/dictionary.rs:186-211 | never fails; copies id, sem_id, topic and each language text unchanged; `essential_flag` holds exactly when the cell is `Some("e")`, `basic_flag` exactly when it is `Some("b")` |
| Feed.DecodeTopic | src/models/dictionary.rs:155-156 | the topic is present exactly when the cell is a non-empty known topic name, and is then that topic; any other cell yields no topic, never an error |
| Feed.TopicNeverRejects | src/models/dictionary.rs:177-184 | replacing the topic cell of a row never changes whether the row is kept; an unknown name makes only the topic absent |
| Feed.ReadInt | src/models/dictionary.rs:107-112 | fails with `MissingDictHeaders` exactly when the column is absent; otherwise fails only with `MalformedNumber` |
| Feed.ReadIntGrouped | src/models/dictionary.rs:107-112 | a cell holding `n` written with `.` separators between groups of three digits reads as `n` |
| Feed.ReadIntExample | src/models/dictionary.rs:107-112 | the cell "100.000" reads as 100000 |
| Feed.ReadIntIgnoresDot | src/models/dictionary.rs:110 | a `.` anywhere in a cell makes no difference to what is read |
| Numbers.ParseShow | src/models/dictionary.rs:111 | parsing the decimal numeral of any `u32`, with or without a leading `+`, gives it back |
| Numbers.ParseCanonical | src/models/dictionary.rs:111 | a numeral with no sign and no leading zero that parses to `n` is the decimal numeral of `n` |
| Numbers.ParseGrouped | src/models/dictionary.rs:110-111 | stripping the separators from the grouped numeral of `n` and parsing gives `n` |
| Numbers.StripDotsIgnoresDot | src/models/dictionary.rs:110 | removing `.` gives the same result whether or not one more `.` is inserted anywhere |
| Feed.ReadColumns | src/models/dictionary.rs:114-131 | succeeds exactly when every column reads; the values are the columns' values, in order; on failure the error is the one of the first column that fails |
| Feed.ReadCounters | src/models/dictionary.rs:114-131 | succeeds exactly when the sixteen counter columns read; the counters are their values, in column order; otherwise the first failing column's error |
| Feed.CountersRowMeaning | src/models/dictionary.rs:114-131 | the counters row reads exactly when each of columns 0, 1 and 8–21 is present and is a `u32` numeral once its `.` are removed |
| Feed.ShortCountersRow | src/models/dictionary.rs:105-131 | a row without column 21 fails, and fails with `MissingDictHeaders` when every counter cell it does have is a numeral |
| Feed.FullCountersRow | src/models/dictionary.rs:114-131 | a row holding all the columns can fail only with `MalformedNumber` |
| Feed.DeserializeAccepts | src/models/dictionary.rs:150-175 | a row deserialises exactly when it has at least 22 cells, a `u32` id and an empty or `u32` sem_id |
| Feed.DeserializeFields | src/models/dictionary.rs:150-160 | a deserialised record holds the id, sem_id, topic, category, sub-topics and flag cells of its row |
| Feed.DeserializeTexts | src/models/dictionary.rs:161-174 | a deserialised record holds the text of each language's column |
| Feed.ConvertRowMeaning | src/models/dictionary.rs:139-142 | a row gives an entry exactly when it deserialises (at least 22 cells, a `u32` id, an empty or `u32` sem_id); the entry's id, sem_id, topic, flags and fourteen texts are stated cell by cell |
| Feed.ExtraCellsIgnored | src/models/dictionary.rs:139 | cells after the 22nd are never read: appending cells to a row of at least 22 cells gives the same entry, or the same rejection |
| Feed.InsertRows | src/models/dictionary.rs:138-144 | the loop builds the map of the fold `EntriesOf`: each converted row is stored under its id, replacing any earlier one, and other rows are dropped |
| Feed.EntriesKeyedById | src/models/dictionary.rs:141 | every key of the built map is the id of the entry under it |
| Feed.EntriesDomain | src/models/dictionary.rs:138-143 | an id is a key exactly when some row converts to an entry with that id |
| Feed.EntriesLastWins | src/models/dictionary.rs:141 | when rows share an id, the entry of the last of them is the one kept |
| Feed.EntriesSkipUnreadable | src/models/dictionary.rs:139-140 | a row that does not convert can be removed without changing the map |
| Feed.FetchDict | src/models/dictionary.rs:93-148 | returns `FetchOutcome`: the download's error, `MissingDictHeaders` without a second row, the counters row's error, or the counters and the map of rows 4 onwards |
| Feed.ParseFeedMeaning | src/models/dictionary.rs:99-147 | fails exactly when there is no second row or it does not read, with `MissingDictHeaders` or `MalformedNumber` only; on success, the counters are row 2's and the entries those of rows 4 onwards, keyed by id |
| Feed.FetchOutcomeKeyed | src/models/dictionary.rs:94-147 | a failed download is returned as is; a successful outcome is keyed by id |
| Feed.EntryRowsNeverFail | src/models/dictionary.rs:138-147 | adding rows after the counters never changes whether the feed parses |
| Feed.SkippedRowsIgnored | src/models/dictionary.rs:101-134 | for rows already split into cells, and ignoring the csv reader's width rule, whatever the first and third rows hold, the outcome is the same |
| Store.Dictionary.Update | src/models/dictionary.rs:35-41 | on failure returns the error and leaves entries, counters and timestamp unchanged; on success replaces all three with the feed's and `now`; never changes the url; keeps entries keyed by id |
| Store.Dictionary.FromUrl | src/models/dictionary.rs:24-33 | on failure returns the error; on success a new dictionary for `url` with the feed's entries and counters, keyed by id |
| Store.Dictionary.GetEntry | src/models/dictionary.rs:43-48 | fails with `EntryNotFound(id)` exactly when `id` is not a key; otherwise the entry stored under it, whose own id is `id` |
| Store.Dictionary.Search | src/models/dictionary.rs:50-90 | an entry is in the result exactly when it is a value of the map and passes all three filters; no id occurs twice |
| Store.Dictionary.SearchWithoutFilters | src/models/dictionary.rs:84-89 | with no text, no cluster and no topics, the result is every value of the map, once each, in iteration order |
| Store.Dictionary.SearchByCluster | src/models/dictionary.rs:64-68 | searching by cluster `S` alone returns exactly the entries whose sem_id is `Some(S)` |
| Store.Dictionary.SearchByTopic | src/models/dictionary.rs:70-74 | searching by one topic alone returns exactly the entries with that topic |
| Search.SearchLanguages | src/models/dictionary.rs:57-61 | an empty language list stands for every language; otherwise the list is kept |
| Search.SemFilterMeaning | src/models/dictionary.rs:64-68 | without a cluster every entry passes; with one, exactly its members pass, and an entry without a cluster never does |
| Search.TopicFilterMeaning | src/models/dictionary.rs:70-74 | with no topics every entry passes; otherwise exactly those whose topic is one of them |
| Search.TextFilterMeaning | src/models/dictionary.rs:76-79 | without text every entry passes; with text, those that match in the languages asked for, or in all languages if none are asked for |
| Search.Select | src/models/dictionary.rs:84-89 | the filtered values: an entry is in the result exactly when it is met along the order and passes; no longer than the order |
| Search.SelectDistinct | src/models/dictionary.rs:84-89 | over a map keyed by id and an order without repeats, no id occurs twice in the result |
| Search.SelectEverything | src/models/dictionary.rs:84-89 | when every value passes, the result is the values in iteration order |

## Left out

- The download with `reqwest::get` (line 94) is not modelled. Its outcome is the parameter `fetched`, and its error is represented by `FetchFailed`.
- CSV tokenising (lines 95-97) is not modelled, and neither are csv record errors. Rows arrive already split into cells.
  - Records the csv reader rejects are not modelled; `records.flatten()` drops them on line 138.
  - A counters record rejected by the reader (line 105) is not modelled either. The csv crate rejects any record whose length differs from the first record's; the model has no such rule.
- The mapping from the parse error (`?` on line 111) to an `ApiError` variant is assumed to be `MalformedNumber`, because `ApiError` is not part of this model.
- Feed.Deserialize: serde's deserialisation of a `RawEntry` is simplified.
  - A row is accepted when it has at least 22 cells, its id is a `u32` numeral and its sem_id is empty or a `u32` numeral; cells after the 22nd are not read.
  - An empty cell is an absent `Option<String>`.
  - Other numeric spellings that serde or csv may accept (such as hexadecimal) are not modelled.
- `Topic` is not part of this model. Topics are modelled by name, and `vocabulary` is the set of names it accepts.
- `LanguageCode` is not part of this model. It is modelled as the fourteen codes of `RawEntry`'s language fields, in the order of those fields.
- `Entry::matches` is not part of this model. It is the parameter `matches`, with no assumption about case or substring matching.
- `HashMap` iteration order is not modelled. It is the parameter `order`.
- Search: the always-`Ok` wrapper of `search` is dropped, and the function returns the sequence directly.
- `RwLock`, `async` and the `DictionaryHandle` wrapping done by `from_url` (lines 11-13, 32) are not modelled. Only the sequential all-or-nothing behaviour of `update` is.
- `Utc::now()` (lines 29, 39) is the parameter `now`.
- `println!` logging (lines 104, 132, 136, 146) is not modelled.
