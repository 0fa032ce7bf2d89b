/**
 * The dictionary store: the feed's location, the current entries keyed by
 * id, the counters and the time of the last successful refresh. Queries
 * read the current entries; a refresh replaces entries, counters and
 * timestamp together, or nothing at all.
 */
module Store {
  import opened Wrappers
  import opened Numbers
  import opened Models
  import opened Feed
  import opened Search

  /** A point in time, in seconds since the epoch. */
  type Timestamp = int

  class Dictionary {
    var url: string
    var entries: map<u32, Entry>
    var counters: Counters
    var lastUpdate: Timestamp

    /** Every entry is stored under its own id. */
    ghost predicate Valid()
      reads this
    {
      KeyedById(entries)
    }

    /** The dictionary as `from_url` first builds it, before the first refresh. */
    constructor (url: string, now: Timestamp)
      ensures Valid()
      ensures this.url == url && entries == map[] && counters == DefaultCounters && lastUpdate == now
    {
      this.url := url;
      entries := map[];
      counters := DefaultCounters;
      lastUpdate := now;
    }

    /**
     * `from_url`: an empty dictionary, refreshed once; when that refresh
     * fails, its error is returned and there is no dictionary.
     */
    static method FromUrl(url: string, fetched: Result<seq<Row>, ApiError>, vocabulary: set<string>, now: Timestamp)
      returns (r: Result<Dictionary, ApiError>)
      ensures FetchOutcome(fetched, vocabulary).Failure? ==> r == Failure(FetchOutcome(fetched, vocabulary).error)
      ensures FetchOutcome(fetched, vocabulary).Success? ==>
                && r.Success? && fresh(r.value) && r.value.Valid() && r.value.url == url
                && r.value.entries == FetchOutcome(fetched, vocabulary).value.entries
                && r.value.counters == FetchOutcome(fetched, vocabulary).value.counters
                && r.value.lastUpdate == now
    {
      var dict := new Dictionary(url, now);
      var outcome := dict.Update(fetched, vocabulary, now);
      if outcome.Failure? {
        return Failure(outcome.error);
      }
      return Success(dict);
    }

    /**
     * `update`: fetch and parse the feed at `url` (whose download produced
     * `fetched`); on success replace entries, counters and timestamp, on
     * failure return the error and change nothing. The url never changes.
     */
    method Update(fetched: Result<seq<Row>, ApiError>, vocabulary: set<string>, now: Timestamp)
      returns (r: Result<(), ApiError>)
      requires Valid()
      modifies this
      ensures Valid()
      ensures url == old(url)
      ensures var outcome := FetchOutcome(fetched, vocabulary);
              outcome.Failure? ==>
                && r == Failure(outcome.error)
                && entries == old(entries) && counters == old(counters) && lastUpdate == old(lastUpdate)
      ensures var outcome := FetchOutcome(fetched, vocabulary);
              outcome.Success? ==>
                && r == Success(())
                && entries == outcome.value.entries && counters == outcome.value.counters
                && lastUpdate == now
    {
      var outcome := FetchDict(fetched, vocabulary);
      if outcome.Failure? {
        return Failure(outcome.error);
      }
      FetchOutcomeKeyed(fetched, vocabulary);
      entries := outcome.value.entries;
      counters := outcome.value.counters;
      lastUpdate := now;
      return Success(());
    }

    /** `get_entry`: the entry stored under `id`, or `EntryNotFound(id)`. */
    function GetEntry(id: u32): (r: Result<Entry, ApiError>)
      reads this
      ensures r.Failure? <==> id !in entries
      ensures r.Failure? ==> r.error == EntryNotFound(id)
      ensures r.Success? ==> r.value == entries[id]
      ensures Valid() && r.Success? ==> r.value.id == id
    {
      if id in entries then Success(entries[id]) else Failure(EntryNotFound(id))
    }

    /**
     * `search`: the entries that pass all three filters, in the iteration
     * order `order` of the entry map. Every entry comes back at most once.
     */
    function Search(order: seq<u32>, text: Option<string>, textLangs: seq<LanguageCode>,
                    semId: Option<u32>, topics: seq<Topic>, matches: Matcher): (r: seq<Entry>)
      reads this
      requires IsIterationOrder(order, entries)
      ensures forall e :: e in r <==> e in entries.Values && Passes(e, Query(text, textLangs, semId, topics), matches)
      ensures Valid() ==> forall i, j :: 0 <= i < j < |r| ==> r[i].id != r[j].id
    {
      var q := Query(text, textLangs, semId, topics);
      ValuesAlongOrder(entries, order);
      assert Valid() ==> forall i, j :: 0 <= i < j < |Select(entries, order, q, matches)| ==>
                           Select(entries, order, q, matches)[i].id != Select(entries, order, q, matches)[j].id by {
        if Valid() {
          SelectDistinct(entries, order, q, matches);
        }
      }
      Select(entries, order, q, matches)
    }

    /** A search with no text, no cluster and no topics returns the whole dictionary, each entry once. */
    lemma SearchWithoutFilters(order: seq<u32>, matches: Matcher)
      requires IsIterationOrder(order, entries)
      ensures var r := Search(order, None, [], None, [], matches);
              && |r| == |order|
              && (forall i :: 0 <= i < |order| ==> r[i] == entries[order[i]])
              && (forall e :: e in r <==> e in entries.Values)
    {
      forall i | 0 <= i < |order|
        ensures Passes(entries[order[i]], Unfiltered, matches)
      {
      }
      SelectEverything(entries, order, Unfiltered, matches);
    }

    /** Searching by cluster alone returns exactly the members of that cluster. */
    lemma SearchByCluster(order: seq<u32>, semId: u32, matches: Matcher)
      requires IsIterationOrder(order, entries)
      ensures forall e :: e in Search(order, None, [], Some(semId), [], matches) <==>
                          e in entries.Values && e.semId == Some(semId)
    {
    }

    /** Searching by one topic alone returns exactly the entries of that topic. */
    lemma SearchByTopic(order: seq<u32>, topic: Topic, matches: Matcher)
      requires IsIterationOrder(order, entries)
      ensures forall e :: e in Search(order, None, [], None, [topic], matches) <==>
                          e in entries.Values && e.topic == Some(topic)
    {
    }
  }
}
