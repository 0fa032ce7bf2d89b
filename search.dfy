/**
 * The filters of `Dictionary::search`. An entry is returned when it passes
 * the semantic-cluster filter, the topic filter and the text filter.
 */
module Search {
  import opened Wrappers
  import opened Numbers
  import opened Models

  /**
   * `Entry::matches(text, langs)`: whether the entry's text in one of `langs`
   * matches `text`. How text is compared is not part of this model, so every
   * search takes the comparison as a parameter.
   */
  type Matcher = (Entry, string, seq<LanguageCode>) -> bool

  /** The arguments of a search. */
  datatype Query = Query(
    text: Option<string>,
    textLangs: seq<LanguageCode>,
    semId: Option<u32>,
    topics: seq<Topic>)

  /** The languages searched for text: those asked for, or every language when none is. */
  function SearchLanguages(textLangs: seq<LanguageCode>): (langs: seq<LanguageCode>)
    ensures textLangs == [] ==> forall lang :: lang in langs
    ensures textLangs != [] ==> langs == textLangs
  {
    AllLanguagesComplete();
    if textLangs == [] then AllLanguages else textLangs
  }

  predicate SemFilter(e: Entry, semId: Option<u32>) {
    match (semId, e.semId)
    case (Some(a), Some(b)) => a == b
    case (Some(_), None) => false
    case _ => true
  }

  predicate TopicFilter(e: Entry, topics: seq<Topic>) {
    if topics == [] then true
    else match e.topic
      case Some(t) => t in topics
      case None => false
  }

  predicate TextFilter(e: Entry, text: Option<string>, langs: seq<LanguageCode>, matches: Matcher) {
    match text
    case Some(t) => matches(e, t, langs)
    case None => true
  }

  /** The filter closure of `search`: all three filters at once. */
  predicate Passes(e: Entry, q: Query, matches: Matcher) {
    && SemFilter(e, q.semId)
    && TopicFilter(e, q.topics)
    && TextFilter(e, q.text, SearchLanguages(q.textLangs), matches)
  }

  /** Asked for a cluster, only members of that cluster pass; an entry in no cluster never does. */
  lemma SemFilterMeaning(e: Entry, semId: Option<u32>)
    ensures semId.None? ==> SemFilter(e, semId)
    ensures semId.Some? ==> (SemFilter(e, semId) <==> e.semId == semId)
    ensures semId.Some? && e.semId.None? ==> !SemFilter(e, semId)
  {
  }

  /** Asked for topics, only entries with one of them pass; asked for none, every entry does. */
  lemma TopicFilterMeaning(e: Entry, topics: seq<Topic>)
    ensures topics == [] ==> TopicFilter(e, topics)
    ensures topics != [] ==> (TopicFilter(e, topics) <==> e.topic.Some? && e.topic.value in topics)
  {
  }

  /**
   * Without text every entry passes the text filter; with text, an entry
   * passes when it matches in the languages asked for, or in every language
   * when none is asked for.
   */
  lemma TextFilterMeaning(e: Entry, q: Query, matches: Matcher)
    ensures q.text.None? ==> TextFilter(e, q.text, SearchLanguages(q.textLangs), matches)
    ensures q.text.Some? && q.textLangs == [] ==>
            (TextFilter(e, q.text, SearchLanguages(q.textLangs), matches) <==> matches(e, q.text.value, AllLanguages))
    ensures q.text.Some? && q.textLangs != [] ==>
            (TextFilter(e, q.text, SearchLanguages(q.textLangs), matches) <==> matches(e, q.text.value, q.textLangs))
  {
  }

  /** The query without text, cluster or topics. */
  const Unfiltered: Query := Query(None, [], None, [])

  /** `order` lists every key of `entries` once: an iteration order of the map. */
  predicate IsIterationOrder(order: seq<u32>, entries: map<u32, Entry>) {
    && (forall i :: 0 <= i < |order| ==> order[i] in entries)
    && (forall id :: id in entries ==> id in order)
    && (forall i, j :: 0 <= i < j < |order| ==> order[i] != order[j])
  }

  /** Along an iteration order, the values met are exactly the values of the map. */
  lemma ValuesAlongOrder(entries: map<u32, Entry>, order: seq<u32>)
    requires IsIterationOrder(order, entries)
    ensures forall e :: e in entries.Values <==> exists i :: 0 <= i < |order| && entries[order[i]] == e
  {
    forall e | e in entries.Values
      ensures exists i :: 0 <= i < |order| && entries[order[i]] == e
    {
      var id :| id in entries && entries[id] == e;
      assert id in order;
      var i :| 0 <= i < |order| && order[i] == id;
    }
  }

  /**
   * `entries.values().filter(..).cloned().collect()`, the values taken in
   * the iteration order `order`.
   */
  function Select(entries: map<u32, Entry>, order: seq<u32>, q: Query, matches: Matcher): (r: seq<Entry>)
    requires forall i :: 0 <= i < |order| ==> order[i] in entries
    ensures |r| <= |order|
    ensures forall e :: e in r <==> (exists i :: 0 <= i < |order| && entries[order[i]] == e) && Passes(e, q, matches)
  {
    if order == [] then []
    else
      var e := entries[order[0]];
      var rest := Select(entries, order[1..], q, matches);
      if Passes(e, q, matches) then [e] + rest else rest
  }

  /** Entries stored under their ids come back at most once each. */
  lemma {:induction false} SelectDistinct(entries: map<u32, Entry>, order: seq<u32>, q: Query, matches: Matcher)
    requires forall i :: 0 <= i < |order| ==> order[i] in entries
    requires KeyedById(entries)
    requires forall i, j :: 0 <= i < j < |order| ==> order[i] != order[j]
    ensures var r := Select(entries, order, q, matches);
            forall i, j :: 0 <= i < j < |r| ==> r[i].id != r[j].id
  {
    if order != [] {
      var rest := Select(entries, order[1..], q, matches);
      SelectDistinct(entries, order[1..], q, matches);
      assert forall i, j :: 0 <= i < j < |Select(entries, order[1..], q, matches)| ==>
               Select(entries, order[1..], q, matches)[i].id != Select(entries, order[1..], q, matches)[j].id;
      forall e | e in rest
        ensures e.id != order[0]
      {
        var i :| 0 <= i < |order[1..]| && entries[order[1..][i]] == e;
        assert e.id == order[i + 1];
      }
      var e := entries[order[0]];
      if Passes(e, q, matches) {
        var r := [e] + rest;
        assert r == Select(entries, order, q, matches);
        forall i, j | 0 <= i < j < |r|
          ensures r[i].id != r[j].id
        {
          assert r[j] == rest[j - 1];
          if i > 0 {
            assert r[i] == rest[i - 1];
          } else {
            assert r[0] == e && e.id == order[0];
            assert rest[j - 1] in rest;
          }
        }
      }
    }
  }

  /** When every entry passes, the values come back in iteration order, each exactly once. */
  lemma {:induction false} SelectEverything(entries: map<u32, Entry>, order: seq<u32>, q: Query, matches: Matcher)
    requires forall i :: 0 <= i < |order| ==> order[i] in entries
    requires forall i :: 0 <= i < |order| ==> Passes(entries[order[i]], q, matches)
    ensures var r := Select(entries, order, q, matches);
            |r| == |order| && forall i :: 0 <= i < |order| ==> r[i] == entries[order[i]]
  {
    if order != [] {
      SelectEverything(entries, order[1..], q, matches);
    }
  }
}
