/**
 * The values the dictionary is made of: language codes, topics, the raw
 * record read from one feed row, the dictionary entry built from it, the
 * feed's counters and the errors of the service.
 */
module Models {
  import opened Wrappers
  import opened Numbers

  /** The supported languages, in the order of their columns in the feed. */
  datatype LanguageCode = Lat | Iro | Por | Spa | Cat | Occ | Fra | Srd | Ita | Rom | Eng | Fol | Frk | Sla

  /** `LanguageCode::iter()`: every language code, each once. */
  const AllLanguages: seq<LanguageCode> :=
    [Lat, Iro, Por, Spa, Cat, Occ, Fra, Srd, Ita, Rom, Eng, Fol, Frk, Sla]

  /** The position of a language among the language columns. */
  function LanguageIndex(lang: LanguageCode): (i: nat)
    ensures i < |AllLanguages| && AllLanguages[i] == lang
  {
    match lang
    case Lat => 0 case Iro => 1 case Por => 2 case Spa => 3 case Cat => 4
    case Occ => 5 case Fra => 6 case Srd => 7 case Ita => 8 case Rom => 9
    case Eng => 10 case Fol => 11 case Frk => 12 case Sla => 13
  }

  /** Every language code is in the list. */
  lemma AllLanguagesComplete()
    ensures forall lang :: lang in AllLanguages
  {
    forall lang: LanguageCode
      ensures lang in AllLanguages
    {
      assert AllLanguages[LanguageIndex(lang)] == lang;
    }
  }

  /**
   * A topic of the closed topic set, identified by the name under which the
   * feed writes it. Which names exist is given by a vocabulary wherever a
   * topic cell is decoded.
   */
  datatype Topic = Topic(name: string)

  /** The error kinds of the service that the dictionary can produce. */
  datatype ApiError =
    | FetchFailed          // the download of the feed failed
    | MissingDictHeaders   // the counters row, or one of its columns, is absent
    | MalformedNumber      // a counter cell is not a `u32` numeral
    | EntryNotFound(id: u32)

  /** One feed row as deserialised, before the flags are interpreted. */
  datatype RawEntry = RawEntry(
    id: u32,
    semId: Option<u32>,
    category: Option<string>,
    topic: Option<Topic>,
    subTopic: Option<string>,
    subSubTopic: Option<string>,
    essentialFlag: Option<string>,
    basicFlag: Option<string>,
    lat: Option<string>, iro: Option<string>, por: Option<string>, spa: Option<string>,
    cat: Option<string>, occ: Option<string>, fra: Option<string>, srd: Option<string>,
    ita: Option<string>, rom: Option<string>, eng: Option<string>, fol: Option<string>,
    frk: Option<string>, sla: Option<string>)
  {
    /** The text of this row in one language. */
    function Text(lang: LanguageCode): Option<string> {
      match lang
      case Lat => lat case Iro => iro case Por => por case Spa => spa case Cat => cat
      case Occ => occ case Fra => fra case Srd => srd case Ita => ita case Rom => rom
      case Eng => eng case Fol => fol case Frk => frk case Sla => sla
    }
  }

  /** A dictionary entry. */
  datatype Entry = Entry(
    id: u32,
    semId: Option<u32>,
    topic: Option<Topic>,
    essentialFlag: bool,
    basicFlag: bool,
    lat: Option<string>, iro: Option<string>, por: Option<string>, spa: Option<string>,
    cat: Option<string>, occ: Option<string>, fra: Option<string>, srd: Option<string>,
    ita: Option<string>, rom: Option<string>, eng: Option<string>, fol: Option<string>,
    frk: Option<string>, sla: Option<string>)
  {
    /** The word or phrase of this entry in one language, if the feed has one. */
    function Text(lang: LanguageCode): Option<string> {
      match lang
      case Lat => lat case Iro => iro case Por => por case Spa => spa case Cat => cat
      case Occ => occ case Fra => fra case Srd => srd case Ita => ita case Rom => rom
      case Eng => eng case Fol => fol case Frk => frk case Sla => sla
    }
  }

  /**
   * `Entry::try_from(RawEntry)`: never fails. The two flags are true exactly
   * when their cell holds the one-letter marker; everything else the entry
   * keeps is copied unchanged, and category and the sub-topics are dropped.
   */
  function TryFrom(r: RawEntry): (res: Result<Entry, ApiError>)
    ensures res.Success?
    ensures res.value.id == r.id && res.value.semId == r.semId && res.value.topic == r.topic
    ensures res.value.essentialFlag <==> r.essentialFlag == Some("e")
    ensures res.value.basicFlag <==> r.basicFlag == Some("b")
    ensures forall lang :: res.value.Text(lang) == r.Text(lang)
  {
    Success(Entry(
      r.id, r.semId, r.topic,
      r.essentialFlag == Some("e"),
      r.basicFlag == Some("b"),
      r.lat, r.iro, r.por, r.spa, r.cat, r.occ, r.fra,
      r.srd, r.ita, r.rom, r.eng, r.fol, r.frk, r.sla))
  }

  /** Every key of an entry map is the id of the entry stored under it. */
  ghost predicate KeyedById(entries: map<u32, Entry>) {
    forall id :: id in entries ==> entries[id].id == id
  }

  /** The record counts published in the feed's second row. */
  datatype Counters = Counters(
    total: u32, sem: u32,
    lat: u32, iro: u32, por: u32, spa: u32, cat: u32, occ: u32, fra: u32,
    srd: u32, ita: u32, rom: u32, eng: u32, fol: u32, frk: u32, sla: u32)
  {
    /** The sixteen counts in the order of their columns. */
    function AsSeq(): seq<u32> {
      [total, sem, lat, iro, por, spa, cat, occ, fra, srd, ita, rom, eng, fol, frk, sla]
    }
  }

  /** `Counters::default()`: every count zero. */
  const DefaultCounters: Counters := Counters(0, 0, 0, 0, 0, 0, 0, 0, 0, 0, 0, 0, 0, 0, 0, 0)
}
