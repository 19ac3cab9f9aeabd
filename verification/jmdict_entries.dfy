/** The entry records and the query that maps each `entry` element of the
    document to one record. */
module JmdictEntries {
  import opened Wrappers
  import opened Xml
  import opened NumberParsing

  const EntryTag := "entry"
  const EntrySequenceTag := "ent_seq"
  const SenseTag := "sense"
  const GlossaryTag := "gloss"
  const PartOfSpeechTag := "pos"
  const CrossReferenceTag := "xref"
  const KanjiElementTag := "k_ele"
  const KanjiContentTag := "keb"
  const KanjiPriorityTag := "ke_pri"
  const ReadingElementTag := "r_ele"
  const ReadingContentTag := "reb"
  const ReadingPriorityTag := "re_pri"
  const ReadingNoKanjiTag := "re_nokanji"

  datatype Kanji = Kanji(text: string, priorities: seq<string>)
  datatype Reading = Reading(text: string, priorities: seq<string>)
  datatype Sense = Sense(glossaries: seq<string>, partsOfSpeech: seq<string>, crossReferences: seq<string>)
  datatype Entry = Entry(id: int, entrySequence: int, kanjiElements: seq<Kanji>,
                         readingElements: seq<Reading>, senses: seq<Sense>)

  /** Why extraction stops: the constructor's argument check, the two structural
      checks, `int.Parse` on the sequence number, and the dictionary lookup of a
      part of speech (`KeyNotFoundException`). */
  datatype Error =
    | EmptyPath
    | MissingRoot
    | MissingEntities
    | MalformedEntrySequence(text: string, reason: ParseError)
    | UnknownPartOfSpeech(text: string)

  /** `int.Parse(entry.Element("ent_seq")?.Value ?? "0")`. */
  function EntrySequence(e: Element): (r: Result<int, Error>)
    ensures FirstElement(e, EntrySequenceTag).None? ==> r == Success(0)
    ensures FirstElement(e, EntrySequenceTag).Some? ==>
              var text := FirstElement(e, EntrySequenceTag).value.value;
              (r.Success? <==> ParseInt32(text).Success?) &&
              (r.Success? ==> r.value == ParseInt32(text).value) &&
              (r.Failure? ==> r.error == MalformedEntrySequence(text, ParseInt32(text).error))
    ensures r.Success? ==> Int32Min <= r.value <= Int32Max
  {
    var text := match FirstElement(e, EntrySequenceTag) case Some(c) => c.value case None => "0";
    ParseZero();
    match ParseInt32(text)
    case Success(n) => Success(n)
    case Failure(why) => Failure(MalformedEntrySequence(text, why))
  }

  /** Round trip: an `ent_seq` holding the decimal text of a 32-bit integer
      gives that integer as the sequence number. */
  lemma EntrySequenceRoundTrip(e: Element, n: int)
    requires Int32Min <= n <= Int32Max
    requires FirstElement(e, EntrySequenceTag).Some? && FirstElement(e, EntrySequenceTag).value.value == Show(n)
    ensures EntrySequence(e) == Success(n)
  {
    ParseShow(n);
  }

  /** An `ent_seq` whose value is not a numeral padded with white space
      makes the entry fail with a format error instead of defaulting to 0;
      any other value parses or overflows. */
  lemma EntrySequenceNotNumeral(e: Element)
    requires FirstElement(e, EntrySequenceTag).Some?
    ensures var text := FirstElement(e, EntrySequenceTag).value.value;
            EntrySequence(e) == Failure(MalformedEntrySequence(text, FormatError)) <==>
              !exists i, j :: PaddedNumeral(text, i, j)
  {
    ParseInt32Format(FirstElement(e, EntrySequenceTag).value.value);
  }

  /** `new Kanji(k.Element("keb")?.Value ?? "", k.Elements("ke_pri").Select(p => p.Value))`. */
  function MapKanji(k: Element): Kanji
  {
    Kanji(TextOf(k, KanjiContentTag), Values(Elements(k, KanjiPriorityTag)))
  }

  /** `new Reading(r.Element("reb")?.Value ?? "", r.Elements("re_pri").Select(p => p.Value))`. */
  function MapReading(r: Element): Reading
  {
    Reading(TextOf(r, ReadingContentTag), Values(Elements(r, ReadingPriorityTag)))
  }

  /** The `where` clause of the reading query: no `re_nokanji` child, and the
      entry has at most one reading element. */
  predicate KeepReading(r: Element, readingCount: int)
  {
    FirstElement(r, ReadingNoKanjiTag).None? && readingCount <= 1
  }

  /** The reading query: the kept reading elements, mapped, in order. */
  function FilterReadings(rs: seq<Element>, readingCount: int): (r: seq<Reading>)
    ensures |r| <= |rs|
    ensures readingCount > 1 ==> r == []
  {
    if rs == [] then []
    else (if KeepReading(rs[0], readingCount) then [MapReading(rs[0])] else []) + FilterReadings(rs[1..], readingCount)
  }

  /** The kanji query: every `k_ele` element mapped, in order. */
  function KanjiElements(e: Element): seq<Kanji>
  {
    var ks := Elements(e, KanjiElementTag);
    seq(|ks|, i requires 0 <= i < |ks| => MapKanji(ks[i]))
  }

  /** The reading query over all `r_ele` elements of the entry. */
  function ReadingElements(e: Element): seq<Reading>
  {
    var rs := Elements(e, ReadingElementTag);
    FilterReadings(rs, |rs|)
  }

  /** `s.Elements("pos").Select(pos => posDefinition[pos.Value])`: every part of
      speech looked up in the entity table; the first one missing fails. */
  function ResolvePartsOfSpeech(ps: seq<Element>, table: map<string, string>): (r: Result<seq<string>, Error>)
    ensures r.Success? <==> forall i :: 0 <= i < |ps| ==> ps[i].value in table
    ensures r.Success? ==> |r.value| == |ps| && forall i :: 0 <= i < |ps| ==> r.value[i] == table[ps[i].value]
    ensures r.Failure? ==> exists i :: 0 <= i < |ps| && ps[i].value !in table &&
                                       r.error == UnknownPartOfSpeech(ps[i].value) &&
                                       forall j :: 0 <= j < i ==> ps[j].value in table
  {
    if ps == [] then Success([])
    else if ps[0].value !in table then Failure(UnknownPartOfSpeech(ps[0].value))
    else
      var rest :- ResolvePartsOfSpeech(ps[1..], table);
      Success([table[ps[0].value]] + rest)
  }

  /** Every part of speech of the sense is in the table. */
  predicate Resolvable(s: Element, table: map<string, string>)
  {
    var ps := Elements(s, PartOfSpeechTag);
    forall i :: 0 <= i < |ps| ==> ps[i].value in table
  }

  /** Every part of speech of every sense of the entry is in the table. */
  predicate AllResolvable(e: Element, table: map<string, string>)
  {
    var ss := Elements(e, SenseTag);
    forall i :: 0 <= i < |ss| ==> Resolvable(ss[i], table)
  }

  /** `new Sense(glosses, parts of speech, cross references)` for one `sense`. */
  function MapSense(s: Element, table: map<string, string>): (r: Result<Sense, Error>)
    ensures r.Success? <==> Resolvable(s, table)
    ensures r.Success? ==> r.value.glossaries == Values(Elements(s, GlossaryTag))
    ensures r.Success? ==> r.value.crossReferences == Values(Elements(s, CrossReferenceTag))
    ensures r.Success? ==> |r.value.partsOfSpeech| == |Elements(s, PartOfSpeechTag)|
    ensures r.Success? ==> forall i :: 0 <= i < |r.value.partsOfSpeech| ==>
                             r.value.partsOfSpeech[i] == table[Elements(s, PartOfSpeechTag)[i].value]
    ensures r.Failure? ==> var ps := Elements(s, PartOfSpeechTag);
                           exists i :: 0 <= i < |ps| && ps[i].value !in table &&
                                       r.error == UnknownPartOfSpeech(ps[i].value) &&
                                       forall j :: 0 <= j < i ==> ps[j].value in table
  {
    var ps := Elements(s, PartOfSpeechTag);
    var partsOfSpeech :- ResolvePartsOfSpeech(ps, table);
    Success(Sense(Values(Elements(s, GlossaryTag)), partsOfSpeech, Values(Elements(s, CrossReferenceTag))))
  }

  /** The sense query: every `sense` element mapped, in order. */
  function MapSenses(ss: seq<Element>, table: map<string, string>): (r: Result<seq<Sense>, Error>)
    ensures r.Success? <==> forall i :: 0 <= i < |ss| ==> Resolvable(ss[i], table)
    ensures r.Success? ==> |r.value| == |ss| && forall i :: 0 <= i < |ss| ==> r.value[i] == MapSense(ss[i], table).value
    ensures r.Failure? ==> exists i :: 0 <= i < |ss| && !Resolvable(ss[i], table) &&
                                       r.error == MapSense(ss[i], table).error &&
                                       forall j :: 0 <= j < i ==> Resolvable(ss[j], table)
  {
    if ss == [] then Success([])
    else
      var first :- MapSense(ss[0], table);
      var rest :- MapSenses(ss[1..], table);
      Success([first] + rest)
  }

  /** The projection of one `entry` element at position `index`. */
  function MapEntry(e: Element, index: int, table: map<string, string>): Result<Entry, Error>
  {
    var entrySequence :- EntrySequence(e);
    var senses :- MapSenses(Elements(e, SenseTag), table);
    Success(Entry(index + 1, entrySequence, KanjiElements(e), ReadingElements(e), senses))
  }

  /** An entry's projection fails exactly when its sequence number does not
      parse or one of its parts of speech is missing from the table; otherwise
      its id is its position plus one and its sequence number the parsed
      `ent_seq`. */
  lemma EntryOutcome(e: Element, index: int, table: map<string, string>)
    ensures var r := MapEntry(e, index, table);
            r.Success? <==>
              EntrySequence(e).Success? && AllResolvable(e, table)
    ensures var r := MapEntry(e, index, table);
            r.Success? ==> r.value.id == index + 1 && r.value.entrySequence == EntrySequence(e).value
  {
    var ss := Elements(e, SenseTag);
    assert MapSenses(ss, table).Success? <==> AllResolvable(e, table);
  }

  /** Which error an entry fails with: a sequence number that does not parse
      is reported before any part of speech; otherwise the first sense with a
      part of speech missing from the table decides the error. */
  lemma EntryFailure(e: Element, index: int, table: map<string, string>)
    ensures EntrySequence(e).Failure? ==> MapEntry(e, index, table) == Failure(EntrySequence(e).error)
    ensures var ss := Elements(e, SenseTag);
            EntrySequence(e).Success? && !AllResolvable(e, table) ==>
              exists i :: 0 <= i < |ss| && !Resolvable(ss[i], table) &&
                          MapEntry(e, index, table) == Failure(MapSense(ss[i], table).error) &&
                          forall j :: 0 <= j < i ==> Resolvable(ss[j], table)
  {
    var ss := Elements(e, SenseTag);
    if EntrySequence(e).Success? && !AllResolvable(e, table) {
      assert MapSenses(ss, table).Failure?;
      assert MapEntry(e, index, table) == Failure(MapSenses(ss, table).error);
    }
  }

  /** Each kanji element gives the first `keb` value, or the empty text, and
      all its `ke_pri` values in order. */
  lemma EntryKanji(e: Element, index: int, table: map<string, string>)
    ensures var r := MapEntry(e, index, table);
            var ks := Elements(e, KanjiElementTag);
            r.Success? ==>
              |r.value.kanjiElements| == |ks| &&
              forall i :: 0 <= i < |ks| ==>
                r.value.kanjiElements[i].text == TextOf(ks[i], KanjiContentTag) &&
                r.value.kanjiElements[i].priorities == Values(Elements(ks[i], KanjiPriorityTag))
  {
    if MapEntry(e, index, table).Success? {
      assert MapEntry(e, index, table).value.kanjiElements == KanjiElements(e);
    }
  }

  /** At most one reading is kept: the only `r_ele` of the entry, when it has
      no `re_nokanji` child; it gives the first `reb` value, or the empty
      text, and all its `re_pri` values in order. */
  lemma EntryReadings(e: Element, index: int, table: map<string, string>)
    ensures var r := MapEntry(e, index, table);
            var rs := Elements(e, ReadingElementTag);
            r.Success? ==>
              r.value.readingElements ==
                if |rs| == 1 && FirstElement(rs[0], ReadingNoKanjiTag).None?
                then [Reading(TextOf(rs[0], ReadingContentTag), Values(Elements(rs[0], ReadingPriorityTag)))]
                else []
  {
    ReadingFilterRule(Elements(e, ReadingElementTag));
    if MapEntry(e, index, table).Success? {
      assert MapEntry(e, index, table).value.readingElements == ReadingElements(e);
    }
  }

  /** The senses of the entry are its `sense` elements, each projected by
      `MapSense`, in document order. */
  lemma EntrySenses(e: Element, index: int, table: map<string, string>)
    ensures var r := MapEntry(e, index, table);
            var ss := Elements(e, SenseTag);
            r.Success? ==>
              |r.value.senses| == |ss| &&
              forall i :: 0 <= i < |ss| ==> MapSense(ss[i], table).Success? && r.value.senses[i] == MapSense(ss[i], table).value
  {
    var ss := Elements(e, SenseTag);
    var senses := MapSenses(ss, table);
    if MapEntry(e, index, table).Success? {
      assert EntrySequence(e).Success? && senses.Success?;
      assert MapEntry(e, index, table).value.senses == senses.value;
    }
  }

  /** `xs.Select((x, index) => f(x, index))` from position `k` on, enumerated
      to the end: the first element whose projection fails stops it. */
  function SelectFrom<A, B, E>(xs: seq<A>, k: nat, f: (A, int) -> Result<B, E>): (r: Result<seq<B>, E>)
    requires k <= |xs|
    ensures r.Success? <==> forall i :: k <= i < |xs| ==> f(xs[i], i).Success?
    ensures r.Success? ==> |r.value| == |xs| - k &&
                           forall i :: k <= i < |xs| ==> r.value[i - k] == f(xs[i], i).value
    ensures r.Failure? ==> exists i :: k <= i < |xs| && f(xs[i], i).Failure? && r.error == f(xs[i], i).error &&
                                       forall j :: k <= j < i ==> f(xs[j], j).Success?
    decreases |xs| - k
  {
    if k == |xs| then Success([])
    else
      var first :- f(xs[k], k);
      var rest :- SelectFrom(xs, k + 1, f);
      Success([first] + rest)
  }

  /** The entry query: every `entry` element projected with its position. */
  function MapEntries(es: seq<Element>, table: map<string, string>): Result<seq<Entry>, Error>
  {
    SelectFrom(es, 0, (e, index) => MapEntry(e, index, table))
  }

  /** One record per `entry` element, in document order, numbered densely
      from 1; extraction fails exactly when some entry's sequence number does
      not parse or one of its parts of speech is missing from the table. */
  lemma MapEntriesSpec(es: seq<Element>, table: map<string, string>)
    ensures MapEntries(es, table).Success? <==>
              forall i :: 0 <= i < |es| ==>
                EntrySequence(es[i]).Success? && AllResolvable(es[i], table)
    ensures MapEntries(es, table).Success? ==>
              |MapEntries(es, table).value| == |es| &&
              forall i :: 0 <= i < |es| ==>
                MapEntries(es, table).value[i] == MapEntry(es[i], i, table).value &&
                MapEntries(es, table).value[i].id == i + 1
    ensures MapEntries(es, table).Failure? ==>
              exists i :: 0 <= i < |es| && MapEntry(es[i], i, table).Failure? &&
                          MapEntries(es, table).error == MapEntry(es[i], i, table).error &&
                          forall j :: 0 <= j < i ==> MapEntry(es[j], j, table).Success?
  {
    var f := (e, index) => MapEntry(e, index, table);
    forall i | 0 <= i < |es|
      ensures f(es[i], i) == MapEntry(es[i], i, table)
      ensures MapEntry(es[i], i, table).Success? <==>
                EntrySequence(es[i]).Success? && AllResolvable(es[i], table)
      ensures MapEntry(es[i], i, table).Success? ==> MapEntry(es[i], i, table).value.id == i + 1
    {
      EntryOutcome(es[i], i, table);
    }
    if MapEntries(es, table).Failure? {
      var i :| 0 <= i < |es| && f(es[i], i).Failure? && MapEntries(es, table).error == f(es[i], i).error &&
               forall j :: 0 <= j < i ==> f(es[j], j).Success?;
      assert MapEntry(es[i], i, table).Failure?;
    }
  }

  /** Reading filter: an entry keeps its single reading when that reading has
      no `re_nokanji` child, and keeps no reading otherwise; in particular an
      entry with several readings keeps none of them. */
  lemma ReadingFilterRule(rs: seq<Element>)
    ensures FilterReadings(rs, |rs|) ==
              if |rs| == 1 && FirstElement(rs[0], ReadingNoKanjiTag).None? then [MapReading(rs[0])] else []
  {
    if |rs| == 1 {
      assert rs[1..] == [];
    }
  }
}
