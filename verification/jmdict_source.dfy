/** `JmdictSource`: the archive path it is created with, and `GetEntries`,
    which checks the parsed document, builds the entity table from its
    document type and maps its `entry` elements to records. */
module JmdictSource {
  import opened Wrappers
  import opened Xml
  import opened Entities
  import opened JmdictEntries

  /** What `XDocument.Load` leaves for the extraction: the root element, if
      any, and the text of the document type declaration, if any. */
  datatype Document = Document(root: Option<Element>, doctype: Option<string>)

  /** The extraction as a whole: no root fails, then no document type fails;
      otherwise the entity table is built first and every `entry` child of the
      root is projected with it. */
  function Extract(doc: Document): (r: Result<seq<Entry>, Error>)
    ensures doc.root.None? ==> r == Failure(MissingRoot)
    ensures doc.root.Some? && doc.doctype.None? ==> r == Failure(MissingEntities)
    ensures r.Success? ==> doc.root.Some? && doc.doctype.Some?
  {
    match doc.root
    case None => Failure(MissingRoot)
    case Some(root) =>
      match doc.doctype
      case None => Failure(MissingEntities)
      case Some(dtd) => MapEntries(Elements(root, EntryTag), EntityTable(dtd))
  }

  /** The records of a successful extraction: one per `entry` child of the
      root, in document order, with ids 1, 2, 3, ...; and it succeeds exactly
      when every entry's sequence number parses and every part of speech is in
      the table built from the document type. */
  lemma ExtractEntries(root: Element, dtd: string)
    ensures var r := Extract(Document(Some(root), Some(dtd)));
            var es := Elements(root, EntryTag);
            (r.Success? <==>
               forall i :: 0 <= i < |es| ==>
                 EntrySequence(es[i]).Success? && AllResolvable(es[i], EntityTable(dtd))) &&
            (r.Success? ==>
               |r.value| == |es| &&
               forall i :: 0 <= i < |es| ==>
                 r.value[i] == MapEntry(es[i], i, EntityTable(dtd)).value && r.value[i].id == i + 1)
  {
    MapEntriesSpec(Elements(root, EntryTag), EntityTable(dtd));
  }

  class JmdictSource {
    /** The path of the compressed dictionary, never empty. */
    const archivePath: string

    constructor (path: string)
      requires path != ""
      ensures archivePath == path
    {
      archivePath := path;
    }

    /** `new JmdictSource(path)`: a null or empty path is rejected with an
        argument error; any other path is kept as it is. */
    static method Create(path: Option<string>) returns (r: Result<JmdictSource, Error>)
      ensures r.Failure? <==> path.None? || path.value == ""
      ensures r.Failure? ==> r.error == EmptyPath
      ensures r.Success? ==> r.value.archivePath == path.value
    {
      if path.None? || path.value == "" {
        return Failure(EmptyPath);
      }
      var source := new JmdictSource(path.value);
      return Success(source);
    }

    /** `GetEntries`, from the loaded document on: the root and document type
        checks, `ParseEntities`, then the entry query. */
    method GetEntries(doc: Document) returns (r: Result<seq<Entry>, Error>)
      ensures r == Extract(doc)
      ensures doc.root.None? ==> r == Failure(MissingRoot)
      ensures doc.root.Some? && doc.doctype.None? ==> r == Failure(MissingEntities)
    {
      if doc.root.None? {
        return Failure(MissingRoot);
      }
      if doc.doctype.None? {
        return Failure(MissingEntities);
      }
      var posDefinition := ParseEntities(doc.doctype.value);
      r := MapEntries(Elements(doc.root.value, EntryTag), posDefinition);
    }
  }
}
