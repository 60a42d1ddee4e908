/**
 * The raw field map the FB2 `description` element is read into, and the
 * element tree it is read from. The functions here state what
 * `FictionBookParser::collectData` and `collectPersonData` compute; the
 * methods that compute it step by step are in module FictionBook.
 */
module Collector {
  import opened Wrappers
  import opened PhpStrings
  import opened People

  /** An XML element: its name, its text content as `text()` returns it, its attributes and its element children. */
  datatype Element = Element(name: string, text: string, attrs: map<string, string>, children: seq<Element>)

  /** The three sections of `description` the collector reads. */
  datatype Section = TitleInfo | SrcTitleInfo | PublishInfo

  /** The single-valued entries of the map, one per section and element name. */
  datatype FieldKey =
    | Lang | SrcLang | Date | BookTitle                   // title-info
    | SrcDate | SrcBookTitle                              // src-title-info
    | BookName | Publisher | City | Year | Isbn | Series  // publish-info

  /**
   * `$collectedData`. Only non-empty values are ever stored under a scalar
   * key and every reader tests the entry with `empty()`, so an unset key
   * and "" read the same; an unset list reads as the empty list.
   */
  datatype RawFieldMap = RawFieldMap(
    scalars: map<FieldKey, string>,
    authors: seq<Person>,      // title-info
    translators: seq<Person>,  // title-info
    genres: seq<string>,       // title-info
    srcAuthors: seq<Person>)   // src-title-info

  const NoFields := RawFieldMap(map[], [], [], [], [])

  /** The entry under a scalar key, "" when unset. */
  function Get(raw: RawFieldMap, k: FieldKey): string {
    if k in raw.scalars then raw.scalars[k] else ""
  }

  function SectionOf(name: string): Option<Section> {
    if name == "title-info" then Some(TitleInfo)
    else if name == "src-title-info" then Some(SrcTitleInfo)
    else if name == "publish-info" then Some(PublishInfo)
    else None
  }

  /** The scalar key a child of a section fills from its text, if any. */
  function ScalarKey(sec: Section, name: string): Option<FieldKey> {
    match sec
    case TitleInfo =>
      if name == "lang" then Some(Lang)
      else if name == "src-lang" then Some(SrcLang)
      else if name == "date" then Some(Date)
      else if name == "book-title" then Some(BookTitle)
      else None
    case SrcTitleInfo =>
      if name == "date" then Some(SrcDate)
      else if name == "book-title" then Some(SrcBookTitle)
      else None
    case PublishInfo =>
      if name == "book-name" then Some(BookName)
      else if name == "publisher" then Some(Publisher)
      else if name == "city" then Some(City)
      else if name == "year" then Some(Year)
      else if name == "isbn" then Some(Isbn)
      else None
  }

  /**
   * The entry a child of a section stores: its text under its key when the
   * text is not empty; for a publish-info `sequence`, its `name` attribute
   * under Series when that is not empty.
   */
  function ChunkValue(sec: Section, chunk: Element): (r: Option<(FieldKey, string)>)
    ensures r.Some? ==> !Empty(r.value.1)
  {
    if sec == PublishInfo && chunk.name == "sequence" then
      if "name" in chunk.attrs && !Empty(chunk.attrs["name"]) then Some((Series, chunk.attrs["name"])) else None
    else
      match ScalarKey(sec, chunk.name)
      case Some(k) => if !Empty(chunk.text) then Some((k, chunk.text)) else None
      case None => None
  }

  /** The child stores an entry under `k`. */
  predicate Gives(sec: Section, chunk: Element, k: FieldKey) {
    var v := ChunkValue(sec, chunk);
    v.Some? && v.value.0 == k
  }

  /** One child of a section, apart from the person lists: a scalar entry, or a title-info genre appended. */
  function ChunkStep(sec: Section, raw: RawFieldMap, chunk: Element): RawFieldMap {
    if sec == TitleInfo && chunk.name == "genre" then
      if !Empty(chunk.text) then raw.(genres := raw.genres + [chunk.text]) else raw
    else
      match ChunkValue(sec, chunk)
      case Some(kv) => raw.(scalars := raw.scalars[kv.0 := kv.1])
      case None => raw
  }

  /** The children of one section, in document order. */
  function FoldChunks(sec: Section, raw: RawFieldMap, chunks: seq<Element>): RawFieldMap
    decreases |chunks|
  {
    if chunks == [] then raw
    else ChunkStep(sec, FoldChunks(sec, raw, chunks[..|chunks| - 1]), chunks[|chunks| - 1])
  }

  /** One child of an `author` or `translator` element; an empty text changes nothing. */
  function PersonStep(p: Person, node: Element): Person {
    if Empty(node.text) then p
    else if node.name == "first-name" then p.(firstName := Some(node.text))
    else if node.name == "last-name" then p.(lastName := Some(node.text))
    else if node.name == "middle-name" then p.(middleName := Some(node.text))
    else p
  }

  /** `collectPersonData`: the person the children of a person element describe. */
  function PersonOf(nodes: seq<Element>): Person
    decreases |nodes|
  {
    if nodes == [] then NoName
    else PersonStep(PersonOf(nodes[..|nodes| - 1]), nodes[|nodes| - 1])
  }

  /** One person per child called `key`, in document order. */
  function PersonsNamed(chunks: seq<Element>, key: string): seq<Person>
    decreases |chunks|
  {
    if chunks == [] then []
    else
      var last := chunks[|chunks| - 1];
      PersonsNamed(chunks[..|chunks| - 1], key) + (if last.name == key then [PersonOf(last.children)] else [])
  }

  /** One section; its person lists replace those of any earlier section of the same kind. */
  function SectionStep(raw: RawFieldMap, node: Element): RawFieldMap {
    match SectionOf(node.name)
    case Some(TitleInfo) =>
      FoldChunks(TitleInfo, raw, node.children).(
        authors := PersonsNamed(node.children, "author"),
        translators := PersonsNamed(node.children, "translator"))
    case Some(SrcTitleInfo) =>
      FoldChunks(SrcTitleInfo, raw, node.children).(srcAuthors := PersonsNamed(node.children, "author"))
    case Some(PublishInfo) =>
      FoldChunks(PublishInfo, raw, node.children)
    case None => raw
  }

  function FoldSections(raw: RawFieldMap, nodes: seq<Element>): RawFieldMap
    decreases |nodes|
  {
    if nodes == [] then raw
    else SectionStep(FoldSections(raw, nodes[..|nodes| - 1]), nodes[|nodes| - 1])
  }

  /** A child of the root: only `description` elements are read. */
  function DescriptionStep(raw: RawFieldMap, node: Element): RawFieldMap {
    if node.name == "description" then FoldSections(raw, node.children) else raw
  }

  function FoldDocument(raw: RawFieldMap, nodes: seq<Element>): RawFieldMap
    decreases |nodes|
  {
    if nodes == [] then raw
    else DescriptionStep(FoldDocument(raw, nodes[..|nodes| - 1]), nodes[|nodes| - 1])
  }

  /** `collectData` over the document's root element, from an empty map. */
  function CollectDocument(root: Element): RawFieldMap {
    FoldDocument(NoFields, root.children)
  }

  // ---------------------------------------------------------------------
  // What the collector promises

  /** Within a section, a repeated key keeps the value of its last child that stores one. */
  lemma {:induction false} LastGivenValueWins(sec: Section, raw: RawFieldMap, chunks: seq<Element>, k: FieldKey, i: int)
    requires 0 <= i < |chunks| && Gives(sec, chunks[i], k)
    requires forall j :: i < j < |chunks| ==> !Gives(sec, chunks[j], k)
    ensures Get(FoldChunks(sec, raw, chunks), k) == ChunkValue(sec, chunks[i]).value.1
    decreases |chunks|
  {
    var init := chunks[..|chunks| - 1];
    var last := chunks[|chunks| - 1];
    StepGet(sec, FoldChunks(sec, raw, init), last, k);
    if i < |chunks| - 1 {
      LastGivenValueWins(sec, raw, init, k, i);
    }
  }

  /** After one child, a key holds the child's value when the child stores one under it, and its earlier value otherwise. */
  lemma StepGet(sec: Section, raw: RawFieldMap, chunk: Element, k: FieldKey)
    ensures Get(ChunkStep(sec, raw, chunk), k) == if Gives(sec, chunk, k) then ChunkValue(sec, chunk).value.1 else Get(raw, k)
  {
  }

  /** A key no child stores keeps its earlier value. */
  lemma {:induction false} UngivenKeyKept(sec: Section, raw: RawFieldMap, chunks: seq<Element>, k: FieldKey)
    requires forall j :: 0 <= j < |chunks| ==> !Gives(sec, chunks[j], k)
    ensures Get(FoldChunks(sec, raw, chunks), k) == Get(raw, k)
    decreases |chunks|
  {
    if chunks != [] {
      UngivenKeyKept(sec, raw, chunks[..|chunks| - 1], k);
      StepGet(sec, FoldChunks(sec, raw, chunks[..|chunks| - 1]), chunks[|chunks| - 1], k);
    }
  }

  /** The non-empty genre texts, in document order. */
  function GenreTexts(chunks: seq<Element>): seq<string>
    decreases |chunks|
  {
    if chunks == [] then []
    else
      var last := chunks[|chunks| - 1];
      GenreTexts(chunks[..|chunks| - 1]) + (if last.name == "genre" && !Empty(last.text) then [last.text] else [])
  }

  /**
   * Genres are appended in document order, across title-info sections too;
   * the other sections leave the list alone, and no section touches the
   * person lists.
   */
  lemma {:induction false} GenresKeepDocumentOrder(sec: Section, raw: RawFieldMap, chunks: seq<Element>)
    ensures FoldChunks(sec, raw, chunks).genres ==
            (if sec == TitleInfo then raw.genres + GenreTexts(chunks) else raw.genres)
    ensures FoldChunks(sec, raw, chunks).authors == raw.authors
    ensures FoldChunks(sec, raw, chunks).translators == raw.translators
    ensures FoldChunks(sec, raw, chunks).srcAuthors == raw.srcAuthors
    decreases |chunks|
  {
    if chunks != [] {
      GenresKeepDocumentOrder(sec, raw, chunks[..|chunks| - 1]);
    }
  }

  /** Person lists preserve document order: the list of a concatenation is the concatenation of the lists. */
  lemma {:induction false} PersonsNamedAppend(a: seq<Element>, b: seq<Element>, key: string)
    ensures PersonsNamed(a + b, key) == PersonsNamed(a, key) + PersonsNamed(b, key)
    decreases |b|
  {
    if b == [] {
      assert a + b == a;
    } else {
      var ab := a + b;
      assert ab[..|ab| - 1] == a + b[..|b| - 1];
      assert ab[|ab| - 1] == b[|b| - 1];
      PersonsNamedAppend(a, b[..|b| - 1], key);
    }
  }

  /** The name part an element called `name` sets. */
  function PartOf(p: Person, name: string): Option<string> {
    if name == "first-name" then p.firstName
    else if name == "last-name" then p.lastName
    else p.middleName
  }

  /** A repeated name part keeps the text of its last non-empty element. */
  lemma {:induction false} LastNamePartWins(nodes: seq<Element>, name: string, i: int)
    requires name == "first-name" || name == "last-name" || name == "middle-name"
    requires 0 <= i < |nodes| && nodes[i].name == name && !Empty(nodes[i].text)
    requires forall j :: i < j < |nodes| ==> nodes[j].name != name || Empty(nodes[j].text)
    ensures PartOf(PersonOf(nodes), name) == Some(nodes[i].text)
    decreases |nodes|
  {
    if i < |nodes| - 1 {
      LastNamePartWins(nodes[..|nodes| - 1], name, i);
      assert nodes[|nodes| - 1].name != name || Empty(nodes[|nodes| - 1].text);
    }
  }

  /** A name part no element sets stays null. */
  lemma {:induction false} UnsetNamePartNull(nodes: seq<Element>, name: string)
    requires name == "first-name" || name == "last-name" || name == "middle-name"
    requires forall j :: 0 <= j < |nodes| ==> nodes[j].name != name || Empty(nodes[j].text)
    ensures PartOf(PersonOf(nodes), name) == None
    decreases |nodes|
  {
    if nodes != [] {
      UnsetNamePartNull(nodes[..|nodes| - 1], name);
      assert nodes[|nodes| - 1].name != name || Empty(nodes[|nodes| - 1].text);
    }
  }
}
