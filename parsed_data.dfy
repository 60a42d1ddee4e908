/** The metadata record the parser fills and the file-name builder reads. */
module Metadata {
  import opened Wrappers
  import opened People

  /**
   * The value of a `ParsedData` object. A field the PHP object never
   * assigned is null (None); `edition` and `language` stay null until
   * the parser sets them.
   */
  datatype MetadataRecord = MetadataRecord(
    title: Option<string>,
    subtitle: Option<string>,
    authors: Option<seq<Person>>,
    translators: Option<seq<Person>>,
    originAuthors: Option<seq<Person>>,
    originTitle: Option<string>,
    originSubtitle: Option<string>,
    originIssueDate: Option<string>,
    originLanguage: Option<string>,
    publisherName: Option<string>,
    issueDate: Option<int>,
    edition: Option<int>,
    language: Option<string>,
    city: Option<string>,
    isbn: Option<string>,
    isFiction: bool,
    isPoetry: bool,
    isCompilation: bool,
    totalParts: int,
    genres: seq<string>,
    series: Option<string>)

  /** What the constructor leaves: three flags false, one part, no genres, everything else null. */
  const NewRecord := MetadataRecord(
    None, None, None, None, None, None, None, None, None, None, None, None, None, None, None,
    false, false, false, 1, [], None)

  /** `ParsedData`: private fields updated by fluent setters. */
  class ParsedData {
    var title: Option<string>
    var subtitle: Option<string>
    var authors: Option<seq<Person>>
    var translators: Option<seq<Person>>
    var originAuthors: Option<seq<Person>>
    var originTitle: Option<string>
    var originSubtitle: Option<string>
    var originIssueDate: Option<string>
    var originLanguage: Option<string>
    var publisherName: Option<string>
    var issueDate: Option<int>
    var edition: Option<int>
    var language: Option<string>
    var city: Option<string>
    var isbn: Option<string>
    var isFiction: bool
    var isPoetry: bool
    var isCompilation: bool
    var totalParts: int
    var genres: seq<string>
    var series: Option<string>

    /** The constructor sets the flags, the part count and the genre list; the author lists stay null. */
    constructor ()
      ensures Value() == NewRecord
    {
      isFiction, isPoetry, isCompilation := false, false, false;
      totalParts := 1;
      genres := [];
      title, subtitle, authors, translators, originAuthors := None, None, None, None, None;
      originTitle, originSubtitle, originIssueDate, originLanguage := None, None, None, None;
      publisherName, issueDate, edition, language, city, isbn, series := None, None, None, None, None, None, None;
    }

    /** The record the object currently holds. */
    function Value(): MetadataRecord
      reads this
    {
      MetadataRecord(
        title, subtitle, authors, translators, originAuthors, originTitle, originSubtitle, originIssueDate, originLanguage, publisherName, issueDate, edition, language, city, isbn, isFiction, isPoetry, isCompilation, totalParts, genres, series)
    }

    // Getters whose PHP return type is not nullable: a null field raises a TypeError.

    function GetTitle(): (r: Result<string, BookError>)
      reads this
      ensures r.Success? <==> title.Some?
      ensures r.Success? ==> r.value == title.value
    {
      if title.Some? then Success(title.value) else Failure(NullReturned("getTitle"))
    }

    /** `getAuthors(): array` fails until the first `setAuthor`, since the constructor leaves the list null. */
    function GetAuthors(): (r: Result<seq<Person>, BookError>)
      reads this
      ensures r.Success? <==> authors.Some?
      ensures r.Success? ==> r.value == authors.value
    {
      if authors.Some? then Success(authors.value) else Failure(NullReturned("getAuthors"))
    }

    function GetEdition(): (r: Result<int, BookError>)
      reads this
      ensures r.Success? <==> edition.Some?
      ensures r.Success? ==> r.value == edition.value
    {
      if edition.Some? then Success(edition.value) else Failure(NullReturned("getEdition"))
    }

    function GetLanguage(): (r: Result<string, BookError>)
      reads this
      ensures r.Success? <==> language.Some?
      ensures r.Success? ==> r.value == language.value
    {
      if language.Some? then Success(language.value) else Failure(NullReturned("getLanguage"))
    }

    // List setters: append at the end.

    method SetAuthor(author: Person) returns (self: ParsedData)
      modifies this
      ensures self == this
      ensures Value() == old(Value()).(authors := Some(old(authors).GetOr([]) + [author]))
    {
      authors := Some(authors.GetOr([]) + [author]);
      self := this;
    }

    /** A null translator is ignored. */
    method SetTranslator(translator: Option<Person>) returns (self: ParsedData)
      modifies this
      ensures self == this
      ensures translator.None? ==> Value() == old(Value())
      ensures translator.Some? ==>
        Value() == old(Value()).(translators := Some(old(translators).GetOr([]) + [translator.value]))
    {
      if translator.Some? {
        translators := Some(translators.GetOr([]) + [translator.value]);
      }
      self := this;
    }

    /** A null author is ignored. */
    method SetOriginAuthor(author: Option<Person>) returns (self: ParsedData)
      modifies this
      ensures self == this
      ensures author.None? ==> Value() == old(Value())
      ensures author.Some? ==>
        Value() == old(Value()).(originAuthors := Some(old(originAuthors).GetOr([]) + [author.value]))
    {
      if author.Some? {
        originAuthors := Some(originAuthors.GetOr([]) + [author.value]);
      }
      self := this;
    }

    method SetGenre(genre: string) returns (self: ParsedData)
      modifies this
      ensures self == this
      ensures Value() == old(Value()).(genres := old(genres) + [genre])
    {
      genres := genres + [genre];
      self := this;
    }

    // Scalar setters: each changes its own field only.

    method SetTitle(t: string) returns (self: ParsedData)
      modifies this
      ensures self == this
      ensures Value() == old(Value()).(title := Some(t))
    {
      title := Some(t);
      self := this;
    }

    method SetSubtitle(t: Option<string>) returns (self: ParsedData)
      modifies this
      ensures self == this
      ensures Value() == old(Value()).(subtitle := t)
    {
      subtitle := t;
      self := this;
    }

    method SetPublisherName(name: Option<string>) returns (self: ParsedData)
      modifies this
      ensures self == this
      ensures Value() == old(Value()).(publisherName := name)
    {
      publisherName := name;
      self := this;
    }

    method SetIssueDate(year: Option<int>) returns (self: ParsedData)
      modifies this
      ensures self == this
      ensures Value() == old(Value()).(issueDate := year)
    {
      issueDate := year;
      self := this;
    }

    method SetEdition(n: int) returns (self: ParsedData)
      modifies this
      ensures self == this
      ensures Value() == old(Value()).(edition := Some(n))
    {
      edition := Some(n);
      self := this;
    }

    method SetLanguage(lang: string) returns (self: ParsedData)
      modifies this
      ensures self == this
      ensures Value() == old(Value()).(language := Some(lang))
    {
      language := Some(lang);
      self := this;
    }

    method SetCity(c: Option<string>) returns (self: ParsedData)
      modifies this
      ensures self == this
      ensures Value() == old(Value()).(city := c)
    {
      city := c;
      self := this;
    }

    method SetIsbn(code: Option<string>) returns (self: ParsedData)
      modifies this
      ensures self == this
      ensures Value() == old(Value()).(isbn := code)
    {
      isbn := code;
      self := this;
    }

    method SetOriginTitle(t: Option<string>) returns (self: ParsedData)
      modifies this
      ensures self == this
      ensures Value() == old(Value()).(originTitle := t)
    {
      originTitle := t;
      self := this;
    }

    method SetOriginSubtitle(t: Option<string>) returns (self: ParsedData)
      modifies this
      ensures self == this
      ensures Value() == old(Value()).(originSubtitle := t)
    {
      originSubtitle := t;
      self := this;
    }

    method SetOriginIssueDate(date: Option<string>) returns (self: ParsedData)
      modifies this
      ensures self == this
      ensures Value() == old(Value()).(originIssueDate := date)
    {
      originIssueDate := date;
      self := this;
    }

    method SetOriginLanguage(lang: Option<string>) returns (self: ParsedData)
      modifies this
      ensures self == this
      ensures Value() == old(Value()).(originLanguage := lang)
    {
      originLanguage := lang;
      self := this;
    }

    method SetIsFiction(b: bool) returns (self: ParsedData)
      modifies this
      ensures self == this
      ensures Value() == old(Value()).(isFiction := b)
    {
      isFiction := b;
      self := this;
    }

    method SetIsCompilation(b: bool) returns (self: ParsedData)
      modifies this
      ensures self == this
      ensures Value() == old(Value()).(isCompilation := b)
    {
      isCompilation := b;
      self := this;
    }

    method SetTotalParts(n: int) returns (self: ParsedData)
      modifies this
      ensures self == this
      ensures Value() == old(Value()).(totalParts := n)
    {
      totalParts := n;
      self := this;
    }

    method SetIsPoetry(b: bool) returns (self: ParsedData)
      modifies this
      ensures self == this
      ensures Value() == old(Value()).(isPoetry := b)
    {
      isPoetry := b;
      self := this;
    }

    method SetSeries(name: Option<string>) returns (self: ParsedData)
      modifies this
      ensures self == this
      ensures Value() == old(Value()).(series := name)
    {
      series := name;
      self := this;
    }
  }
}
