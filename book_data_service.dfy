/**
 * `BookDataService`: runs the configured parser and builds the file name a
 * book is renamed to from its metadata record. The functions state what the
 * name is; the service's methods build it step by step.
 */
module BookData {
  import opened Wrappers
  import opened PhpStrings
  import opened People
  import opened Metadata
  import opened BookLangUtils
  import opened Collector
  import opened FictionBook

  // ---------------------------------------------------------------------
  // sanitizeString

  /** Chunks removed from titles, in the order they are removed. */
  const RestrictedChunks: seq<string> := ["[litres]", "«", "»", "\"", "…", "#", "“", "”"]

  /** Unsafe characters and their replacements, in the order they are replaced. */
  const Replacers: seq<(string, string)> :=
    [("[", "("), ("]", ")"), ("—", "-"), ("−", "-"), ("–", "-"), ("?", ".")]

  /** Above this combined title and subtitle length the subtitle is left out of the name. */
  const TitleLenLimit := 180

  /** The characters a sanitized title never holds. */
  const ForbiddenChars: set<char> := {'«', '»', '"', '…', '#', '“', '”', '[', ']', '—', '−', '–', '?'}

  /** Each chunk paired with the empty replacement: removal as replacement. */
  function Erasures(chunks: seq<string>): (r: seq<(string, string)>)
    ensures |r| == |chunks|
    ensures forall i :: 0 <= i < |r| ==> r[i] == (chunks[i], "")
  {
    seq(|chunks|, i requires 0 <= i < |chunks| => (chunks[i], ""))
  }

  /** `str_replace` with each pair in turn. */
  function ReplaceAll(s: string, pairs: seq<(string, string)>): string
    decreases |pairs|
  {
    if pairs == [] then s
    else
      var last := pairs[|pairs| - 1];
      StrReplace(ReplaceAll(s, pairs[..|pairs| - 1]), last.0, last.1)
  }

  /** `sanitizeString`: the restricted chunks removed, the unsafe characters replaced, then white space and points trimmed. */
  function SanitizeSpec(s: string): string {
    Trim(Trim(Replaced(s), TrimChars), {'.'})
  }

  /** A character absent from the input and from every replacement stays absent. */
  lemma {:induction false} ReplaceAllKeepsOut(s: string, pairs: seq<(string, string)>, c: char)
    requires c !in s
    requires forall k :: 0 <= k < |pairs| ==> c !in pairs[k].1
    ensures c !in ReplaceAll(s, pairs)
    decreases |pairs|
  {
    if pairs != [] {
      var init := pairs[..|pairs| - 1];
      ReplaceAllKeepsOut(s, init, c);
      assert c !in pairs[|pairs| - 1].1;
    }
  }

  /** A character replaced by some pair, and brought back by none from there on, is absent from the result. */
  lemma {:induction false} ReplaceAllRemoves(s: string, pairs: seq<(string, string)>, k: int, c: char)
    requires 0 <= k < |pairs| && pairs[k].0 == [c]
    requires forall j :: k <= j < |pairs| ==> c !in pairs[j].1
    ensures c !in ReplaceAll(s, pairs)
    decreases |pairs|
  {
    var init := pairs[..|pairs| - 1];
    var last := pairs[|pairs| - 1];
    if k < |pairs| - 1 {
      ReplaceAllRemoves(s, init, k, c);
    }
    assert c !in last.1;
  }

  /** Once removed, a character not among the replacements stays out through the second table. */
  lemma ErasedStaysOut(s: string, k: int, c: char)
    requires 0 <= k < |RestrictedChunks| && RestrictedChunks[k] == [c] && c !in "().-"
    ensures c !in Replaced(s)
  {
    var erasures := Erasures(RestrictedChunks);
    ReplaceAllRemoves(s, erasures, k, c);
    forall j | 0 <= j < |Replacers| ensures c !in Replacers[j].1 {
      assert Replacers[j].1 in {"(", ")", "-", "."};
    }
    ReplaceAllKeepsOut(ReplaceAll(s, erasures), Replacers, c);
  }

  /** What the two tables leave, before the trims. */
  function Replaced(s: string): string {
    ReplaceAll(ReplaceAll(s, Erasures(RestrictedChunks)), Replacers)
  }

  /** The removed single characters are gone after both tables. */
  lemma ErasedCharsAbsent(s: string, c: char)
    requires c in {'«', '»', '"', '…', '#', '“', '”'}
    ensures c !in Replaced(s)
  {
    if c == '«' { ErasedStaysOut(s, 1, c); }
    else if c == '»' { ErasedStaysOut(s, 2, c); }
    else if c == '"' { ErasedStaysOut(s, 3, c); }
    else if c == '…' { ErasedStaysOut(s, 4, c); }
    else if c == '#' { ErasedStaysOut(s, 5, c); }
    else if c == '“' { ErasedStaysOut(s, 6, c); }
    else { ErasedStaysOut(s, 7, c); }
  }

  /** The replaced characters are gone after the second table. */
  lemma ReplacedCharsAbsent(s: string, c: char)
    requires c in {'[', ']', '—', '−', '–', '?'}
    ensures c !in Replaced(s)
  {
    var erased := ReplaceAll(s, Erasures(RestrictedChunks));
    if c == '[' { ReplaceAllRemoves(erased, Replacers, 0, c); }
    else if c == ']' { ReplaceAllRemoves(erased, Replacers, 1, c); }
    else if c == '—' { ReplaceAllRemoves(erased, Replacers, 2, c); }
    else if c == '−' { ReplaceAllRemoves(erased, Replacers, 3, c); }
    else if c == '–' { ReplaceAllRemoves(erased, Replacers, 4, c); }
    else { ReplaceAllRemoves(erased, Replacers, 5, c); }
  }

  /** No forbidden character survives, the trims bringing none back. */
  lemma NoForbiddenChar(s: string, c: char)
    requires c in ForbiddenChars
    ensures c !in SanitizeSpec(s)
  {
    if c in {'«', '»', '"', '…', '#', '“', '”'} {
      ErasedCharsAbsent(s, c);
    } else {
      ReplacedCharsAbsent(s, c);
    }
    var trimmed := Trim(Replaced(s), TrimChars);
    TrimFacts(Replaced(s), TrimChars);
    TrimFacts(trimmed, {'.'});
  }

  /**
   * A sanitized string holds none of the restricted or unsafe characters,
   * hence no "[litres]", and neither starts nor ends with a point.
   */
  lemma SanitizedIsSafe(s: string)
    ensures forall c :: c in ForbiddenChars ==> c !in SanitizeSpec(s)
    ensures !Contains(SanitizeSpec(s), "[litres]")
    ensures var r := SanitizeSpec(s); r == [] || (r[0] != '.' && r[|r| - 1] != '.')
  {
    forall c | c in ForbiddenChars ensures c !in SanitizeSpec(s) {
      NoForbiddenChar(s, c);
    }
    TrimFacts(Trim(Replaced(s), TrimChars), {'.'});
    FirstCharAbsent(SanitizeSpec(s), "[litres]");
  }

  // ---------------------------------------------------------------------
  // getProperFileName

  predicate StartsWith(s: string, t: string) {
    |t| <= |s| && s[..|t|] == t
  }

  predicate EndsWith(s: string, t: string) {
    |t| <= |s| && s[|s| - |t|..] == t
  }

  /** The language tag and its space, for any language but "ru"; a code the map lacks leaves only the space. */
  function LangPrefix(lang: string): string {
    if lang == LangRu then "" else (if lang in LangMap then LangMap[lang] else "") + " "
  }

  /** The prefixes of the known codes: "ru" has none, "ru-ru" a lone space, codes without a tag a lone space. */
  lemma KnownLanguagePrefixes()
    ensures LangPrefix(LangRu) == "" && LangPrefix("ru-ru") == " "
    ensures LangPrefix(LangEn) == "[EN] " && LangPrefix(LangFr) == "[FR] " && LangPrefix(LangUk) == "[UK] "
    ensures LangPrefix(LangDe) == "[DE] " && LangPrefix(LangPl) == "[PL] "
    ensures LangPrefix(LangFi) == " " && LangPrefix(LangHy) == " " && LangPrefix(LangZh) == " "
  {
    LangMapContents();
  }

  /** One author: the last name with `ucfirst`, then " F." for a first name and "M." for a middle name, each part only when not empty. */
  function RenderAuthor(cs: Casing, p: Person): (r: string)
    ensures r == "" <==> EmptyOpt(p.lastName) && EmptyOpt(p.firstName) && EmptyOpt(p.middleName)
  {
    (if EmptyOpt(p.lastName) then "" else Ucfirst(p.lastName.value)) +
    (if EmptyOpt(p.firstName) then "" else " " + UpperInitial(cs, p.firstName.value) + ".") +
    (if EmptyOpt(p.middleName) then "" else UpperInitial(cs, p.middleName.value) + ".")
  }

  /** What the loop appends after author `i` of `n`: a comma and a space before the next one. */
  function Separator(n: nat, i: nat): string {
    if n >= 2 && i < n - 1 then ", " else ""
  }

  /** The text the author loop has built after rendering the first `upto` authors. */
  function AuthorsPrefix(cs: Casing, authors: seq<Person>, upto: nat): string
    requires upto <= |authors|
    decreases upto
  {
    if upto == 0 then ""
    else AuthorsPrefix(cs, authors, upto - 1) + RenderAuthor(cs, authors[upto - 1]) + Separator(|authors|, upto - 1)
  }

  /** The author text: all authors when at most two; otherwise the first two, the trailing comma dropped, and " и др.". */
  function AuthorText(cs: Casing, authors: seq<Person>): string {
    if |authors| > 2 then TrimRight(TrimRight(AuthorsPrefix(cs, authors, 2), TrimChars), {','}) + " и др."
    else AuthorsPrefix(cs, authors, |authors|)
  }

  /** One author is rendered alone, two are joined by a comma. */
  lemma FewAuthors(cs: Casing, authors: seq<Person>)
    requires 1 <= |authors| <= 2
    ensures |authors| == 1 ==> AuthorText(cs, authors) == RenderAuthor(cs, authors[0])
    ensures |authors| == 2 ==> AuthorText(cs, authors) == RenderAuthor(cs, authors[0]) + ", " + RenderAuthor(cs, authors[1])
  {
    assert AuthorsPrefix(cs, authors, 1) == RenderAuthor(cs, authors[0]) + Separator(|authors|, 0);
  }

  /**
   * With three authors or more, the first two are joined by a comma and
   * followed by " и др." — provided the second renders to a text that does
   * not end in white space or a comma.
   */
  lemma {:induction false} ManyAuthors(cs: Casing, authors: seq<Person>)
    requires |authors| > 2
    requires var second := RenderAuthor(cs, authors[1]);
             second != "" && second[|second| - 1] !in TrimChars && second[|second| - 1] != ','
    ensures AuthorText(cs, authors) == RenderAuthor(cs, authors[0]) + ", " + RenderAuthor(cs, authors[1]) + " и др."
  {
    var kept := RenderAuthor(cs, authors[0]) + ", " + RenderAuthor(cs, authors[1]);
    assert AuthorsPrefix(cs, authors, 1) == RenderAuthor(cs, authors[0]) + ", ";
    assert AuthorsPrefix(cs, authors, 2) == AuthorsPrefix(cs, authors, 1) + RenderAuthor(cs, authors[1]) + ", ";
    assert AuthorsPrefix(cs, authors, 2) == (kept + ",") + " ";
    TrimRightDropsTail(kept + ",", " ", TrimChars);
    TrimRightDropsTail(kept, ",", {','});
  }

  /** Only the first two authors and whether there are more matter. */
  lemma OnlyTwoAuthorsShown(cs: Casing, a: seq<Person>, b: seq<Person>)
    requires |a| > 2 && |b| > 2 && a[0] == b[0] && a[1] == b[1]
    ensures AuthorText(cs, a) == AuthorText(cs, b)
  {
    assert AuthorsPrefix(cs, a, 1) == AuthorsPrefix(cs, b, 1);
    assert AuthorsPrefix(cs, a, 2) == AuthorsPrefix(cs, b, 2);
  }

  /** The sanitized title, followed by ". " and the sanitized subtitle when there is one and the raw lengths stay under the limit. */
  function TitleBlock(title: string, subtitle: Option<string>): (r: string)
    ensures StartsWith(r, SanitizeSpec(title))
    ensures |r| > |SanitizeSpec(title)| <==> !EmptyOpt(subtitle) && |title| + |subtitle.value| < TitleLenLimit
  {
    SanitizeSpec(title) +
    (if !EmptyOpt(subtitle) && |title| + |subtitle.value| < TitleLenLimit then ". " + SanitizeSpec(subtitle.value) else "")
  }

  /** " (N ed.)", or " (N-е изд.)" for Russian, for any edition but the first. */
  function EditionSuffix(lang: string, edition: int): (r: string)
    ensures r == "" <==> edition == 1
  {
    if edition == 1 then ""
    else if lang != LangRu then " (" + IntToDecimal(edition) + " ed.)"
    else " (" + IntToDecimal(edition) + "-е изд.)"
  }

  /** " [Y]" for a non-zero issue year. */
  function YearSuffix(issueDate: Option<int>): (r: string)
    ensures r == "" <==> issueDate.None? || issueDate.value == 0
  {
    if issueDate.None? || issueDate.value == 0 then "" else " [" + IntToDecimal(issueDate.value) + "]"
  }

  /** The authors and a dash before the title block, or the title block alone when the author text is empty. */
  function NameBody(author: string, titleBlock: string): string {
    if Empty(author) then titleBlock else author + " - " + titleBlock
  }

  /**
   * The name of a record whose language, authors, title and edition are
   * set: the language prefix, the body, the edition and year suffixes, a
   * point and the extension.
   */
  function NameOf(cs: Casing, rec: MetadataRecord, extension: string): string
    requires rec.language.Some? && rec.authors.Some? && rec.title.Some? && rec.edition.Some?
  {
    LangPrefix(rec.language.value) +
    NameBody(AuthorText(cs, rec.authors.value), TitleBlock(rec.title.value, rec.subtitle)) +
    (EditionSuffix(rec.language.value, rec.edition.value) + YearSuffix(rec.issueDate) + ("." + extension))
  }

  /**
   * `getProperFileName`. Fails as the first getter with a non-nullable
   * type that meets a null field does: language, authors, title, edition.
   */
  function FileNameSpec(cs: Casing, rec: MetadataRecord, extension: string): (r: Result<string, BookError>)
    ensures r.Failure? <==> rec.language.None? || rec.authors.None? || rec.title.None? || rec.edition.None?
    ensures rec.language.None? ==> r == Failure(NullReturned("getLanguage"))
    ensures rec.language.Some? && rec.authors.None? ==> r == Failure(NullReturned("getAuthors"))
    ensures rec.language.Some? && rec.authors.Some? && rec.title.None? ==> r == Failure(NullReturned("getTitle"))
    ensures rec.language.Some? && rec.authors.Some? && rec.title.Some? && rec.edition.None? ==>
              r == Failure(NullReturned("getEdition"))
  {
    if rec.language.None? then Failure(NullReturned("getLanguage"))
    else if rec.authors.None? then Failure(NullReturned("getAuthors"))
    else if rec.title.None? then Failure(NullReturned("getTitle"))
    else if rec.edition.None? then Failure(NullReturned("getEdition"))
    else Success(NameOf(cs, rec, extension))
  }

  /** A concatenation starts with its first part and ends with its last. */
  lemma Ends(a: string, b: string, c: string)
    ensures StartsWith(a + b + c, a) && EndsWith(a + b + c, c)
    ensures EndsWith(a + b + c, b + c)
    ensures b == [] ==> a + b + c == a + c
  {
    assert (a + b + c)[..|a|] == a;
    assert (a + b + c)[|a + b|..] == c;
    assert (a + b + c)[|a|..] == b + c;
  }

  lemma EndsWithTrans(s: string, t: string, u: string)
    requires EndsWith(s, t) && EndsWith(t, u)
    ensures EndsWith(s, u)
  {
    assert s[|s| - |u|..] == s[|s| - |t|..][|t| - |u|..];
  }

  /**
   * A name starts with the language prefix and ends with a point and the
   * extension, preceded by " [Y]" when the issue year Y is not zero, and
   * otherwise by the edition suffix.
   */
  lemma NameShape(cs: Casing, rec: MetadataRecord, extension: string)
    requires rec.language.Some? && rec.authors.Some? && rec.title.Some? && rec.edition.Some?
    ensures var name := NameOf(cs, rec, extension);
            StartsWith(name, LangPrefix(rec.language.value)) && EndsWith(name, "." + extension)
    ensures rec.issueDate.Some? && rec.issueDate.value != 0 ==>
              EndsWith(NameOf(cs, rec, extension), " [" + IntToDecimal(rec.issueDate.value) + "]" + ("." + extension))
    ensures rec.issueDate.None? || rec.issueDate.value == 0 ==>
              EndsWith(NameOf(cs, rec, extension), EditionSuffix(rec.language.value, rec.edition.value) + ("." + extension))
  {
    var prefix := LangPrefix(rec.language.value);
    var body := NameBody(AuthorText(cs, rec.authors.value), TitleBlock(rec.title.value, rec.subtitle));
    var edition := EditionSuffix(rec.language.value, rec.edition.value);
    var year := YearSuffix(rec.issueDate);
    var ext := "." + extension;
    var tail := edition + year + ext;
    Ends(prefix, body, tail);
    Ends(edition, year, ext);
    EndsWithTrans(NameOf(cs, rec, extension), tail, ext);
    EndsWithTrans(NameOf(cs, rec, extension), tail, year + ext);
    if year == [] {
      assert tail == edition + ext;
    }
  }

  /**
   * After the language prefix comes the author text, " - " and the title
   * block when the author text is not empty, and the title block alone
   * otherwise.
   */
  lemma AuthorsBeforeTitle(cs: Casing, rec: MetadataRecord, extension: string)
    requires rec.language.Some? && rec.authors.Some? && rec.title.Some? && rec.edition.Some?
    ensures var author := AuthorText(cs, rec.authors.value);
            var title := TitleBlock(rec.title.value, rec.subtitle);
            StartsWith(NameOf(cs, rec, extension),
                       LangPrefix(rec.language.value) + (if Empty(author) then title else author + " - " + title))
  {
    var prefix := LangPrefix(rec.language.value);
    var body := NameBody(AuthorText(cs, rec.authors.value), TitleBlock(rec.title.value, rec.subtitle));
    var tail := EditionSuffix(rec.language.value, rec.edition.value) + YearSuffix(rec.issueDate) + ("." + extension);
    Ends(prefix + body, [], tail);
    assert prefix + body + [] == prefix + body;
  }

  /** Every record the parser builds gets a name: the getters the name needs never fail on it. */
  lemma ParsedBookGetsName(cs: Casing, raw: RawFieldMap, parseYear: string -> Option<int>, extension: string)
    requires raw.authors != []
    ensures FileNameSpec(cs, ParseSpec(cs, raw, parseYear).value, extension).Success?
  {
    ParsedRecordComplete(cs, raw, parseYear);
  }

  /** A single author whose name parts are all empty leaves the title block alone after the language prefix. */
  lemma NamelessAuthorOmitted(cs: Casing, rec: MetadataRecord, extension: string)
    requires rec.language.Some? && rec.authors.Some? && rec.title.Some? && rec.edition == Some(1)
    requires |rec.authors.value| == 1 && RenderAuthor(cs, rec.authors.value[0]) == ""
    ensures NameOf(cs, rec, extension) ==
            LangPrefix(rec.language.value) + TitleBlock(rec.title.value, rec.subtitle) + (YearSuffix(rec.issueDate) + ("." + extension))
  {
    FewAuthors(cs, rec.authors.value);
    var title := TitleBlock(rec.title.value, rec.subtitle);
    assert NameBody(AuthorText(cs, rec.authors.value), title) == title;
    DropEmptyPart(LangPrefix(rec.language.value) + title, EditionSuffix(rec.language.value, 1), YearSuffix(rec.issueDate), "." + extension);
  }

  lemma Regroup(a: string, e: string, y: string, x: string)
    ensures a + e + y + x == a + (e + y + x)
  {
  }

  lemma DropEmptyPart(a: string, e: string, y: string, x: string)
    requires e == []
    ensures a + (e + y + x) == a + (y + x)
  {
    assert e + y == y;
  }

  /** `BookDataService`: holds the parser it delegates to. */
  class BookDataService {
    /** `$parser`, null until `setParser`. */
    var parser: FictionBookParser?

    constructor ()
      ensures parser == null
    {
      parser := null;
    }

    method SetParser(p: FictionBookParser)
      modifies this
      ensures parser == p
    {
      parser := p;
    }

    /** `parse`: fails when no parser was set; otherwise returns what the parser returns. */
    method Parse(root: Element, cs: Casing, parseYear: string -> Option<int>) returns (r: Result<ParsedData, BookError>)
      modifies parser
      ensures parser == old(parser)
      ensures parser == null ==> r == Failure(ParserNotSet)
      ensures parser != null ==>
                parser.collected == CollectDocument(root) &&
                (r.Failure? <==> parser.collected.authors == []) &&
                (r.Failure? ==> r.error == NullReturned("getAuthors")) &&
                (r.Success? ==> fresh(r.value) && r.value.Value() == ParseSpec(cs, parser.collected, parseYear).value)
    {
      if parser == null {
        return Failure(ParserNotSet);
      }
      r := parser.Parse(root, cs, parseYear);
    }

    /** `sanitizeString`: one loop over the restricted chunks, one over the replacers, then the trims. */
    method SanitizeString(str: string) returns (r: string)
      ensures r == SanitizeSpec(str)
    {
      var replaced := str;
      ghost var erasures := Erasures(RestrictedChunks);
      for i := 0 to |RestrictedChunks|
        invariant replaced == ReplaceAll(str, erasures[..i])
      {
        assert erasures[..i + 1][..i] == erasures[..i];
        replaced := StrReplace(replaced, RestrictedChunks[i], "");
      }
      assert erasures[..|RestrictedChunks|] == erasures;
      ghost var erased := replaced;
      for i := 0 to |Replacers|
        invariant replaced == ReplaceAll(erased, Replacers[..i])
      {
        assert Replacers[..i + 1][..i] == Replacers[..i];
        var (target, replace) := Replacers[i];
        replaced := StrReplace(replaced, target, replace);
      }
      assert Replacers[..|Replacers|] == Replacers;
      replaced := Trim(replaced, TrimChars);
      r := Trim(replaced, {'.'});
    }

    /** The author loop of `getProperFileName`, which stops at the third author. */
    method RenderAuthors(cs: Casing, authorData: seq<Person>) returns (author: string)
      ensures author == AuthorText(cs, authorData)
    {
      author := "";
      var i := 0;
      while i < |authorData|
        invariant 0 <= i <= |authorData| && i <= 2
        invariant author == AuthorsPrefix(cs, authorData, i)
      {
        if i > 1 {
          author := TrimRight(TrimRight(author, TrimChars), {','});
          author := author + " и др.";
          return;
        }
        author := AppendAuthor(cs, author, authorData[i]);
        if |authorData| >= 2 && i < |authorData| - 1 {
          author := author + ", ";
        }
        i := i + 1;
      }
    }

    /** One author's name parts appended in turn, each only when not empty. */
    method AppendAuthor(cs: Casing, before: string, item: Person) returns (author: string)
      ensures author == before + RenderAuthor(cs, item)
    {
      author := before;
      if !EmptyOpt(item.lastName) {
        author := author + Ucfirst(item.lastName.value);
      }
      if !EmptyOpt(item.firstName) {
        author := author + (" " + UpperInitial(cs, item.firstName.value) + ".");
      }
      if !EmptyOpt(item.middleName) {
        author := author + (UpperInitial(cs, item.middleName.value) + ".");
      }
    }

    /** The title part of `getProperFileName`: the sanitized title and, within the length limit, the sanitized subtitle. */
    method BuildTitle(rawTitle: string, subtitle: Option<string>) returns (title: string)
      ensures title == TitleBlock(rawTitle, subtitle)
    {
      title := SanitizeString(rawTitle);
      if !EmptyOpt(subtitle) && |rawTitle| + |subtitle.value| < TitleLenLimit {
        var sanitized := SanitizeString(subtitle.value);
        title := title + (". " + sanitized);
      } else {
        assert title + "" == title;
      }
    }

    /** The end of `getProperFileName`: the edition and year suffixes, the point and the extension. */
    method AppendSuffixes(name: string, lang: string, edition: int, issueDate: Option<int>, extension: string)
      returns (full: string)
      ensures full == name + (EditionSuffix(lang, edition) + YearSuffix(issueDate) + ("." + extension))
    {
      full := name;
      if 1 != edition {
        if LangRu != lang {
          full := full + (" (" + IntToDecimal(edition) + " ed.)");
        } else {
          full := full + (" (" + IntToDecimal(edition) + "-е изд.)");
        }
      } else {
        assert full + "" == full;
      }
      assert full == name + EditionSuffix(lang, edition);
      if !(issueDate.None? || issueDate.value == 0) {
        full := full + (" [" + IntToDecimal(issueDate.value) + "]");
      } else {
        assert full + "" == full;
      }
      assert full == name + EditionSuffix(lang, edition) + YearSuffix(issueDate);
      full := full + ("." + extension);
      Regroup(name, EditionSuffix(lang, edition), YearSuffix(issueDate), "." + extension);
    }

    /** The language part of `getProperFileName`: the map's tag and a space, for any language but "ru". */
    method LanguagePrefix(lang: string) returns (prefix: string)
      ensures prefix == LangPrefix(lang)
    {
      prefix := "";
      if LangRu != lang {
        prefix := prefix + ((if lang in LangMap then LangMap[lang] else "") + " ");
      }
    }

    /** The authors and " - " before the title block, when the author text is not empty. */
    method AppendBody(prefix: string, author: string, title: string) returns (name: string)
      ensures name == prefix + NameBody(author, title)
    {
      if !Empty(author) {
        name := prefix + (author + " - " + title);
      } else {
        name := prefix + title;
      }
    }

    /** `getProperFileName`: appends each part of the name in turn. */
    method GetProperFileName(cs: Casing, data: ParsedData, extension: string) returns (r: Result<string, BookError>)
      ensures r == FileNameSpec(cs, data.Value(), extension)
    {
      var lang := data.GetLanguage();
      if lang.Failure? {
        return Failure(lang.error);
      }
      var name := LanguagePrefix(lang.value);
      var authorData := data.GetAuthors();
      if authorData.Failure? {
        return Failure(authorData.error);
      }
      var author := RenderAuthors(cs, authorData.value);
      var getTitle := data.GetTitle();
      if getTitle.Failure? {
        return Failure(getTitle.error);
      }
      var title := BuildTitle(getTitle.value, data.subtitle);
      name := AppendBody(name, author, title);
      var edition := data.GetEdition();
      if edition.Failure? {
        return Failure(edition.error);
      }
      name := AppendSuffixes(name, lang.value, edition.value, data.issueDate, extension);
      assert name == NameOf(cs, data.Value(), extension);
      r := Success(name);
    }
  }
}
