# booxtract core in Dafny

booxtract renames FB2 e-books after their metadata. This project models the
core of that renamer:

- **Reading metadata.** The FB2 parser (`FictionBookParser`) reads the
  `description` element of a document into a raw field map. From that map it
  builds a `ParsedData` record: authors, translators, original authors and
  genres; the fiction and poetry flags; title and subtitle; edition and issue
  year; language; publisher data.
- **Building the file name.** The book data service (`BookDataService`)
  turns such a record into the recommended file name:
  - a language tag;
  - up to two authors;
  - the sanitized title and subtitle;
  - the edition and year suffixes;
  - the extension.
- **Language data.** `BookLangUtils` holds the language codes and tags.
- **Records.** `ParsedData` and `BookPersonData` are mutable records with
  fluent setters.

## Modules

| Module | File | Contents |
|---|---|---|
| `Wrappers` | `wrappers.dfy` | `Option` (PHP's null), `Result` and the errors the core raises. |
| `PhpStrings` | `php_strings.dfy` | The PHP string built-ins the core calls, stated at character level: `empty()`, `trim`/`ltrim`/`rtrim` with a character list, `explode`, `str_replace`, `mb_strpos`, the `(int)` cast, `%d`, `ucfirst`, and `mb_strtoupper`/`mb_strtolower` through an abstract case mapping `Casing`. |
| `People` | `book_person_data.dfy` | `BookPersonData` as a class with four nullable name parts; the `Person` value it holds. |
| `Metadata` | `parsed_data.dfy` | `ParsedData` as a class; its fluent setters and non-nullable getters; the `MetadataRecord` value it holds. |
| `BookLangUtils` | `book_lang_utils.dfy` | The language constants, the tag map, and `checkIsOldRussian`. |
| `Collector` | `collector.dfy` | The element tree, the raw field map, and the functions that state what `collectData` and `collectPersonData` compute. |
| `GenreClassifier` | `classifier.dfy` | The per-genre fiction vote, the majority count, and poetry detection. |
| `Titles` | `titles.dfy` | `explodeTitle`, `splitTitle`, `isBibliographyDescription`, `cleanAuthorNameFromTitle`, and the selection logic of `processTitles`, as functions. |
| `IssueDate` | `issue_date.dfy` | The issue year `getIssueDate` reports. |
| `TitleJoin` | `fiction_book_parser.dfy` | The join loop of `explodeTitle`, in a module of its own so that its proof sees only the string built-ins and the title rules. |
| `FictionBook` | `fiction_book_parser.dfy` | The parser class. Each of its methods runs the source's loops and is proved equal to the functions above; `parse` is proved equal to `ParseSpec`. |
| `BookData` | `book_data_service.dfy` | The service class and the file-name specification `FileNameSpec`, with its lemmas. |

### Environment and abstractions

- **Case mapping.** The Unicode case mapping of `mb_strtoupper` and
  `mb_strtolower` is a parameter `cs: Casing`, applied one character at a
  time. `ucfirst` is modelled concretely: it upper-cases only an ASCII
  letter.
- **Dates.** PHP's `\DateTime` year extraction is a parameter
  `parseYear: string -> Option<int>`. `None` stands for the exception it
  throws.
- **Document input.** The XML document is given as an already-parsed element
  tree (`Collector.Element`).
- **Unset versus empty.** The raw field map stores a scalar only when its text
  is non-empty in PHP's sense, and every reader tests it with `empty()`. So an
  unset key and `""` read alike: `Collector.Get` returns `""` for both.
- **Non-nullable getters.** A getter whose PHP return type is not nullable
  (`getTitle`, `getAuthors`, `getEdition`, `getLanguage`) raises a `TypeError`
  on a null field. It is modelled as a `Failure(NullReturned(..))`. In
  particular, `parse` fails exactly when no author was collected, because it
  calls `getAuthors()` on a record whose author list was never set.

### Where the code and the design documentation differ

The model follows the code in each case.

- **Language prefix.** The documentation says Russian and unmapped languages
  get no prefix. In the code, an unmapped code (`fi`, `hy`, `zh`, or any
  other) and `ru-ru` produce the prefix `" "`: `sprintf('%s ', ...)` of an
  empty or missing map entry (`BookData.KnownLanguagePrefixes`).
- **Repeated fields.** The documentation says the first occurrence of a
  repeated scalar field wins. In the code, the last non-empty occurrence wins
  (`Collector.LastGivenValueWins`).
- **Parentheses fallback.** The documentation describes a fallback that
  splits at parentheses. It is unreachable: `splitTitle` always produces six
  candidates before it tests for none.
- **Publication title.** The documentation says the publication title is
  adopted when the title-info section gave none. That never happens:
  `$selected['title']` starts as `''`, so `isset` is always true
  (`Titles.PublicationNeverSetsTitle`).
- **Source title.** The `src-title-info` title is split, but its candidates
  are never used.
- **Sanitizing.** The documentation says only trailing points are trimmed.
  The code trims points at both ends. The guarantee about `[`, `]`, quotes and
  `[litres]` holds for the sanitized title and subtitle
  (`BookData.SanitizedIsSafe`), but not for the whole name: the language tag
  (`[EN]`) and the year (` [1869]`) bring brackets in, and author names are
  not sanitized.
- **Three or more authors.** The author text before ` и др.` is cut with
  `rtrim` of white space and then of commas. It equals
  `first + ", " + second` only when the second rendered name is non-empty
  and ends in neither white space nor a comma (`BookData.ManyAuthors`).
  Otherwise the cut eats into it: an empty second name gives
  `"First,  и др."`.
- **Missing authors.** The documentation calls the heuristics total. The
  code instead fails with a `TypeError` when a document has no author.

## Model

| member | source | states |
|---|---|---|
| PhpStrings.TrimLeftFacts | src/Services/BookDataService.php:153-155 | `ltrim` leaves a suffix of its input that is empty or starts outside the list, and every character it dropped is in the list |
| PhpStrings.TrimRightFacts | src/Services/BookDataService.php:86 | `rtrim` leaves a prefix of its input that is empty or ends outside the list, and every character it dropped is in the list |
| PhpStrings.TrimFacts | src/Services/BookDataService.php:153-155 | `trim` with a character list: the result is no longer than the input, neither end is in the list, and every character comes from the input |
| PhpStrings.TrimRightDropsTail | src/Services/BookDataService.php:86 | `rtrim` removes exactly a tail made of listed characters when the character before it is not listed |
| PhpStrings.Explode | src/Services/Parsers/FictionBookParser.php:369 | `explode`: no piece holds the delimiter; there is more than one piece iff the delimiter occurs; the first piece is the text before the first delimiter |
| PhpStrings.ImplodeExplode | src/Services/Parsers/FictionBookParser.php:369 | joining the pieces of `explode` with the delimiter gives back the string |
| PhpStrings.StrReplace | src/Services/BookDataService.php:145-151 | `str_replace`: every character comes from the subject or the replacement, and a one-character needle that is not in the replacement is gone |
| PhpStrings.StrReplaceAbsent | src/Services/Parsers/FictionBookParser.php:307-308 | replacing a needle that does not occur leaves the subject unchanged |
| PhpStrings.StrPos | src/Services/Parsers/FictionBookParser.php:296-303 | `mb_strpos` returns the first position where the needle occurs, and false iff it occurs nowhere |
| PhpStrings.IntCastOfDecimal | src/Services/Parsers/FictionBookParser.php:422-423 | the `(int)` cast reads back any integer printed with `%d` |
| People.BookPersonData.constructor | src/DataObjects/BookPersonData.php:15-36 | a new person has every name part null |
| People.BookPersonData.SetFirstName | src/DataObjects/BookPersonData.php:43-48 | sets the first name, leaves the other parts, returns the same object |
| People.BookPersonData.SetLastName | src/DataObjects/BookPersonData.php:55-60 | sets the last name, leaves the other parts, returns the same object |
| People.BookPersonData.SetMiddleName | src/DataObjects/BookPersonData.php:67-72 | sets the middle name, leaves the other parts, returns the same object |
| People.BookPersonData.SetNameAlias | src/DataObjects/BookPersonData.php:79-84 | sets the alias, leaves the other parts, returns the same object |
| Metadata.ParsedData.constructor | src/DataObjects/ParsedData.php:115-122 | a new record: three flags false, one part, no genres, every other field null |
| Metadata.ParsedData.GetTitle | src/DataObjects/ParsedData.php:124-127 | succeeds iff the title is set, with the title; otherwise fails as the typed getter does |
| Metadata.ParsedData.GetAuthors | src/DataObjects/ParsedData.php:151-154 | succeeds iff the author list is set, with that list |
| Metadata.ParsedData.GetEdition | src/DataObjects/ParsedData.php:204-207 | succeeds iff the edition is set, with the edition |
| Metadata.ParsedData.GetLanguage | src/DataObjects/ParsedData.php:216-219 | succeeds iff the language is set, with the language |
| Metadata.ParsedData.SetAuthor | src/DataObjects/ParsedData.php:156-161 | appends the author to the list (starting one if null); nothing else changes |
| Metadata.ParsedData.SetTranslator | src/DataObjects/ParsedData.php:171-178 | appends a non-null translator; a null one changes nothing |
| Metadata.ParsedData.SetOriginAuthor | src/DataObjects/ParsedData.php:305-312 | appends a non-null original author; a null one changes nothing |
| Metadata.ParsedData.SetGenre | src/DataObjects/ParsedData.php:362-367 | appends the genre; nothing else changes |
| Metadata.ParsedData.SetTitle | src/DataObjects/ParsedData.php:129-134 | sets the title only |
| Metadata.ParsedData.SetSubtitle | src/DataObjects/ParsedData.php:141-146 | sets the subtitle only |
| Metadata.ParsedData.SetPublisherName | src/DataObjects/ParsedData.php:185-190 | sets the publisher only |
| Metadata.ParsedData.SetIssueDate | src/DataObjects/ParsedData.php:197-202 | sets the issue date only |
| Metadata.ParsedData.SetEdition | src/DataObjects/ParsedData.php:209-214 | sets the edition only |
| Metadata.ParsedData.SetLanguage | src/DataObjects/ParsedData.php:221-226 | sets the language only |
| Metadata.ParsedData.SetCity | src/DataObjects/ParsedData.php:233-238 | sets the city only |
| Metadata.ParsedData.SetIsbn | src/DataObjects/ParsedData.php:245-250 | sets the ISBN only |
| Metadata.ParsedData.SetOriginTitle | src/DataObjects/ParsedData.php:257-262 | sets the original title only |
| Metadata.ParsedData.SetOriginSubtitle | src/DataObjects/ParsedData.php:269-274 | sets the original subtitle only |
| Metadata.ParsedData.SetOriginIssueDate | src/DataObjects/ParsedData.php:281-286 | sets the original issue date only |
| Metadata.ParsedData.SetOriginLanguage | src/DataObjects/ParsedData.php:293-298 | sets the original language only |
| Metadata.ParsedData.SetIsFiction | src/DataObjects/ParsedData.php:319-324 | sets the fiction flag only |
| Metadata.ParsedData.SetIsCompilation | src/DataObjects/ParsedData.php:331-336 | sets the compilation flag only |
| Metadata.ParsedData.SetTotalParts | src/DataObjects/ParsedData.php:343-348 | sets the part count only |
| Metadata.ParsedData.SetIsPoetry | src/DataObjects/ParsedData.php:355-360 | sets the poetry flag only |
| Metadata.ParsedData.SetSeries | src/DataObjects/ParsedData.php:374-379 | sets the series only |
| BookLangUtils.LangMapContents | src/Services/BookLangUtils.php:10-35 | the map has exactly seven entries: both Russian codes map to the empty tag and the five other codes to their tags; `fi`, `hy` and `zh` and the old-Russian tag are absent |
| BookLangUtils.LowerCountsBothYats | src/Services/BookLangUtils.php:44 | lower-casing turns the yats of either case into small yats, and only those |
| BookLangUtils.OldRussianCountsBothCases | src/Services/BookLangUtils.php:42-45 | a sample is old Russian iff it holds at least two yats, capital or small |
| Collector.ChunkValue | src/Services/Parsers/FictionBookParser.php:452-470 | a child stores an entry only when its text (or its `name` attribute) is non-empty |
| Collector.LastGivenValueWins | src/Services/Parsers/FictionBookParser.php:449-472 | a repeated scalar keeps the text of its last child that stores one |
| Collector.UngivenKeyKept | src/Services/Parsers/FictionBookParser.php:449-472 | a key that no child stores keeps its earlier value |
| Collector.GenresKeepDocumentOrder | src/Services/Parsers/FictionBookParser.php:466-470 | the non-empty genres are appended in document order; the person lists are untouched |
| Collector.PersonsNamedAppend | src/Services/Parsers/FictionBookParser.php:460-465 | person lists keep document order: the list for a concatenation is the concatenation of the lists |
| Collector.LastNamePartWins | src/Services/Parsers/FictionBookParser.php:539-557 | a repeated name part keeps the text of its last non-empty element |
| Collector.UnsetNamePartNull | src/Services/Parsers/FictionBookParser.php:535-560 | a name part that no element sets stays null |
| GenreClassifier.CountVotesCountsVoters | src/Services/Parsers/FictionBookParser.php:127-131 | the fiction count is the number of genres that vote fiction |
| GenreClassifier.CountVotesUnanimous | src/Services/Parsers/FictionBookParser.php:127-131 | the count equals the number of genres iff all vote fiction, and is zero iff none does |
| GenreClassifier.CountVotesAppend | src/Services/Parsers/FictionBookParser.php:116-133 | counts over a concatenation add up |
| GenreClassifier.MajorityCases | src/Services/Parsers/FictionBookParser.php:136 | no genres or a tie is not fiction; genres that all vote fiction as the code casts the vote make the book fiction, and genres none of which does make it not fiction |
| GenreClassifier.PoetryVotesFiction | src/Services/Parsers/FictionBookParser.php:118 | a genre mentioning poetry votes fiction, both as written and corrected |
| GenreClassifier.AdvGeoNotFictionPattern | src/Services/Parsers/FictionBookParser.php:118 | `adv_geo` matches none of the fiction markers |
| GenreClassifier.AdvGeoVotesFictionAsWritten | src/Services/Parsers/FictionBookParser.php:121-125 | the genre `adv_geo` votes fiction as written, and not fiction with the exclusion applied |
| GenreClassifier.ExcludedAdventureNeedsPattern | src/Services/Parsers/FictionBookParser.php:121-125 | with the exclusion applied, a genre holding `adv_geo` or `adv_animal` votes fiction iff it matches the fiction pattern |
| GenreClassifier.AdvGeoBookIsFiction | src/Services/Parsers/FictionBookParser.php:116-136 | as written, a book whose only genre is `adv_geo` counts as fiction |
| GenreClassifier.AdvGeoBookNotFictionCorrected | src/Services/Parsers/FictionBookParser.php:123 | with the exclusion applied wherever `adv_geo` occurs, the same book does not count as fiction |
| Titles.Capitalize | src/Services/Parsers/FictionBookParser.php:389-392 | the first character is upper-cased and the rest is unchanged |
| Titles.Candidates | src/Services/Parsers/FictionBookParser.php:319-332 | six splits, one per delimiter, in the order point, semicolon, colon, slash, question mark, exclamation mark |
| Titles.NoDelimiterNoSubtitle | src/Services/Parsers/FictionBookParser.php:360-395 | without the delimiter, the whole string is the title and there is no subtitle |
| Titles.OneDelimiterSplit | src/Services/Parsers/FictionBookParser.php:369-392 | with one delimiter: the title is the text before it; the subtitle is the trimmed, capitalised text after it |
| Titles.ManyDelimitersAlwaysSubtitle | src/Services/Parsers/FictionBookParser.php:376-381 | with two or more delimiters, the subtitle is non-empty and, when upper-casing leaves a space unchanged, starts with a space |
| Titles.BibliographyNeedsDash | src/Services/Parsers/FictionBookParser.php:274-277 | a bibliographic description has an em dash after its first character |
| Titles.DashAfterTextIsBibliography | src/Services/Parsers/FictionBookParser.php:274-277 | an em dash right after a character other than a newline makes a bibliographic description |
| Titles.CleanAuthorName | src/Services/Parsers/FictionBookParser.php:285-312 | the cleaned title is no longer than the input and trimmed at both ends |
| Titles.AbsentAuthorOnlyTrims | src/Services/Parsers/FictionBookParser.php:296-311 | a title that contains neither the last name nor the first name is only trimmed |
| Titles.NormalizeBrackets | src/Services/Parsers/FictionBookParser.php:170-171 | no square bracket remains, and no other character is introduced |
| Titles.PrimaryChoice | src/Services/Parsers/FictionBookParser.php:196-205 | the first candidate with a subtitle; failing that, the last candidate's title with no subtitle |
| Titles.FirstPublishable | src/Services/Parsers/FictionBookParser.php:208-213 | the first candidate that has a subtitle and neither of whose parts is a bibliographic description; none iff no candidate qualifies |
| Titles.CutAtSlash | src/Services/Parsers/FictionBookParser.php:217-223 | no slash remains; a part without a slash is unchanged |
| Titles.StripAuthors | src/Services/Parsers/FictionBookParser.php:227-230 | removing the authors' names never lengthens the part |
| Titles.AdoptedSubtitle | src/Services/Parsers/FictionBookParser.php:244-257 | the publish-info subtitle is adopted iff it is non-empty, longer than two characters once trimmed, and not in the title; it is taken verbatim unless it holds the title, which is then cut out |
| Titles.CutTitle | src/Services/Parsers/FictionBookParser.php:249-251 | cutting the title out of the publish-info subtitle and trimming points, then colons, gives a text no longer than that subtitle with no colon at either end |
| Titles.TrimPair | src/Services/Parsers/FictionBookParser.php:261-264 | the final step of `processTitles` leaves title and subtitle with no white space at either end |
| Titles.PublicationNeverSetsTitle | src/Services/Parsers/FictionBookParser.php:236-240 | the title comes from title-info alone |
| Titles.PrimarySubtitleWins | src/Services/Parsers/FictionBookParser.php:196-207 | once a title-info candidate has a subtitle, publish-info and the authors do not matter |
| Titles.PlainTitleTakenWhole | src/Services/Parsers/FictionBookParser.php:162-267 | a title without delimiters and with no publish-info name is taken whole (brackets replaced, trimmed) with no subtitle |
| IssueDate.DatesOf | src/Services/Parsers/FictionBookParser.php:402-410 | the dates tried: the publish-info year first, then the title-info date, each only when non-empty |
| IssueDate.IssueDateMeaning | src/Services/Parsers/FictionBookParser.php:412-433 | null iff no date converts; a non-zero year iff some date yields one, and then the first such year |
| IssueDate.PublishYearWins | src/Services/Parsers/FictionBookParser.php:404-427 | a usable publish-info year wins over the title-info date |
| IssueDate.TitleDateFallback | src/Services/Parsers/FictionBookParser.php:408-427 | without a usable publish-info year, a usable title-info date gives the year |
| IssueDate.FourDigitYear | src/Services/Parsers/FictionBookParser.php:417-423 | a publish-info year printed as a positive number of at most four digits is the issue date |
| FictionBook.NonEmpty | src/Services/Parsers/FictionBookParser.php:96-101 | the value when it is non-empty, otherwise null |
| FictionBook.NonEmptyList | src/Services/Parsers/FictionBookParser.php:57-71 | a list appended one by one to a null list is null iff it is empty |
| FictionBook.Appended | src/DataObjects/ParsedData.php:156-161 | appending a non-empty list yields the old list (or nothing) followed by it |
| FictionBook.ParseSpec | src/Services/Parsers/FictionBookParser.php:47-104 | parsing fails iff no author was collected, with the `getAuthors` error |
| FictionBook.ParsedRecordComplete | src/Services/Parsers/FictionBookParser.php:86-101 | a parsed record has a title, edition 1, a language and a non-empty author list |
| FictionBook.PoetryOnlyInFiction | src/Services/Parsers/FictionBookParser.php:79-90 | a parsed book is poetry only if it is fiction, and a set subtitle is never empty |
| FictionBook.PoetryFollowsFiction | src/Services/Parsers/FictionBookParser.php:79-84 | a book with a poetry genre is poetry iff its genres make it fiction |
| FictionBook.FictionBookParser.constructor | src/Services/Parsers/FictionBookParser.php:31-34 | the collected data starts empty |
| FictionBook.FictionBookParser.CollectPersonData | src/Services/Parsers/FictionBookParser.php:535-560 | a fresh person whose value is `PersonOf` of the element's children |
| FictionBook.FictionBookParser.CollectTitleInfo | src/Services/Parsers/FictionBookParser.php:445-476 | the collected data after a title-info section is `SectionStep` of it |
| FictionBook.FictionBookParser.CollectSrcTitleInfo | src/Services/Parsers/FictionBookParser.php:480-499 | the same for a src-title-info section |
| FictionBook.FictionBookParser.CollectPublishInfo | src/Services/Parsers/FictionBookParser.php:503-525 | the same for a publish-info section |
| FictionBook.FictionBookParser.CollectData | src/Services/Parsers/FictionBookParser.php:439-530 | the collected data is the fold of every description section in document order |
| FictionBook.FictionBookParser.GenreVote | src/Services/Parsers/FictionBookParser.php:118-125 | the vote is `VotesFictionAsWritten`, the code's vote with its position-0 quirk, so `adv_geo` votes fiction (`GenreClassifier.AdvGeoVotesFictionAsWritten`) and poetry always does (`GenreClassifier.PoetryVotesFiction`) |
| FictionBook.FictionBookParser.IsFiction | src/Services/Parsers/FictionBookParser.php:109-137 | fiction iff fiction votes outnumber the rest |
| FictionBook.FictionBookParser.IsPoetry | src/Services/Parsers/FictionBookParser.php:142-153 | true iff some genre mentions poetry |
| TitleJoin.JoinPieces | src/Services/Parsers/FictionBookParser.php:374-385 | the join loop builds `Pieces` of all chunks after the first |
| FictionBook.FictionBookParser.ExplodeTitle | src/Services/Parsers/FictionBookParser.php:360-395 | equals `ExplodeSpec` |
| FictionBook.FictionBookParser.SplitTitle | src/Services/Parsers/FictionBookParser.php:319-352 | equals `Candidates` |
| FictionBook.FictionBookParser.SplitSection | src/Services/Parsers/FictionBookParser.php:167-191 | the candidates of a section's non-empty title, with brackets replaced by parentheses |
| FictionBook.FictionBookParser.ChoosePrimary | src/Services/Parsers/FictionBookParser.php:196-205 | equals `PrimaryChoice` |
| FictionBook.FictionBookParser.StripAuthorNames | src/Services/Parsers/FictionBookParser.php:227-230 | equals `StripAuthors` |
| FictionBook.FictionBookParser.ChoosePublished | src/Services/Parsers/FictionBookParser.php:207-233 | none iff no candidate is publishable; otherwise the first one, cut at slashes and cleaned of the authors |
| FictionBook.FictionBookParser.AdoptSubtitle | src/Services/Parsers/FictionBookParser.php:244-257 | equals `AdoptedSubtitle` |
| FictionBook.FictionBookParser.ApplyPublication | src/Services/Parsers/FictionBookParser.php:207-258 | equals `WithPublication` |
| FictionBook.FictionBookParser.ProcessTitles | src/Services/Parsers/FictionBookParser.php:162-267 | equals `SelectTitles` of the collected data |
| FictionBook.FictionBookParser.GetIssueDate | src/Services/Parsers/FictionBookParser.php:400-434 | equals `IssueDateOf(DatesOf(..))` |
| FictionBook.FictionBookParser.AddAuthors | src/Services/Parsers/FictionBookParser.php:57-59 | the record's authors extended by the list; nothing else changes |
| FictionBook.FictionBookParser.AddOriginAuthors | src/Services/Parsers/FictionBookParser.php:61-65 | the original authors extended; nothing else changes |
| FictionBook.FictionBookParser.AddTranslators | src/Services/Parsers/FictionBookParser.php:67-71 | the translators extended; nothing else changes |
| FictionBook.FictionBookParser.AddGenres | src/Services/Parsers/FictionBookParser.php:73-77 | the genres extended; nothing else changes |
| FictionBook.FictionBookParser.FillLists | src/Services/Parsers/FictionBookParser.php:55-77 | a new record with each person list set iff non-empty, and the genres |
| FictionBook.FictionBookParser.FillClassification | src/Services/Parsers/FictionBookParser.php:79-84 | the fiction flag is set; the poetry flag only for fiction |
| FictionBook.FictionBookParser.FillTitles | src/Services/Parsers/FictionBookParser.php:88-94 | subtitle (when non-empty), title, edition 1 and issue date are set; the same object is returned |
| FictionBook.FictionBookParser.FillPublication | src/Services/Parsers/FictionBookParser.php:95-101 | language (lower-cased, "ru" by default), publisher, city, ISBN, series, original language and original title are set, each null when empty |
| FictionBook.FictionBookParser.Parse | src/Services/Parsers/FictionBookParser.php:47-104 | the collected data is that of the document; fails iff no author was collected; otherwise a fresh record equal to `ParseSpec` |
| BookData.ReplaceAllKeepsOut | src/Services/BookDataService.php:145-151 | a character absent from the input and from every replacement stays absent |
| BookData.ReplaceAllRemoves | src/Services/BookDataService.php:149-151 | a replaced character that no later replacement brings back is absent |
| BookData.ErasedCharsAbsent | src/Services/BookDataService.php:17-20 | the removed single characters are gone after both tables |
| BookData.ReplacedCharsAbsent | src/Services/BookDataService.php:30-37 | the replaced characters are gone after the second table |
| BookData.NoForbiddenChar | src/Services/BookDataService.php:141-156 | no restricted or unsafe character survives sanitizing |
| BookData.SanitizedIsSafe | src/Services/BookDataService.php:141-156 | a sanitized string has no restricted or unsafe character, hence no `[litres]`, and no point at either end |
| BookData.KnownLanguagePrefixes | src/Services/BookDataService.php:76-78 | the prefix is empty for "ru", the tag and a space for the five tagged codes, and a lone space for "ru-ru" and untagged codes |
| BookData.RenderAuthor | src/Services/BookDataService.php:90-100 | an author's text is empty iff the last, first and middle names are all empty |
| BookData.FewAuthors | src/Services/BookDataService.php:83-105 | one author is rendered alone; two are joined by ", " |
| BookData.ManyAuthors | src/Services/BookDataService.php:84-88 | with three or more authors, the first two joined by ", " and followed by " и др." |
| BookData.OnlyTwoAuthorsShown | src/Services/BookDataService.php:83-89 | beyond two authors, only the first two and the fact that there are more matter |
| BookData.TitleBlock | src/Services/BookDataService.php:107-111 | starts with the sanitized title, and is longer iff the subtitle is non-empty and the raw lengths add up to under 180 |
| BookData.EditionSuffix | src/Services/BookDataService.php:119-125 | empty iff the edition is the first |
| BookData.YearSuffix | src/Services/BookDataService.php:127-129 | empty iff the issue year is null or zero |
| BookData.FileNameSpec | src/Services/BookDataService.php:71-134 | fails iff language, authors, title or edition is null, with the error of the first getter to meet the null; otherwise the name |
| BookData.NameShape | src/Services/BookDataService.php:76-131 | the name starts with the language prefix and ends with "." and the extension, preceded by " [Y]" for a non-zero year Y, otherwise by the edition suffix |
| BookData.AuthorsBeforeTitle | src/Services/BookDataService.php:113-117 | after the prefix comes "authors - title block" when the author text is non-empty, otherwise the title block |
| BookData.ParsedBookGetsName | src/Services/BookDataService.php:71-80 | every record the parser builds gets a name: the getters the name needs never fail on it |
| BookData.NamelessAuthorOmitted | src/Services/BookDataService.php:113-117 | a sole author without name parts leaves the title block right after the prefix |
| BookData.BookDataService.constructor | src/Services/BookDataService.php:42 | the parser starts unset |
| BookData.BookDataService.SetParser | src/Services/BookDataService.php:44-47 | stores the parser |
| BookData.BookDataService.Parse | src/Services/BookDataService.php:56-63 | fails when no parser is set; otherwise returns what the parser returns |
| BookData.BookDataService.SanitizeString | src/Services/BookDataService.php:141-156 | equals `SanitizeSpec` |
| BookData.BookDataService.LanguagePrefix | src/Services/BookDataService.php:76-78 | the prefix is `LangPrefix`, whose value for every code `BookData.KnownLanguagePrefixes` lists |
| BookData.BookDataService.RenderAuthors | src/Services/BookDataService.php:83-105 | the author loop, which stops at the third author, builds `AuthorText` |
| BookData.BookDataService.AppendAuthor | src/Services/BookDataService.php:90-100 | one pass of the author loop appends exactly the author's rendering, which is empty iff all three name parts are empty (`BookData.RenderAuthor`) |
| BookData.BookDataService.BuildTitle | src/Services/BookDataService.php:107-111 | equals `TitleBlock` |
| BookData.BookDataService.AppendBody | src/Services/BookDataService.php:113-117 | appends "authors - title block" when the author text is non-empty, otherwise the title block alone (`BookData.AuthorsBeforeTitle`) |
| BookData.BookDataService.AppendSuffixes | src/Services/BookDataService.php:119-131 | appends the edition suffix, the year suffix, "." and the extension |
| BookData.BookDataService.GetProperFileName | src/Services/BookDataService.php:71-134 | equals `FileNameSpec` of the record |

The definitions `BookLangUtils.CheckIsOldRussian` (src/Services/BookLangUtils.php:42-45) and `Titles.IsBibliographyDescription` (src/Services/Parsers/FictionBookParser.php:274-277) carry no contract of their own; `BookLangUtils.OldRussianCountsBothCases` states what the first computes, and `Titles.BibliographyNeedsDash` with `Titles.DashAfterTextIsBibliography` state what the second accepts.

## Left out

- XML loading (`Crawler::addXmlContent`) and malformed documents are not modelled. The document arrives as an element tree.
- The file name that `parse` stores first is not modelled: the next statement discards it.
- `getFileMask` is not modelled as an operation. It only returns the constant `FictionBook.FileMask`.
- `\DateTime` parsing of dates longer than four characters is the parameter `parseYear`, not a model of PHP's date parser.
- `mb_strtoupper` and `mb_strtolower` are an abstract per-character mapping. Full Unicode case mapping, which can change a string's length, is not modelled.
- The PCRE patterns (`/prose|...|^story|.../`, `/adv_/`, `/poetry/`, `/.\s?—/`, `/^\s+/`, `/\s+$/`) are matched on characters. Their byte-level behaviour without the `u` modifier is not modelled.
- The `(int)` cast covers optional whitespace, a sign and digits. Exponent forms such as `"1e3"` and overflow past `PHP_INT_MAX` are not modelled.
- Integers are unbounded. Editions and years are never near PHP's integer limits.
- `ParsedData` stores person values, not object references. Aliasing between a `BookPersonData` and the records holding it is not modelled: no person is changed after collection.
- `getDataAsPrintableString` is not modelled; it only formats a record for display.
- The getters with nullable return types (`getSubtitle`, `getTranslators`, `getIssueDate`, `getCity` and the rest) and the `BookPersonData` getters only read a field. The model reads that field through `Value()`.
- The console command, the Go command stub and the parser interface are outside this core.
- The idempotence of renaming a file that already has its proper name is not stated: the core never reads metadata from a file name.
- That a subtitle chosen from title-info never equals the whole title string is not stated as a lemma. For publish-info, `Titles.AdoptedSubtitle` states that an adopted subtitle is not found in the title.
- BookData.ManyAuthors: stated only when the second author's text is non-empty and ends in neither white space nor a comma. Otherwise the `rtrim` calls also cut into it; `BookData.AuthorText` gives the exact text in every case.
- BookData.SanitizedIsSafe: does not promise that no white space remains at the ends. Trimming points after white space can expose a space, for example `". x "`.
- Titles.CleanAuthorName: states only that the result is trimmed and no longer than the input. The exact text is its definition, and `Titles.AbsentAuthorOnlyTrims` states the case where no part of the name occurs.
- Titles.StripAuthors: states only that the result is no longer than the part; `FictionBook.FictionBookParser.StripAuthorNames` equals it exactly.

## Findings

| source | as written | input that shows it | evidently intended | confidence | as-written member | corrected member |
|---|---|---|---|---|---|---|
| src/Services/Parsers/FictionBookParser.php:123 | `!mb_strpos(mb_strtolower($genre), 'adv_geo')` treats a match at position 0 as no match, so a genre that starts with the excluded code is not excluded | the FB2 genre `adv_geo` (travel and geography): it matches `adv_`, and `mb_strpos` returns 0, so it votes fiction | a genre holding `adv_geo` or `adv_animal` anywhere votes fiction only through the fiction pattern (`GenreClassifier.ExcludedAdventureNeedsPattern`) | not executed | GenreClassifier.AdvGeoVotesFictionAsWritten | GenreClassifier.VotesFiction |

The model's parser (`FictionBook.FictionBookParser.GenreVote`, and through it `IsFiction`, `FillClassification` and `ParseSpec`) casts the vote as written, so a book whose only genre is `adv_geo` is fiction (`GenreClassifier.AdvGeoBookIsFiction`). The corrected vote `GenreClassifier.VotesFiction` and its majority `GenreClassifier.CorrectedFictionWins` say what the exclusion evidently intends; with them the same book is not fiction (`GenreClassifier.AdvGeoBookNotFictionCorrected`).
