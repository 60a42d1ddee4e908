/**
 * `FictionBookParser`: reads the `description` of an FB2 document into its
 * raw field map, then builds the `ParsedData` record from it. Each method
 * is proved against the specification function of its own module.
 */
module FictionBook {
  import opened Wrappers
  import opened PhpStrings
  import opened People
  import opened Metadata
  import opened BookLangUtils
  import opened Collector
  import opened GenreClassifier
  import opened Titles
  import opened IssueDate
  import opened TitleJoin

  /** The files the parser reads. */
  const FileMask := "*.fb2"

  /** A nullable setter argument: the entry when it is not empty, else null. */
  function NonEmpty(s: string): (r: Option<string>)
    ensures r.Some? <==> !Empty(s)
    ensures r.Some? ==> r.value == s
  {
    if Empty(s) then None else Some(s)
  }

  /** A nullable list: null for the empty list. */
  function NonEmptyList(xs: seq<Person>): (r: Option<seq<Person>>)
    ensures r.Some? <==> xs != []
    ensures r.Some? ==> r.value == xs
  {
    if xs == [] then None else Some(xs)
  }

  /** A nullable list after appending `xs` one by one: untouched when `xs` is empty. */
  function Appended(o: Option<seq<Person>>, xs: seq<Person>): (r: Option<seq<Person>>)
    ensures xs != [] ==> r.Some? && r.value == o.GetOr([]) + xs
  {
    if xs == [] then o else Some(o.GetOr([]) + xs)
  }

  lemma AppendedSnoc(o: Option<seq<Person>>, xs: seq<Person>, x: Person)
    ensures Appended(o, xs + [x]) == Some(Appended(o, xs).GetOr([]) + [x])
  {
    assert xs + [x] != [];
    if xs != [] {
      assert o.GetOr([]) + xs + [x] == o.GetOr([]) + (xs + [x]);
    } else {
      assert xs + [x] == [x];
    }
  }

  /** Appending to a null list gives the list, or null when nothing is appended. */
  lemma AppendedToNull(xs: seq<Person>)
    ensures Appended(None, xs) == NonEmptyList(xs)
  {
    assert [] + xs == xs;
  }

  /** The record `parse` builds from the collected fields, or the error `getAuthors` raises when no author was collected. */
  function ParseSpec(cs: Casing, raw: RawFieldMap, parseYear: string -> Option<int>): (r: Result<MetadataRecord, BookError>)
    ensures r.Failure? <==> raw.authors == []
    ensures r.Failure? ==> r.error == NullReturned("getAuthors")
  {
    if raw.authors == [] then Failure(NullReturned("getAuthors"))
    else
      var fiction := FictionWins(cs, raw.genres);
      var titles := SelectTitles(cs, raw, raw.authors);
      Success(NewRecord.(
        authors := Some(raw.authors),
        originAuthors := NonEmptyList(raw.srcAuthors),
        translators := NonEmptyList(raw.translators),
        genres := raw.genres,
        isFiction := fiction,
        isPoetry := fiction && HasPoetry(raw.genres),
        subtitle := NonEmpty(titles.subtitle),
        title := Some(titles.title),
        edition := Some(1),
        issueDate := IssueDateOf(DatesOf(raw), parseYear),
        language := Some(if Empty(Get(raw, Lang)) then LangRu else Lower(cs, Get(raw, Lang))),
        publisherName := NonEmpty(Get(raw, Publisher)),
        city := NonEmpty(Get(raw, City)),
        isbn := NonEmpty(Get(raw, Isbn)),
        series := NonEmpty(Get(raw, Series)),
        originLanguage := NonEmpty(Get(raw, SrcLang)),
        originTitle := NonEmpty(Get(raw, SrcBookTitle))))
  }

  /**
   * A parsed record carries everything the file-name builder asks for: a
   * title, the first edition, a language and the authors.
   */
  lemma ParsedRecordComplete(cs: Casing, raw: RawFieldMap, parseYear: string -> Option<int>)
    requires raw.authors != []
    ensures var rec := ParseSpec(cs, raw, parseYear).value;
            rec.title.Some? && rec.edition == Some(1) && rec.language.Some? && rec.authors == Some(raw.authors)
  {
  }

  /** Only fiction is ever poetry, and a parsed subtitle is never empty. */
  lemma PoetryOnlyInFiction(cs: Casing, raw: RawFieldMap, parseYear: string -> Option<int>)
    requires raw.authors != []
    ensures var rec := ParseSpec(cs, raw, parseYear).value;
            (rec.isPoetry ==> rec.isFiction) && (rec.subtitle.Some? ==> !Empty(rec.subtitle.value))
  {
  }

  /** A book with a poetry genre is poetry exactly when its genres make it fiction. */
  lemma PoetryFollowsFiction(cs: Casing, raw: RawFieldMap, parseYear: string -> Option<int>, i: int)
    requires raw.authors != [] && 0 <= i < |raw.genres| && Contains(raw.genres[i], "poetry")
    ensures ParseSpec(cs, raw, parseYear).value.isPoetry <==> FictionWins(cs, raw.genres)
  {
  }

  class FictionBookParser {
    /** `$collectedData`. */
    var collected: RawFieldMap

    constructor ()
      ensures collected == NoFields
    {
      collected := NoFields;
    }

    // -------------------------------------------------------------------
    // collecting

    /** `collectPersonData`: a new person, filled from the children that hold a non-empty text. */
    method CollectPersonData(nodes: Element) returns (person: BookPersonData)
      ensures fresh(person)
      ensures person.Value() == PersonOf(nodes.children)
    {
      person := new BookPersonData();
      var children := nodes.children;
      var i := 0;
      while i < |children|
        invariant 0 <= i <= |children|
        invariant person.Value() == PersonOf(children[..i])
      {
        var node := children[i];
        assert children[..i + 1][..i] == children[..i];
        if !Empty(node.text) {
          if node.name == "first-name" {
            if !Empty(node.text) {
              var _ := person.SetFirstName(Some(node.text));
            }
          } else if node.name == "last-name" {
            if !Empty(node.text) {
              var _ := person.SetLastName(Some(node.text));
            }
          } else if node.name == "middle-name" {
            var _ := person.SetMiddleName(Some(node.text));
          }
        }
        i := i + 1;
      }
      assert children[..i] == children;
    }

    /** A `title-info` section: scalars and genres as they come, then its author and translator lists. */
    method CollectTitleInfo(child: Element)
      requires child.name == "title-info"
      modifies this
      ensures collected == SectionStep(old(collected), child)
    {
      var chunks := child.children;
      var authors: seq<Person> := [];
      var translators: seq<Person> := [];
      var i := 0;
      while i < |chunks|
        invariant 0 <= i <= |chunks|
        invariant collected == FoldChunks(TitleInfo, old(collected), chunks[..i])
        invariant authors == PersonsNamed(chunks[..i], "author")
        invariant translators == PersonsNamed(chunks[..i], "translator")
      {
        var chunk := chunks[i];
        assert chunks[..i + 1][..i] == chunks[..i];
        var key := chunk.name;
        if key == "lang" || key == "src-lang" || key == "date" || key == "book-title" {
          if !Empty(chunk.text) {
            collected := collected.(scalars := collected.scalars[ScalarKey(TitleInfo, key).value := chunk.text]);
          }
        } else if key == "translator" {
          var p := CollectPersonData(chunk);
          translators := translators + [p.Value()];
        } else if key == "author" {
          var p := CollectPersonData(chunk);
          authors := authors + [p.Value()];
        } else if key == "genre" {
          if !Empty(chunk.text) {
            collected := collected.(genres := collected.genres + [chunk.text]);
          }
        }
        i := i + 1;
      }
      assert chunks[..i] == chunks;
      collected := collected.(authors := authors, translators := translators);
    }

    /** A `src-title-info` section: its date and title, then its author list. */
    method CollectSrcTitleInfo(child: Element)
      requires child.name == "src-title-info"
      modifies this
      ensures collected == SectionStep(old(collected), child)
    {
      var chunks := child.children;
      var authors: seq<Person> := [];
      var i := 0;
      while i < |chunks|
        invariant 0 <= i <= |chunks|
        invariant collected == FoldChunks(SrcTitleInfo, old(collected), chunks[..i])
        invariant authors == PersonsNamed(chunks[..i], "author")
      {
        var chunk := chunks[i];
        assert chunks[..i + 1][..i] == chunks[..i];
        var key := chunk.name;
        if key == "date" || key == "book-title" {
          if !Empty(chunk.text) {
            collected := collected.(scalars := collected.scalars[ScalarKey(SrcTitleInfo, key).value := chunk.text]);
          }
        } else if key == "author" {
          var p := CollectPersonData(chunk);
          authors := authors + [p.Value()];
        }
        i := i + 1;
      }
      assert chunks[..i] == chunks;
      collected := collected.(srcAuthors := authors);
    }

    /** A `publish-info` section: its scalars, and the series from a `sequence` element's name. */
    method CollectPublishInfo(child: Element)
      requires child.name == "publish-info"
      modifies this
      ensures collected == SectionStep(old(collected), child)
    {
      var chunks := child.children;
      var i := 0;
      while i < |chunks|
        invariant 0 <= i <= |chunks|
        invariant collected == FoldChunks(PublishInfo, old(collected), chunks[..i])
      {
        var chunk := chunks[i];
        assert chunks[..i + 1][..i] == chunks[..i];
        var key := chunk.name;
        if key == "book-name" || key == "publisher" || key == "city" || key == "year" || key == "isbn" {
          if !Empty(chunk.text) {
            collected := collected.(scalars := collected.scalars[ScalarKey(PublishInfo, key).value := chunk.text]);
          }
        } else if key == "sequence" {
          if "name" in chunk.attrs && !Empty(chunk.attrs["name"]) {
            collected := collected.(scalars := collected.scalars[Series := chunk.attrs["name"]]);
          }
        }
        i := i + 1;
      }
      assert chunks[..i] == chunks;
    }

    /** `collectData`: every section of every `description` child of the root, in document order. */
    method CollectData(root: Element)
      modifies this
      ensures collected == FoldDocument(old(collected), root.children)
    {
      var nodes := root.children;
      var i := 0;
      while i < |nodes|
        invariant 0 <= i <= |nodes|
        invariant collected == FoldDocument(old(collected), nodes[..i])
      {
        assert nodes[..i + 1][..i] == nodes[..i];
        if nodes[i].name == "description" {
          var before := collected;
          var sections := nodes[i].children;
          var j := 0;
          while j < |sections|
            invariant 0 <= j <= |sections|
            invariant collected == FoldSections(before, sections[..j])
          {
            var child := sections[j];
            assert sections[..j + 1][..j] == sections[..j];
            if child.name == "title-info" {
              CollectTitleInfo(child);
            }
            if child.name == "src-title-info" {
              CollectSrcTitleInfo(child);
            }
            if child.name == "publish-info" {
              CollectPublishInfo(child);
            }
            j := j + 1;
          }
          assert sections[..j] == sections;
        }
        i := i + 1;
      }
      assert nodes[..i] == nodes;
    }

    // -------------------------------------------------------------------
    // classifying

    /**
     * One genre's vote in `getIsFiction`: the fiction pattern, else an
     * adventure genre whose lower-cased form holds neither excluded code
     * after its first character (`mb_strpos` reports a match at 0 as falsy).
     */
    method GenreVote(cs: Casing, genre: string) returns (detectFiction: bool)
      ensures detectFiction == VotesFictionAsWritten(cs, genre)
    {
      detectFiction := MatchesFictionPattern(genre);
      if !detectFiction {
        var checkAdv := Contains(genre, "adv_");
        if checkAdv && !FoundAfterStart(Lower(cs, genre), "adv_geo") && !FoundAfterStart(Lower(cs, genre), "adv_animal") {
          detectFiction := true;
        }
      }
    }

    /** `getIsFiction`: counts the fiction and non-fiction votes of the collected genres. */
    method IsFiction(cs: Casing) returns (fiction: bool)
      ensures fiction == FictionWins(cs, collected.genres)
    {
      var genres := collected.genres;
      var fictionCount, nonfictionCount := 0, 0;
      var i := 0;
      while i < |genres|
        invariant 0 <= i <= |genres|
        invariant fictionCount == CountVotes(Voter(cs), genres[..i])
        invariant nonfictionCount == i - fictionCount
      {
        var genre := genres[i];
        CountVotesSnoc(Voter(cs), genres, i);
        var detectFiction := GenreVote(cs, genre);
        assert detectFiction == Voter(cs)(genre);
        if detectFiction {
          fictionCount := fictionCount + 1;
        } else {
          nonfictionCount := nonfictionCount + 1;
        }
        i := i + 1;
      }
      assert genres[..i] == genres;
      fiction := fictionCount > nonfictionCount;
    }

    /** `getIsPoetry`: stops at the first genre that mentions poetry. */
    method IsPoetry() returns (poetry: bool)
      ensures poetry == HasPoetry(collected.genres)
    {
      var genres := collected.genres;
      var i := 0;
      while i < |genres|
        invariant 0 <= i <= |genres|
        invariant forall j :: 0 <= j < i ==> !Contains(genres[j], "poetry")
      {
        if Contains(genres[i], "poetry") {
          return true;
        }
        i := i + 1;
      }
      return false;
    }

    // -------------------------------------------------------------------
    // titles

    /** `explodeTitle`: the text before the first delimiter, and the rest joined and capitalised. */
    method ExplodeTitle(cs: Casing, srcString: string, delimiter: char) returns (r: TitlePair)
      ensures r == ExplodeSpec(cs, srcString, delimiter)
    {
      var title := srcString;
      var subTitle := "";
      var chunks := Explode(srcString, delimiter);
      if |chunks| > 1 {
        title := chunks[0];
        subTitle := JoinPieces(chunks, delimiter);
      }
      var subtitle := "";
      if !Empty(subTitle) {
        subtitle := UpperInitial(cs, subTitle) + subTitle[1..];
      }
      r := TitlePair(title, subtitle);
    }

    /**
     * `splitTitle`: one split per delimiter. The search between parentheses
     * that follows is reached only when no split was made, which never
     * happens.
     */
    method SplitTitle(cs: Casing, srcString: string) returns (output: seq<TitlePair>)
      ensures output == Candidates(cs, srcString)
    {
      var point := ExplodeTitle(cs, srcString, '.');
      var semicolon := ExplodeTitle(cs, srcString, ';');
      var colon := ExplodeTitle(cs, srcString, ':');
      var slash := ExplodeTitle(cs, srcString, '/');
      var question := ExplodeTitle(cs, srcString, '?');
      var exclamation := ExplodeTitle(cs, srcString, '!');
      output := [point, semicolon, colon, slash, question, exclamation];
      if output == [] {
        assert false;
      }
    }

    /** The candidates of one section's title, with brackets made parentheses, when the title is not empty. */
    method SplitSection(cs: Casing, key: FieldKey) returns (out: Option<seq<TitlePair>>)
      ensures out == SplitOf(cs, Get(collected, key))
    {
      out := None;
      var title := Get(collected, key);
      if !Empty(title) {
        title := StrReplace(title, "[", "(");
        title := StrReplace(title, "]", ")");
        var split := SplitTitle(cs, title);
        out := Some(split);
      }
    }

    /** The title-info loop: each candidate's title in turn, until one has a subtitle. */
    method ChoosePrimary(cands: seq<TitlePair>) returns (selected: TitlePair)
      ensures selected == PrimaryChoice(cands)
    {
      selected := TitlePair("", "");
      var i := 0;
      while i < |cands|
        invariant 0 <= i <= |cands|
        invariant forall j :: 0 <= j < i ==> Empty(cands[j].subtitle)
        invariant selected.subtitle == ""
        invariant selected.title == (if i == 0 then "" else cands[i - 1].title)
      {
        selected := selected.(title := cands[i].title);
        if !Empty(cands[i].subtitle) {
          selected := selected.(subtitle := cands[i].subtitle);
          assert selected == cands[i];
          return;
        }
        i := i + 1;
      }
    }

    /** The author loop: each author's name removed from the part in turn. */
    method StripAuthorNames(cs: Casing, part: string, authorData: seq<Person>) returns (r: string)
      ensures r == StripAuthors(cs, part, authorData)
    {
      r := part;
      var k := 0;
      while k < |authorData|
        invariant 0 <= k <= |authorData|
        invariant StripAuthors(cs, r, authorData[k..]) == StripAuthors(cs, part, authorData)
      {
        assert authorData[k..][1..] == authorData[k + 1..];
        r := CleanAuthorName(cs, r, authorData[k]);
        k := k + 1;
      }
    }

    /**
     * The publish-info loop: the first publishable candidate, each part cut
     * at its first slash and cleaned of the authors' names.
     */
    method ChoosePublished(cs: Casing, cands: seq<TitlePair>, authorData: seq<Person>) returns (publishSelected: Option<TitlePair>)
      ensures publishSelected.None? <==> FirstPublishable(cands).None?
      ensures publishSelected.Some? ==>
                publishSelected.value.subtitle == StripAuthors(cs, CutAtSlash(FirstPublishable(cands).value.subtitle), authorData)
    {
      publishSelected := None;
      var i := 0;
      while i < |cands|
        invariant 0 <= i <= |cands|
        invariant forall j :: 0 <= j < i ==> !Publishable(cands[j])
      {
        var item := cands[i];
        if !Empty(item.subtitle) && !IsBibliographyDescription(item.title) && !IsBibliographyDescription(item.subtitle) {
          var title := item.title;
          var subtitle := item.subtitle;
          var chunks := Explode(item.title, '/');
          if |chunks| > 1 {
            title := Trim(chunks[0], TrimChars);
          }
          chunks := Explode(item.subtitle, '/');
          if |chunks| > 1 {
            subtitle := Trim(chunks[0], TrimChars);
          }
          title := StripAuthorNames(cs, title, authorData);
          subtitle := StripAuthorNames(cs, subtitle, authorData);
          publishSelected := Some(TitlePair(title, subtitle));
          assert FirstPublishable(cands) == Some(item);
          return;
        }
        i := i + 1;
      }
    }

    /** The publish-info subtitle test of `processTitles`, with the title cut out of the subtitle when it holds it. */
    method AdoptSubtitle(title: string, pubSub: string) returns (adopted: Option<string>)
      ensures adopted == AdoptedSubtitle(title, pubSub)
    {
      adopted := None;
      if !Empty(pubSub) && |Trim(pubSub, TrimChars)| > 2 {
        if StrPos(title, pubSub).None? {
          var position := StrPos(pubSub, title);
          if position.Some? {
            var subtitle := StrReplace(pubSub, title, "");
            subtitle := Trim(subtitle, {'.'});
            subtitle := Trim(subtitle, {':'});
            adopted := Some(subtitle);
          } else {
            adopted := Some(pubSub);
          }
        }
      }
    }

    /**
     * The publish-info half of `processTitles`, reached when the title-info
     * choice has no subtitle. The publish-info title would be taken only if
     * no title were set, and one always is (possibly ""), so only the
     * subtitle can change.
     */
    method ApplyPublication(cs: Casing, sel: TitlePair, publish: Option<seq<TitlePair>>, authorData: seq<Person>)
      returns (selected: TitlePair)
      ensures selected == WithPublication(cs, sel, publish, authorData)
    {
      selected := sel;
      if Empty(selected.subtitle) && publish.Some? && publish.value != [] {
        var publishSelected := ChoosePublished(cs, publish.value, authorData);
        if publishSelected.Some? {
          var adopted := AdoptSubtitle(selected.title, publishSelected.value.subtitle);
          if adopted.Some? {
            selected := selected.(subtitle := adopted.value);
          }
        }
      }
    }

    /** `processTitles`: the title and subtitle the book is named by. */
    method ProcessTitles(cs: Casing, authorData: seq<Person>) returns (selected: TitlePair)
      ensures selected == SelectTitles(cs, collected, authorData)
    {
      var primary := SplitSection(cs, BookTitle);
      var publish := SplitSection(cs, BookName);
      var _ := SplitSection(cs, SrcBookTitle);  // split like the others, never consulted
      selected := TitlePair("", "");
      if primary.Some? {
        selected := ChoosePrimary(primary.value);
      }
      selected := ApplyPublication(cs, selected, publish, authorData);
      var title := TrimLeft(selected.title, PcreSpace);
      title := TrimRight(title, PcreSpace);
      var subtitle := TrimLeft(selected.subtitle, PcreSpace);
      subtitle := TrimRight(subtitle, PcreSpace);
      selected := TitlePair(title, subtitle);
    }

    // -------------------------------------------------------------------
    // issue date

    /** `getIssueDate`: tries the publish-info year, then the title-info date, until one gives a non-zero year. */
    method GetIssueDate(parseYear: string -> Option<int>) returns (finalDate: Option<int>)
      ensures finalDate == IssueDateOf(DatesOf(collected), parseYear)
    {
      var dates: seq<string> := [];
      if !Empty(Get(collected, Year)) {
        dates := dates + [Get(collected, Year)];
      }
      if !Empty(Get(collected, Date)) {
        dates := dates + [Get(collected, Date)];
      }
      assert dates == DatesOf(collected);
      finalDate := None;
      var i := 0;
      while i < |dates|
        invariant 0 <= i <= |dates|
        invariant finalDate.None? || finalDate == Some(0)
        invariant IssueDateOf(dates, parseYear) ==
                  (var rest := IssueDateOf(dates[i..], parseYear); if rest.None? then finalDate else rest)
      {
        var date := dates[i];
        assert dates[i..][1..] == dates[i + 1..];
        if !Empty(date) {
          if |date| > 4 {
            var year := parseYear(date);
            if year.Some? {
              finalDate := year;
            }
          } else {
            finalDate := Some(IntCast(date));
          }
          if finalDate.Some? && finalDate.value != 0 {
            break;
          }
        }
        i := i + 1;
      }
    }

    // -------------------------------------------------------------------
    // parse

    /** The author loop of `parse`. */
    method AddAuthors(data: ParsedData, authors: seq<Person>)
      modifies data
      ensures data.Value() == old(data.Value()).(authors := Appended(old(data.authors), authors))
    {
      ghost var start := data.Value();
      for i := 0 to |authors|
        invariant data.Value() == start.(authors := Appended(start.authors, authors[..i]))
      {
        AppendedSnoc(start.authors, authors[..i], authors[i]);
        assert authors[..i + 1] == authors[..i] + [authors[i]];
        var _ := data.SetAuthor(authors[i]);
      }
      assert authors[..|authors|] == authors;
    }

    /** The source-author loop of `parse`. */
    method AddOriginAuthors(data: ParsedData, authors: seq<Person>)
      modifies data
      ensures data.Value() == old(data.Value()).(originAuthors := Appended(old(data.originAuthors), authors))
    {
      ghost var start := data.Value();
      for i := 0 to |authors|
        invariant data.Value() == start.(originAuthors := Appended(start.originAuthors, authors[..i]))
      {
        AppendedSnoc(start.originAuthors, authors[..i], authors[i]);
        assert authors[..i + 1] == authors[..i] + [authors[i]];
        var _ := data.SetOriginAuthor(Some(authors[i]));
      }
      assert authors[..|authors|] == authors;
    }

    /** The translator loop of `parse`. */
    method AddTranslators(data: ParsedData, translators: seq<Person>)
      modifies data
      ensures data.Value() == old(data.Value()).(translators := Appended(old(data.translators), translators))
    {
      ghost var start := data.Value();
      for i := 0 to |translators|
        invariant data.Value() == start.(translators := Appended(start.translators, translators[..i]))
      {
        AppendedSnoc(start.translators, translators[..i], translators[i]);
        assert translators[..i + 1] == translators[..i] + [translators[i]];
        var _ := data.SetTranslator(Some(translators[i]));
      }
      assert translators[..|translators|] == translators;
    }

    /** The genre loop of `parse`. */
    method AddGenres(data: ParsedData, genres: seq<string>)
      modifies data
      ensures data.Value() == old(data.Value()).(genres := old(data.genres) + genres)
    {
      ghost var start := data.Value();
      for i := 0 to |genres|
        invariant data.Value() == start.(genres := start.genres + genres[..i])
      {
        assert genres[..i + 1] == genres[..i] + [genres[i]];
        var _ := data.SetGenre(genres[i]);
      }
      assert genres[..|genres|] == genres;
    }

    /** The four list loops of `parse`, on a new record: each list set when non-empty, left null otherwise. */
    method FillLists(data: ParsedData)
      requires data.Value() == NewRecord
      modifies data
      ensures data.Value() == NewRecord.(
                authors := NonEmptyList(collected.authors),
                originAuthors := NonEmptyList(collected.srcAuthors),
                translators := NonEmptyList(collected.translators),
                genres := collected.genres)
    {
      AppendedToNull(collected.authors);
      AppendedToNull(collected.srcAuthors);
      AppendedToNull(collected.translators);
      AddAuthors(data, collected.authors);
      if collected.srcAuthors != [] {
        AddOriginAuthors(data, collected.srcAuthors);
      }
      if collected.translators != [] {
        AddTranslators(data, collected.translators);
      }
      if collected.genres != [] {
        AddGenres(data, collected.genres);
        assert [] + collected.genres == collected.genres;
      }
    }

    /** The classification step of `parse`: the fiction flag, and the poetry flag for fiction only. */
    method FillClassification(cs: Casing, data: ParsedData)
      modifies data
      ensures data.Value() == old(data.Value()).(
                isFiction := FictionWins(cs, collected.genres),
                isPoetry := if FictionWins(cs, collected.genres) then HasPoetry(collected.genres) else old(data.isPoetry))
    {
      var isFiction := IsFiction(cs);
      var _ := data.SetIsFiction(isFiction);
      if isFiction {
        var isPoetry := IsPoetry();
        var _ := data.SetIsPoetry(isPoetry);
      }
    }

    /** The start of the setter chain that ends `parse`: the titles, the first edition and the issue date. */
    method FillTitles(parseYear: string -> Option<int>, data: ParsedData, titlesData: TitlePair) returns (d: ParsedData)
      modifies data
      ensures d == data
      ensures data.Value() == old(data.Value()).(
                subtitle := if Empty(titlesData.subtitle) then old(data.subtitle) else Some(titlesData.subtitle),
                title := Some(titlesData.title),
                edition := Some(1),
                issueDate := IssueDateOf(DatesOf(collected), parseYear))
    {
      if !Empty(titlesData.subtitle) {
        var _ := data.SetSubtitle(Some(titlesData.subtitle));
      }
      var issueDate := GetIssueDate(parseYear);
      d := data.SetTitle(titlesData.title);
      d := d.SetEdition(1);
      d := d.SetIssueDate(issueDate);
    }

    /** The rest of the setter chain: the language, "ru" when none was given, and the publication entries, null when empty. */
    method FillPublication(cs: Casing, d: ParsedData)
      modifies d
      ensures d.Value() == old(d.Value()).(
                language := Some(if Empty(Get(collected, Lang)) then LangRu else Lower(cs, Get(collected, Lang))),
                publisherName := NonEmpty(Get(collected, Publisher)),
                city := NonEmpty(Get(collected, City)),
                isbn := NonEmpty(Get(collected, Isbn)),
                series := NonEmpty(Get(collected, Series)),
                originLanguage := NonEmpty(Get(collected, SrcLang)),
                originTitle := NonEmpty(Get(collected, SrcBookTitle)))
    {
      var lang := Get(collected, Lang);
      var e := d.SetLanguage(if !Empty(lang) then Lower(cs, lang) else LangRu);
      e := e.SetPublisherName(NonEmpty(Get(collected, Publisher)));
      e := e.SetCity(NonEmpty(Get(collected, City)));
      e := e.SetIsbn(NonEmpty(Get(collected, Isbn)));
      e := e.SetSeries(NonEmpty(Get(collected, Series)));
      e := e.SetOriginLanguage(NonEmpty(Get(collected, SrcLang)));
      e := e.SetOriginTitle(NonEmpty(Get(collected, SrcBookTitle)));
    }

    /**
     * `parse`: collects the document afresh (the file name it records first
     * is discarded with the rest), then fills a new record; fails as
     * `getAuthors` does when no author was collected.
     */
    method Parse(root: Element, cs: Casing, parseYear: string -> Option<int>) returns (r: Result<ParsedData, BookError>)
      modifies this
      ensures collected == CollectDocument(root)
      ensures r.Failure? <==> collected.authors == []
      ensures r.Failure? ==> r.error == NullReturned("getAuthors")
      ensures r.Success? ==> fresh(r.value) && r.value.Value() == ParseSpec(cs, collected, parseYear).value
    {
      collected := NoFields;
      CollectData(root);
      var data := new ParsedData();
      FillLists(data);
      FillClassification(cs, data);
      var authors := data.GetAuthors();
      if authors.Failure? {
        return Failure(authors.error);
      }
      var titlesData := ProcessTitles(cs, authors.value);
      var d := FillTitles(parseYear, data, titlesData);
      FillPublication(cs, d);
      r := Success(data);
    }
  }
}

/**
 * The join loop of `explodeTitle`, kept apart from the parser so that its
 * proof sees only the string primitives and the title rules.
 */
module TitleJoin {
  import opened PhpStrings
  import opened Titles

  /** The join loop of `explodeTitle`: the chunks after the first, added to the subtitle one by one. */
  method JoinPieces(chunks: seq<string>, delimiter: char) returns (subTitle: string)
    requires |chunks| > 1
    ensures subTitle == Pieces(chunks, delimiter, |chunks|)
  {
    subTitle := "";
    var pos := 1;
    while pos < |chunks|
      invariant 1 <= pos <= |chunks|
      invariant subTitle == Pieces(chunks, delimiter, pos)
    {
      var piece := ChunkPiece(chunks, delimiter, pos);
      PiecesStep(chunks, delimiter, pos);
      subTitle := subTitle + piece;
      pos := pos + 1;
    }
  }

  /** Joining one more chunk appends its piece. */
  lemma PiecesStep(chunks: seq<string>, d: char, pos: nat)
    requires 1 <= pos < |chunks|
    ensures Pieces(chunks, d, pos + 1) == Pieces(chunks, d, pos) + Piece(chunks, d, pos)
  {
  }

  /** One pass of the join loop: the text chunk `pos` adds, with the delimiter before it from the third chunk on. */
  method ChunkPiece(chunks: seq<string>, delimiter: char, pos: nat) returns (piece: string)
    requires 1 <= pos < |chunks|
    ensures piece == Piece(chunks, delimiter, pos)
  {
    if |chunks| > 2 {
      piece := (if pos == 1 then "" else [delimiter]) + " " + Trim(chunks[pos], TrimChars);
    } else {
      piece := Trim(chunks[pos], TrimChars);
    }
  }
}
