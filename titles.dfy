/**
 * How the parser turns the FB2 title elements into a title and a subtitle:
 * splitting a title at a delimiter, telling bibliographic descriptions
 * apart, removing an author's name from a title, and choosing between the
 * title-info and publish-info sections. The parser's methods that compute
 * these step by step are in module FictionBook.
 */
module Titles {
  import opened Wrappers
  import opened PhpStrings
  import opened People
  import opened Collector

  /** A title and its subtitle; "" stands for no subtitle. */
  datatype TitlePair = TitlePair(title: string, subtitle: string)

  /** The delimiters `splitTitle` tries, in its order: point, semicolon, colon, slash, question mark, exclamation mark. */
  const Delimiters: seq<char> := ['.', ';', ':', '/', '?', '!']

  // ---------------------------------------------------------------------
  // explodeTitle

  /**
   * What chunk `pos` adds to the subtitle: with two chunks the trimmed
   * chunk; with more, a space and the trimmed chunk, preceded by the
   * delimiter from the third chunk on.
   */
  function Piece(chunks: seq<string>, d: char, pos: nat): string
    requires 1 <= pos < |chunks|
  {
    if |chunks| > 2 then (if pos == 1 then "" else [d]) + " " + Trim(chunks[pos], TrimChars)
    else Trim(chunks[pos], TrimChars)
  }

  /** The pieces of chunks 1 .. upto-1, joined. */
  function Pieces(chunks: seq<string>, d: char, upto: nat): string
    requires 1 <= upto <= |chunks|
    decreases upto
  {
    if upto == 1 then "" else Pieces(chunks, d, upto - 1) + Piece(chunks, d, upto - 1)
  }

  /** The first character upper-cased, the rest unchanged. */
  function Capitalize(cs: Casing, s: string): (r: string)
    ensures |r| == |s|
    ensures s != [] ==> r[0] == cs.upper(s[0]) && r[1..] == s[1..]
  {
    UpperInitial(cs, s) + (if s == [] then "" else s[1..])
  }

  /**
   * `explodeTitle`: the text before the first delimiter is the title; the
   * rest, re-joined as `Pieces` says, is the subtitle, capitalised, or ""
   * when it is empty in PHP's sense.
   */
  function ExplodeSpec(cs: Casing, s: string, d: char): TitlePair {
    var chunks := Explode(s, d);
    var sub := if |chunks| > 1 then Pieces(chunks, d, |chunks|) else "";
    TitlePair(if |chunks| > 1 then chunks[0] else s, if Empty(sub) then "" else Capitalize(cs, sub))
  }

  /** `splitTitle`: one split per delimiter, in the order of `Delimiters`. */
  function Candidates(cs: Casing, s: string): (r: seq<TitlePair>)
    ensures |r| == |Delimiters|
    ensures forall i :: 0 <= i < |r| ==> r[i] == ExplodeSpec(cs, s, Delimiters[i])
  {
    [ExplodeSpec(cs, s, '.'), ExplodeSpec(cs, s, ';'), ExplodeSpec(cs, s, ':'),
     ExplodeSpec(cs, s, '/'), ExplodeSpec(cs, s, '?'), ExplodeSpec(cs, s, '!')]
  }

  /** Without the delimiter the whole string is the title and there is no subtitle. */
  lemma NoDelimiterNoSubtitle(cs: Casing, s: string, d: char)
    requires d !in s
    ensures ExplodeSpec(cs, s, d) == TitlePair(s, "")
  {
    ExplodeNoDelimiter(s, d);
  }

  /** With one delimiter, the title is the text before it and the subtitle the trimmed, capitalised text after it. */
  lemma {:induction false} OneDelimiterSplit(cs: Casing, t: string, u: string, d: char)
    requires d !in t && d !in u
    ensures ExplodeSpec(cs, t + [d] + u, d) ==
            TitlePair(t, if Empty(Trim(u, TrimChars)) then "" else Capitalize(cs, Trim(u, TrimChars)))
  {
    ExplodeAtFirst(t, u, d);
    ExplodeNoDelimiter(u, d);
    var chunks := Explode(t + [d] + u, d);
    assert chunks == [t, u];
    assert Pieces(chunks, d, 2) == Trim(u, TrimChars);
  }

  lemma {:induction false} PiecesStartWithSpace(chunks: seq<string>, d: char, upto: nat)
    requires |chunks| > 2 && 2 <= upto <= |chunks|
    ensures |Pieces(chunks, d, upto)| >= 1 && Pieces(chunks, d, upto)[0] == ' '
    decreases upto
  {
    if upto > 2 {
      PiecesStartWithSpace(chunks, d, upto - 1);
    }
  }

  /**
   * With two or more delimiters the subtitle is never empty, even when
   * every chunk after the first is blank, and it starts with the space the
   * joining puts first, so capitalising does not reach its first letter.
   */
  lemma ManyDelimitersAlwaysSubtitle(cs: Casing, s: string, d: char)
    requires |Explode(s, d)| > 2
    ensures ExplodeSpec(cs, s, d).subtitle != ""
    ensures cs.upper(' ') == ' ' ==> ExplodeSpec(cs, s, d).subtitle[0] == ' '
  {
    var chunks := Explode(s, d);
    PiecesStartWithSpace(chunks, d, |chunks|);
  }

  // ---------------------------------------------------------------------
  // isBibliographyDescription

  /** The pattern `.\s?—` matches at `i`: a character other than a newline, an optional white space, an em dash. */
  predicate DashAt(s: string, i: int) {
    0 <= i < |s| && s[i] != '\n' &&
    ((i + 1 < |s| && s[i + 1] == '—') || (i + 2 < |s| && s[i + 1] in PcreSpace && s[i + 2] == '—'))
  }

  /** `isBibliographyDescription`: the title reads like a catalogue entry ("Title — Publisher"). */
  predicate IsBibliographyDescription(s: string) {
    exists i :: 0 <= i < |s| && DashAt(s, i)
  }

  /** A bibliographic description has an em dash somewhere after its first character. */
  lemma BibliographyNeedsDash(s: string)
    requires IsBibliographyDescription(s)
    ensures exists j :: 0 < j < |s| && s[j] == '—'
  {
    var i :| 0 <= i < |s| && DashAt(s, i);
    assert 0 <= i < |s| && ((i + 1 < |s| && s[i + 1] == '—') || (i + 2 < |s| && s[i + 2] == '—'));
    if i + 1 < |s| && s[i + 1] == '—' {
      assert 0 < i + 1 < |s|;
    } else {
      assert 0 < i + 2 < |s|;
    }
  }

  /** An em dash right after any character but a newline makes a bibliographic description. */
  lemma DashAfterTextIsBibliography(s: string, j: int)
    requires 0 < j < |s| && s[j] == '—' && s[j - 1] != '\n'
    ensures IsBibliographyDescription(s)
  {
    assert DashAt(s, j - 1);
  }

  // ---------------------------------------------------------------------
  // cleanAuthorNameFromTitle

  /** "Last First Middle", a missing part printed as "". */
  function FullName(p: Person): string {
    OrEmpty(p.lastName) + " " + OrEmpty(p.firstName) + " " + OrEmpty(p.middleName)
  }

  /** "Last F. M.", the initials upper-cased. */
  function ShortName(cs: Casing, p: Person): string {
    OrEmpty(p.lastName) + " " + UpperInitial(cs, OrEmpty(p.firstName)) + ". " + UpperInitial(cs, OrEmpty(p.middleName)) + "."
  }

  /**
   * `cleanAuthorNameFromTitle`: removes the full name and the short name
   * where they are found after the first character; when neither was,
   * removes every occurrence of the last name and then of the first name;
   * trims the result.
   */
  function CleanAuthorName(cs: Casing, title: string, author: Person): (r: string)
    ensures |r| <= |title|
    ensures r == [] || (r[0] !in TrimChars && r[|r| - 1] !in TrimChars)
  {
    TrimFacts(RemoveNames(cs, title, author), TrimChars);
    Trim(RemoveNames(cs, title, author), TrimChars)
  }

  /** `cleanAuthorNameFromTitle` before its final trim. */
  function RemoveNames(cs: Casing, title: string, author: Person): (t: string)
    ensures |t| <= |title|
  {
    var full := FullName(author);
    var short := ShortName(cs, author);
    var t1 := RemoveIfFound(title, full);
    var t2 := RemoveIfFound(t1, short);
    if FoundAfterStart(title, full) || FoundAfterStart(t1, short) then t2
    else StrReplace(StrReplace(t2, OrEmpty(author.lastName), ""), OrEmpty(author.firstName), "")
  }

  /** Every occurrence of `name` removed, when it is found after the first character. */
  function RemoveIfFound(title: string, name: string): (t: string)
    ensures |t| <= |title|
  {
    if FoundAfterStart(title, name) then StrReplace(title, name, "") else title
  }

  /** A name that starts with a part the title lacks is not in the title. */
  lemma AbsentPrefixAbsent(title: string, part: string, rest: string)
    requires !Contains(title, part)
    ensures forall j :: !OccursAt(title, part + rest, j)
  {
    forall j | OccursAt(title, part + rest, j) ensures false {
      OccursPrefix(title, part, rest, j);
    }
  }

  /** A title with no trace of the author's last or first name is only trimmed. */
  lemma {:induction false} AbsentAuthorOnlyTrims(cs: Casing, title: string, author: Person)
    requires !Contains(title, OrEmpty(author.lastName))
    requires OrEmpty(author.firstName) == "" || !Contains(title, OrEmpty(author.firstName))
    ensures CleanAuthorName(cs, title, author) == Trim(title, TrimChars)
  {
    var last := OrEmpty(author.lastName);
    var first := OrEmpty(author.firstName);
    assert FullName(author) == last + (" " + first + " " + OrEmpty(author.middleName));
    AbsentPrefixAbsent(title, last, " " + first + " " + OrEmpty(author.middleName));
    assert ShortName(cs, author) ==
           last + (" " + UpperInitial(cs, first) + ". " + UpperInitial(cs, OrEmpty(author.middleName)) + ".");
    AbsentPrefixAbsent(title, last, " " + UpperInitial(cs, first) + ". " + UpperInitial(cs, OrEmpty(author.middleName)) + ".");
    StrReplaceAbsent(title, last, "");
    if first != "" {
      StrReplaceAbsent(title, first, "");
    }
  }

  // ---------------------------------------------------------------------
  // processTitles

  /** `[` and `]` become parentheses before a title is split. */
  function NormalizeBrackets(s: string): (r: string)
    ensures '[' !in r && ']' !in r
    ensures forall c :: c in r ==> c in s || c == '(' || c == ')'
  {
    StrReplace(StrReplace(s, "[", "("), "]", ")")
  }

  /** The candidates of a section's title, when it has one. */
  function SplitOf(cs: Casing, s: string): Option<seq<TitlePair>> {
    if Empty(s) then None else Some(Candidates(cs, NormalizeBrackets(s)))
  }

  /** The title-info choice: the first candidate with a subtitle; failing that, the last candidate's title alone. */
  function PrimaryChoice(cands: seq<TitlePair>): (r: TitlePair)
    ensures r.subtitle == "" || exists i :: 0 <= i < |cands| && r == cands[i]
    ensures !Empty(r.subtitle) ==>
              exists i :: 0 <= i < |cands| && r == cands[i] && forall j :: 0 <= j < i ==> Empty(cands[j].subtitle)
    ensures Empty(r.subtitle) ==> r.subtitle == "" && forall i :: 0 <= i < |cands| ==> Empty(cands[i].subtitle)
    ensures Empty(r.subtitle) && cands != [] ==> r.title == cands[|cands| - 1].title
    decreases |cands|
  {
    if cands == [] then TitlePair("", "")
    else if !Empty(cands[0].subtitle) then cands[0]
    else if |cands| == 1 then TitlePair(cands[0].title, "")
    else
      var r := PrimaryChoice(cands[1..]);
      assert !Empty(r.subtitle) ==>
               exists i :: 0 <= i < |cands| && r == cands[i] && forall j :: 0 <= j < i ==> Empty(cands[j].subtitle) by {
        if !Empty(r.subtitle) {
          var k :| 0 <= k < |cands[1..]| && r == cands[1..][k] && forall j :: 0 <= j < k ==> Empty(cands[1..][j].subtitle);
          assert r == cands[k + 1];
          assert forall j :: 0 <= j < k + 1 ==> Empty(cands[j].subtitle) by {
            forall j | 0 <= j < k + 1 ensures Empty(cands[j].subtitle) {
              if j > 0 {
                assert cands[j] == cands[1..][j - 1];
              }
            }
          }
        }
      }
      r
  }

  /** A publish-info candidate worth taking: it has a subtitle and neither part is a bibliographic description. */
  predicate Publishable(p: TitlePair) {
    !Empty(p.subtitle) && !IsBibliographyDescription(p.title) && !IsBibliographyDescription(p.subtitle)
  }

  /** The first publishable candidate. */
  function FirstPublishable(cands: seq<TitlePair>): (r: Option<TitlePair>)
    ensures r.None? <==> forall i :: 0 <= i < |cands| ==> !Publishable(cands[i])
    ensures r.Some? ==> Publishable(r.value)
    ensures r.Some? ==>
              exists i :: 0 <= i < |cands| && cands[i] == r.value && forall j :: 0 <= j < i ==> !Publishable(cands[j])
    decreases |cands|
  {
    if cands == [] then None
    else if Publishable(cands[0]) then Some(cands[0])
    else
      var r := FirstPublishable(cands[1..]);
      assert r.Some? ==>
               exists i :: 0 <= i < |cands| && cands[i] == r.value && forall j :: 0 <= j < i ==> !Publishable(cands[j]) by {
        if r.Some? {
          var k :| 0 <= k < |cands[1..]| && cands[1..][k] == r.value && forall j :: 0 <= j < k ==> !Publishable(cands[1..][j]);
          assert cands[k + 1] == r.value;
          forall j | 0 <= j < k + 1 ensures !Publishable(cands[j]) {
            if j > 0 {
              assert cands[j] == cands[1..][j - 1];
            }
          }
        }
      }
      assert r.None? ==> forall i :: 0 <= i < |cands| ==> !Publishable(cands[i]) by {
        if r.None? {
          forall i | 0 <= i < |cands| ensures !Publishable(cands[i]) {
            if i > 0 {
              assert cands[i] == cands[1..][i - 1];
            }
          }
        }
      }
      r
  }

  /** A part that holds a slash keeps only its trimmed text before the first slash. */
  function CutAtSlash(s: string): (r: string)
    ensures '/' !in r
    ensures '/' !in s ==> r == s
  {
    var chunks := Explode(s, '/');
    if |chunks| > 1 then TrimFacts(chunks[0], TrimChars); Trim(chunks[0], TrimChars) else s
  }

  /** The part cleaned of each author's name in turn. */
  function StripAuthors(cs: Casing, s: string, authors: seq<Person>): (r: string)
    ensures |r| <= |s|
    decreases |authors|
  {
    if authors == [] then s else StripAuthors(cs, CleanAuthorName(cs, s, authors[0]), authors[1..])
  }

  /**
   * The publish-info subtitle replaces the chosen one when it is not empty,
   * longer than two characters once trimmed, and not found in the chosen
   * title; when it holds the title, the title is cut out of it and the
   * points and then the colons at its ends are trimmed.
   */
  function AdoptedSubtitle(title: string, pubSub: string): (r: Option<string>)
    ensures r.Some? <==> !Empty(pubSub) && |Trim(pubSub, TrimChars)| > 2 && !Contains(title, pubSub)
    ensures r.Some? && !Contains(pubSub, title) ==> r.value == pubSub
    ensures r.Some? && Contains(pubSub, title) ==>
              |r.value| <= |pubSub| && (r.value == [] || (r.value[0] != ':' && r.value[|r.value| - 1] != ':'))
  {
    if !Empty(pubSub) && |Trim(pubSub, TrimChars)| > 2 && StrPos(title, pubSub).None? then
      Some(if Contains(pubSub, title) then CutTitle(pubSub, title) else pubSub)
    else None
  }

  /** The publish-info subtitle with the title cut out of it and the points, then the colons, trimmed from its ends. */
  function CutTitle(pubSub: string, title: string): (r: string)
    ensures |r| <= |pubSub| && (r == [] || (r[0] != ':' && r[|r| - 1] != ':'))
  {
    var points := Trim(StrReplace(pubSub, title, ""), {'.'});
    TrimFacts(StrReplace(pubSub, title, ""), {'.'});
    TrimFacts(points, {':'});
    Trim(points, {':'})
  }

  /** What the publish-info section leaves of the chosen pair before the final trim. */
  function WithPublication(cs: Casing, sel: TitlePair, publish: Option<seq<TitlePair>>, authors: seq<Person>): TitlePair {
    if !Empty(sel.subtitle) || publish.None? then sel
    else
      match FirstPublishable(publish.value)
      case None => sel
      case Some(p) =>
        match AdoptedSubtitle(sel.title, StripAuthors(cs, CutAtSlash(p.subtitle), authors))
        case Some(sub) => sel.(subtitle := sub)
        case None => sel
  }

  /**
   * `processTitles`: the title-info choice, its subtitle possibly taken from
   * publish-info, both with leading and trailing white space removed.
   */
  function SelectTitles(cs: Casing, raw: RawFieldMap, authors: seq<Person>): TitlePair {
    TrimPair(WithPublication(cs, PrimarySelection(cs, raw), SplitOf(cs, Get(raw, BookName)), authors))
  }

  /** The title-info choice, or an empty pair when title-info has no title. */
  function PrimarySelection(cs: Casing, raw: RawFieldMap): TitlePair {
    var primary := SplitOf(cs, Get(raw, BookTitle));
    if primary.Some? then PrimaryChoice(primary.value) else TitlePair("", "")
  }

  /** Both parts with leading and trailing white space removed. */
  function TrimPair(p: TitlePair): (r: TitlePair)
    ensures r.title == [] || (r.title[0] !in PcreSpace && r.title[|r.title| - 1] !in PcreSpace)
    ensures r.subtitle == [] || (r.subtitle[0] !in PcreSpace && r.subtitle[|r.subtitle| - 1] !in PcreSpace)
  {
    TrimFacts(p.title, PcreSpace);
    TrimFacts(p.subtitle, PcreSpace);
    TitlePair(Trim(p.title, PcreSpace), Trim(p.subtitle, PcreSpace))
  }

  /** The publish-info step keeps the chosen title. */
  lemma WithPublicationKeepsTitle(cs: Casing, sel: TitlePair, publish: Option<seq<TitlePair>>, authors: seq<Person>)
    ensures WithPublication(cs, sel, publish, authors).title == sel.title
  {
  }

  /** The title comes from title-info alone: publish-info never changes it. */
  lemma PublicationNeverSetsTitle(cs: Casing, raw: RawFieldMap, authors: seq<Person>)
    ensures SelectTitles(cs, raw, authors).title ==
            SelectTitles(cs, raw.(scalars := raw.scalars - {BookName}), authors).title
  {
    var raw' := raw.(scalars := raw.scalars - {BookName});
    assert Get(raw', BookTitle) == Get(raw, BookTitle);
    assert PrimarySelection(cs, raw') == PrimarySelection(cs, raw);
    WithPublicationKeepsTitle(cs, PrimarySelection(cs, raw), SplitOf(cs, Get(raw, BookName)), authors);
    WithPublicationKeepsTitle(cs, PrimarySelection(cs, raw), SplitOf(cs, Get(raw', BookName)), authors);
  }

  /** Once a title-info candidate has a subtitle, publish-info is not consulted at all. */
  lemma PrimarySubtitleWins(cs: Casing, raw: RawFieldMap, authors: seq<Person>, i: int)
    requires !Empty(Get(raw, BookTitle))
    requires 0 <= i < |Delimiters| && !Empty(Candidates(cs, NormalizeBrackets(Get(raw, BookTitle)))[i].subtitle)
    ensures SelectTitles(cs, raw, authors) == SelectTitles(cs, raw.(scalars := raw.scalars - {BookName}), [])
  {
    var raw' := raw.(scalars := raw.scalars - {BookName});
    assert Get(raw', BookTitle) == Get(raw, BookTitle);
    var sel := PrimarySelection(cs, raw);
    assert PrimarySelection(cs, raw') == sel;
    assert !Empty(sel.subtitle) by {
      var cands := Candidates(cs, NormalizeBrackets(Get(raw, BookTitle)));
      assert !Empty(cands[i].subtitle);
      assert sel == PrimaryChoice(cands);
    }
    assert WithPublication(cs, sel, SplitOf(cs, Get(raw, BookName)), authors) == sel;
    assert WithPublication(cs, sel, SplitOf(cs, Get(raw', BookName)), []) == sel;
  }

  /**
   * A title-info title with none of the delimiters, and no publish-info
   * book name, is taken whole (brackets made parentheses, white space
   * trimmed) and gets no subtitle.
   */
  lemma {:induction false} PlainTitleTakenWhole(cs: Casing, raw: RawFieldMap, authors: seq<Person>)
    requires !Empty(Get(raw, BookTitle)) && Empty(Get(raw, BookName))
    requires forall i :: 0 <= i < |Delimiters| ==> Delimiters[i] !in Get(raw, BookTitle)
    ensures SelectTitles(cs, raw, authors) ==
            TitlePair(Trim(NormalizeBrackets(Get(raw, BookTitle)), PcreSpace), "")
  {
    var s := NormalizeBrackets(Get(raw, BookTitle));
    forall i | 0 <= i < |Delimiters| ensures Delimiters[i] !in s {
      assert Delimiters[i] != '(' && Delimiters[i] != ')';
    }
    PlainCandidates(cs, s);
    var sel := PrimarySelection(cs, raw);
    assert sel == TitlePair(s, "");
    assert WithPublication(cs, sel, SplitOf(cs, Get(raw, BookName)), authors) == sel;
    assert Trim("", PcreSpace) == "";
  }

  /** A string holding none of the delimiters gives the same title-only candidate for each, and so is chosen whole. */
  lemma PlainCandidates(cs: Casing, s: string)
    requires forall i :: 0 <= i < |Delimiters| ==> Delimiters[i] !in s
    ensures PrimaryChoice(Candidates(cs, s)) == TitlePair(s, "")
  {
    var cands := Candidates(cs, s);
    forall i | 0 <= i < |cands| ensures cands[i] == TitlePair(s, "") {
      NoDelimiterNoSubtitle(cs, s, Delimiters[i]);
    }
    assert PrimaryChoice(cands).title == cands[5].title;
  }
}
