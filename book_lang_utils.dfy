/** The language codes the renamer knows and the tags it prints for them. */
module BookLangUtils {
  import opened PhpStrings

  const LangRu := "ru"
  const LangEn := "en"
  const LangFr := "fr"
  const LangUk := "uk"
  const LangDe := "de"
  const LangPl := "pl"
  const LangFi := "fi"
  const LangHy := "hy"
  const LangZh := "zh"

  const TitleEn := "[EN]"
  const TitleOldRu := "[Ѣ]"
  const TitleFr := "[FR]"
  const TitleDe := "[DE]"
  const TitleUk := "[UK]"
  const TitlePl := "[PL]"

  /** Language code to file-name tag; Russian, in either spelling, has the empty tag. */
  const LangMap: map<string, string> := map[
    LangRu := "",
    "ru-ru" := "",
    LangEn := TitleEn,
    LangFr := TitleFr,
    LangUk := TitleUk,
    LangDe := TitleDe,
    LangPl := TitlePl
  ]

  /** The map's entries, and what it lacks: three declared codes and the old-Russian tag. */
  lemma LangMapContents()
    ensures LangMap[LangRu] == "" && LangMap["ru-ru"] == ""
    ensures LangMap[LangEn] == "[EN]" && LangMap[LangFr] == "[FR]" && LangMap[LangUk] == "[UK]"
    ensures LangMap[LangDe] == "[DE]" && LangMap[LangPl] == "[PL]"
    ensures LangFi !in LangMap && LangHy !in LangMap && LangZh !in LangMap
    ensures TitleOldRu !in LangMap.Values
    ensures |LangMap| == 7
  {
    assert LangMap.Keys == {LangRu, "ru-ru", LangEn, LangFr, LangUk, LangDe, LangPl};
    assert LangMap.Values == {"", TitleEn, TitleFr, TitleUk, TitleDe, TitlePl};
  }

  /** `checkIsOldRussian`: the lower-cased sample holds at least two yats. */
  function CheckIsOldRussian(sample: string, cs: Casing): bool {
    CountChar(Lower(cs, sample), 'ѣ') >= 2
  }

  /** Under a case mapping that sends exactly the two yats to the small yat, lower-casing counts both. */
  lemma {:induction false} LowerCountsBothYats(s: string, cs: Casing)
    requires cs.lower('Ѣ') == 'ѣ' && cs.lower('ѣ') == 'ѣ'
    requires forall c :: cs.lower(c) == 'ѣ' ==> c == 'Ѣ' || c == 'ѣ'
    ensures CountChar(Lower(cs, s), 'ѣ') == CountChar(s, 'Ѣ') + CountChar(s, 'ѣ')
    decreases |s|
  {
    if s != [] {
      LowerCountsBothYats(s[1..], cs);
      assert Lower(cs, s) == [cs.lower(s[0])] + Lower(cs, s[1..]);
    }
  }

  /** A sample is old Russian iff it holds at least two yats, capital or small. */
  lemma OldRussianCountsBothCases(sample: string, cs: Casing)
    requires cs.lower('Ѣ') == 'ѣ' && cs.lower('ѣ') == 'ѣ'
    requires forall c :: cs.lower(c) == 'ѣ' ==> c == 'Ѣ' || c == 'ѣ'
    ensures CheckIsOldRussian(sample, cs) <==> CountChar(sample, 'Ѣ') + CountChar(sample, 'ѣ') >= 2
  {
    LowerCountsBothYats(sample, cs);
  }
}
