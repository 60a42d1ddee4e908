/**
 * Genre votes: whether a book counts as fiction (a strict majority of its
 * genres vote fiction) and whether it is poetry (some genre mentions
 * poetry). The parser's loops that compute these are in module FictionBook.
 */
module GenreClassifier {
  import opened PhpStrings

  /** The alternatives of the fiction pattern that may match anywhere in a genre. */
  const FictionMarkers: seq<string> :=
    ["prose", "detective", "thriller", "sf_", "horror", "dramaturgy", "det_", "humor", "child", "poetry", "adventure"]

  /** The fiction pattern: a marker anywhere, or "story" at the very start. */
  predicate MatchesFictionPattern(g: string) {
    (exists k :: 0 <= k < |FictionMarkers| && Contains(g, FictionMarkers[k])) || OccursAt(g, "story", 0)
  }

  /**
   * The vote of one genre as the code casts it: the fiction pattern, or an
   * `adv_` genre whose lower-cased form does not hold `adv_geo` or
   * `adv_animal` after its first character (a match at position 0 is falsy).
   */
  predicate VotesFictionAsWritten(cs: Casing, g: string) {
    MatchesFictionPattern(g) ||
    (Contains(g, "adv_") && !FoundAfterStart(Lower(cs, g), "adv_geo") && !FoundAfterStart(Lower(cs, g), "adv_animal"))
  }

  /** The vote of one genre with the travel and nature exclusions applied wherever they occur. */
  predicate VotesFiction(cs: Casing, g: string) {
    MatchesFictionPattern(g) ||
    (Contains(g, "adv_") && !Contains(Lower(cs, g), "adv_geo") && !Contains(Lower(cs, g), "adv_animal"))
  }

  /** A genre's vote as the parser casts it, as a value the counting functions can take. */
  function Voter(cs: Casing): string -> bool {
    g => VotesFictionAsWritten(cs, g)
  }

  /** The number of genres the vote accepts. */
  function CountVotes(vote: string -> bool, gs: seq<string>): (n: nat)
    ensures n <= |gs|
    decreases |gs|
  {
    if gs == [] then 0
    else CountVotes(vote, gs[..|gs| - 1]) + (if vote(gs[|gs| - 1]) then 1 else 0)
  }

  /** The count is the full length exactly when every genre is accepted, and zero exactly when none is. */
  lemma {:induction false} CountVotesUnanimous(vote: string -> bool, gs: seq<string>)
    ensures CountVotes(vote, gs) == |gs| <==> forall i :: 0 <= i < |gs| ==> vote(gs[i])
    ensures CountVotes(vote, gs) == 0 <==> forall i :: 0 <= i < |gs| ==> !vote(gs[i])
    decreases |gs|
  {
    if gs != [] {
      var init := gs[..|gs| - 1];
      CountVotesUnanimous(vote, init);
      assert forall i :: 0 <= i < |init| ==> init[i] == gs[i];
    }
  }

  /** The number of genres that vote fiction. */
  function FictionVotes(cs: Casing, gs: seq<string>): nat {
    CountVotes(Voter(cs), gs)
  }

  /** More genres vote fiction than not. */
  predicate FictionWins(cs: Casing, gs: seq<string>) {
    FictionVotes(cs, gs) > |gs| - FictionVotes(cs, gs)
  }

  /** Some genre mentions poetry. */
  predicate HasPoetry(gs: seq<string>) {
    exists i :: 0 <= i < |gs| && Contains(gs[i], "poetry")
  }

  /** Counting one more genre. */
  lemma CountVotesSnoc(vote: string -> bool, gs: seq<string>, i: int)
    requires 0 <= i < |gs|
    ensures CountVotes(vote, gs[..i + 1]) == CountVotes(vote, gs[..i]) + (if vote(gs[i]) then 1 else 0)
  {
    assert gs[..i + 1][..i] == gs[..i];
  }

  /** The count is the size of the set of accepted positions. */
  lemma {:induction false} CountVotesCountsVoters(vote: string -> bool, gs: seq<string>)
    ensures CountVotes(vote, gs) == |set i | 0 <= i < |gs| && vote(gs[i])|
    decreases |gs|
  {
    if gs != [] {
      var init := gs[..|gs| - 1];
      CountVotesCountsVoters(vote, init);
      var before := set i | 0 <= i < |init| && vote(init[i]);
      var after := set i | 0 <= i < |gs| && vote(gs[i]);
      if vote(gs[|gs| - 1]) {
        assert after == before + {|gs| - 1};
      } else {
        assert after == before;
      }
    }
  }

  /** The counts of a concatenation add up, so the verdict depends on the genres and not on how they were split among sections. */
  lemma {:induction false} CountVotesAppend(vote: string -> bool, a: seq<string>, b: seq<string>)
    ensures CountVotes(vote, a + b) == CountVotes(vote, a) + CountVotes(vote, b)
    decreases |b|
  {
    if b == [] {
      assert a + b == a;
    } else {
      var ab := a + b;
      assert ab[..|ab| - 1] == a + b[..|b| - 1];
      assert ab[|ab| - 1] == b[|b| - 1];
      CountVotesAppend(vote, a, b[..|b| - 1]);
    }
  }

  /** No genres, or a tie, means not fiction; unanimous genres decide. */
  lemma MajorityCases(cs: Casing, gs: seq<string>)
    ensures gs == [] ==> !FictionWins(cs, gs)
    ensures 2 * FictionVotes(cs, gs) == |gs| ==> !FictionWins(cs, gs)
    ensures gs != [] && (forall i :: 0 <= i < |gs| ==> VotesFictionAsWritten(cs, gs[i])) ==> FictionWins(cs, gs)
    ensures (forall i :: 0 <= i < |gs| ==> !VotesFictionAsWritten(cs, gs[i])) ==> !FictionWins(cs, gs)
  {
    CountVotesUnanimous(Voter(cs), gs);
  }

  /** A genre that mentions poetry always votes fiction, so a poetry genre pushes towards fiction. */
  lemma PoetryVotesFiction(cs: Casing, g: string)
    requires Contains(g, "poetry")
    ensures VotesFiction(cs, g) && VotesFictionAsWritten(cs, g)
  {
    assert FictionMarkers[9] == "poetry";
  }

  /** A needle whose first two characters never appear side by side in `h` does not occur in it. */
  lemma NoOccurrence(h: string, n: string)
    requires |n| >= 2
    requires forall j :: 0 <= j < |h| - 1 ==> h[j] != n[0] || h[j + 1] != n[1]
    ensures !Contains(h, n)
  {
    forall j ensures !OccursAt(h, n, j) {
      if 0 <= j && j + |n| <= |h| {
        assert h[j..j + |n|][0] == h[j] && h[j..j + |n|][1] == h[j + 1];
      }
    }
  }

  /** "adv_geo" holds none of the fiction markers. */
  lemma AdvGeoNotFictionPattern()
    ensures !MatchesFictionPattern("adv_geo")
  {
    var g := "adv_geo";
    forall k | 0 <= k < |FictionMarkers| ensures !Contains(g, FictionMarkers[k]) {
      var m := FictionMarkers[k];
      if |m| > |g| {
        assert !OccursAt(g, m, 0);
      } else if m == "det_" {
        NoOccurrence(g, m);
      } else {
        assert m[0] in "pshc";
        FirstCharAbsent(g, m);
      }
    }
    assert g[..5] != "story" by {
      assert g[..5][0] != 's';
    }
  }

  /**
   * The exclusion misses a genre that starts with the excluded code: the
   * FB2 genre `adv_geo` (travel and geography) votes fiction as written,
   * and not fiction with the exclusion applied.
   */
  lemma AdvGeoVotesFictionAsWritten(cs: Casing)
    requires Lower(cs, "adv_geo") == "adv_geo"
    ensures VotesFictionAsWritten(cs, "adv_geo")
    ensures !VotesFiction(cs, "adv_geo")
  {
    AdvGeoNotFictionPattern();
    assert OccursAt("adv_geo", "adv_", 0);
    assert OccursAt("adv_geo", "adv_geo", 0);
    assert !Contains("adv_geo", "adv_animal");
  }

  /** As written, a book whose only genre is `adv_geo` counts as fiction. */
  lemma AdvGeoBookIsFiction(cs: Casing)
    requires Lower(cs, "adv_geo") == "adv_geo"
    ensures FictionWins(cs, ["adv_geo"])
  {
    AdvGeoVotesFictionAsWritten(cs);
    CountVotesUnanimous(Voter(cs), ["adv_geo"]);
  }

  /** The majority verdict with the exclusion applied wherever the excluded codes occur. */
  predicate CorrectedFictionWins(cs: Casing, gs: seq<string>) {
    var n := CountVotes(g => VotesFiction(cs, g), gs);
    n > |gs| - n
  }

  /** With the exclusion applied, the same book does not count as fiction. */
  lemma AdvGeoBookNotFictionCorrected(cs: Casing)
    requires Lower(cs, "adv_geo") == "adv_geo"
    ensures !CorrectedFictionWins(cs, ["adv_geo"])
  {
    AdvGeoVotesFictionAsWritten(cs);
    CountVotesUnanimous(g => VotesFiction(cs, g), ["adv_geo"]);
  }

  /** With the exclusion applied, a genre holding `adv_geo` or `adv_animal` votes fiction only through the fiction pattern. */
  lemma ExcludedAdventureNeedsPattern(cs: Casing, g: string)
    requires Contains(Lower(cs, g), "adv_geo") || Contains(Lower(cs, g), "adv_animal")
    ensures VotesFiction(cs, g) <==> MatchesFictionPattern(g)
  {
  }
}
