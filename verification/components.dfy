/** `filterComponents`: searching the documentation site's component catalogue
    with a whole-query fuzzy match, widened for multi-word queries by a
    word-by-word AND filter. The fuzzy matcher itself is a parameter. */
module Components {
  import opened Seqs
  import opened Words
  import opened Rankings

  /** One catalogue entry. */
  datatype Component = Component(key: string, title: string, category: string, keywords: seq<string>)

  /** The fuzzy matcher: given candidates, a query and per-field options, it
      returns the candidates it keeps, ranked. Nothing about it is assumed
      beyond what a lemma states in its own `requires`. */
  type Ranker = (seq<Component>, string, MatchOptions) -> seq<Component>

  /** The matcher only returns candidates it was given. */
  ghost predicate RankerKeepsItems(rank: Ranker) {
    forall items, q, o, x :: x in rank(items, q, o) ==> x in items
  }

  /** The matcher returns no candidate twice when it was given none twice. */
  ghost predicate RankerKeepsDistinct(rank: Ranker) {
    forall items, q, o :: NoDup(items) ==> NoDup(rank(items, q, o))
  }

  /** The distinct words of a query, in order of first appearance. */
  function Searches(searchString: string): seq<string> {
    Dedup(Split(searchString))
  }

  function WordOptions(): MatchOptions {
    IndividualWordOptions(WholeStringOptions())
  }

  /** The survivors after the first `k` distinct words: the first word's
      matches over the whole catalogue, then, word by word, those survivors
      that the next word's match over the survivors also returns. */
  function Survivors(rank: Ranker, components: seq<Component>, words: seq<string>,
                     opts: MatchOptions, k: nat): (r: seq<Component>)
    requires 1 <= k <= |words|
    ensures IsSubsequence(r, rank(components, words[0], opts))
    decreases k
  {
    if k == 1 then
      SubsequenceReflexive(rank(components, words[0], opts));
      rank(components, words[0], opts)
    else
      var prev := Survivors(rank, components, words, opts, k - 1);
      var r := FilterIncluded(prev, rank(prev, words[k - 1], opts));
      SubsequenceTransitive(r, prev, rank(components, words[0], opts));
      r
  }

  /** What `filterComponents` returns. */
  function FilteredComponents(rank: Ranker, components: seq<Component>, searchString: string): (r: seq<Component>)
    ensures searchString == "" ==> r == components
    ensures searchString != "" && |Searches(searchString)| >= 2 ==> NoDup(r)
  {
    if searchString == "" then components
    else
      var allResults := rank(components, searchString, WholeStringOptions());
      var searches := Searches(searchString);
      if |searches| < 2 then allResults
      else if searches[0] == "" then []
      else Dedup(allResults + Survivors(rank, components, searches, WordOptions(), |searches|))
  }

  /** `filterComponents` step by step: the early returns, then the loop that
      narrows the survivors one distinct word at a time. */
  method FilterComponents(rank: Ranker, components: seq<Component>, searchString: string)
    returns (result: seq<Component>)
    ensures result == FilteredComponents(rank, components, searchString)
  {
    if searchString == "" {
      return components;
    }
    var options := WholeStringOptions();
    var allResults := rank(components, searchString, options);
    var searches := Dedup(Split(searchString));
    if |searches| < 2 {
      return allResults;
    }
    var firstWord, restWords := searches[0], searches[1..];
    if firstWord == "" {
      return [];
    }
    var individualWordOptions := IndividualWordOptions(options);
    var individualWordResults := rank(components, firstWord, individualWordOptions);
    for i := 0 to |restWords|
      invariant individualWordResults == Survivors(rank, components, searches, individualWordOptions, i + 1)
    {
      var word := restWords[i];
      var searchResult := rank(individualWordResults, word, individualWordOptions);
      individualWordResults := FilterIncluded(individualWordResults, searchResult);
    }
    result := Dedup(allResults + individualWordResults);
  }

  /** Each further word keeps a subsequence of the previous survivors: the same
      relative order, and never more of them. */
  lemma SurvivorsShrink(rank: Ranker, components: seq<Component>, words: seq<string>,
                        opts: MatchOptions, k: nat)
    requires 1 <= k < |words|
    ensures IsSubsequence(Survivors(rank, components, words, opts, k + 1),
                          Survivors(rank, components, words, opts, k))
    ensures |Survivors(rank, components, words, opts, k + 1)| <= |Survivors(rank, components, words, opts, k)|
  {
  }

  /** A component survives the first `k` words exactly when the first word
      matches it over the whole catalogue and every later word matches it over
      the survivors of the words before. */
  lemma {:induction false} SurvivorMembership(rank: Ranker, components: seq<Component>, words: seq<string>,
                                              opts: MatchOptions, k: nat, x: Component)
    requires 1 <= k <= |words|
    ensures x in Survivors(rank, components, words, opts, k) <==>
      x in rank(components, words[0], opts) &&
      forall j {:trigger Survivors(rank, components, words, opts, j)} :: 1 <= j < k ==>
        x in rank(Survivors(rank, components, words, opts, j), words[j], opts)
    decreases k
  {
    if k > 1 {
      var prev := Survivors(rank, components, words, opts, k - 1);
      var found := rank(prev, words[k - 1], opts);
      assert Survivors(rank, components, words, opts, k) == FilterIncluded(prev, found);
      SurvivorMembership(rank, components, words, opts, k - 1, x);
      if x in prev && x in found {
        forall j | 1 <= j < k
          ensures x in rank(Survivors(rank, components, words, opts, j), words[j], opts)
        {
          if j == k - 1 {
            assert rank(Survivors(rank, components, words, opts, j), words[j], opts) == found;
          }
        }
      }
    }
  }

  /** A query whose space-separated pieces are all the same word (one word,
      or one word repeated) gets the whole-query matches and nothing else. */
  lemma SingleWordIsWholeStringMatch(rank: Ranker, components: seq<Component>, searchString: string)
    requires searchString != ""
    requires forall i, j :: 0 <= i < |Split(searchString)| && 0 <= j < |Split(searchString)| ==>
      Split(searchString)[i] == Split(searchString)[j]
    ensures FilteredComponents(rank, components, searchString) ==
      rank(components, searchString, WholeStringOptions())
  {
    DedupShortIffAllEqual(Split(searchString));
  }

  /** A query of spaces only splits into empty pieces that all collapse to one,
      so it too gets only the whole-query matches. */
  lemma OnlySpacesIsWholeStringMatch(rank: Ranker, components: seq<Component>, searchString: string)
    requires searchString != ""
    requires forall i :: 0 <= i < |searchString| ==> searchString[i] == Space
    ensures |Searches(searchString)| == 1
    ensures FilteredComponents(rank, components, searchString) ==
      rank(components, searchString, WholeStringOptions())
  {
    SplitOnlySpaces(searchString);
    DedupShortIffAllEqual(Split(searchString));
    SingleWordIsWholeStringMatch(rank, components, searchString);
  }

  /** The first distinct word is empty exactly when the query starts with a
      space. */
  lemma EmptyFirstWordIffLeadingSpace(searchString: string)
    requires searchString != ""
    ensures Searches(searchString)[0] == "" <==> searchString[0] == Space
  {
    FirstTokenEmptyIff(searchString);
  }

  /** A query that starts with a space and holds any other character reaches
      the empty-first-word branch: the result is empty, and the whole-query
      matches are dropped with it. */
  lemma {:induction false} LeadingSpaceGivesNothing(rank: Ranker, components: seq<Component>,
                                                    searchString: string, i: nat)
    requires searchString != "" && searchString[0] == Space
    requires i < |searchString| && searchString[i] != Space
    ensures |Searches(searchString)| >= 2 && Searches(searchString)[0] == ""
    ensures FilteredComponents(rank, components, searchString) == []
  {
    var tokens := Split(searchString);
    var d := Searches(searchString);
    EmptyFirstWordIffLeadingSpace(searchString);
    SplitHasNonEmptyToken(searchString, i);
    var k :| 0 <= k < |tokens| && tokens[k] != "";
    assert tokens[k] in d;
    assert d[0] == "";
    var m :| 0 <= m < |d| && d[m] == tokens[k];
    assert m != 0;
  }

  /** On the multi-word path the result is the whole-query matches without
      repeats and in their order, followed by the word-by-word survivors that
      are not among them, in first-occurrence order. */
  lemma MultiWordResultOrder(rank: Ranker, components: seq<Component>, searchString: string)
    requires searchString != ""
    requires |Searches(searchString)| >= 2 && Searches(searchString)[0] != ""
    ensures var allResults := rank(components, searchString, WholeStringOptions());
      var r := FilteredComponents(rank, components, searchString);
      && r == Dedup(allResults) +
              DedupFrom(Survivors(rank, components, Searches(searchString), WordOptions(),
                                  |Searches(searchString)|),
                        Elements(allResults))
      && (NoDup(allResults) ==> |allResults| <= |r| && r[..|allResults|] == allResults)
  {
    var allResults := rank(components, searchString, WholeStringOptions());
    var individualWordResults := Survivors(rank, components, Searches(searchString), WordOptions(),
                                           |Searches(searchString)|);
    DedupFromAppend(allResults, individualWordResults, {});
    assert {} + Elements(allResults) == Elements(allResults);
    if NoDup(allResults) {
      DedupFromNoDup(allResults, {});
    }
  }

  /** On the multi-word path a component is in the result exactly when it is a
      whole-query match or a word-by-word survivor. */
  lemma MultiWordResultMembers(rank: Ranker, components: seq<Component>, searchString: string, x: Component)
    requires searchString != ""
    requires |Searches(searchString)| >= 2 && Searches(searchString)[0] != ""
    ensures x in FilteredComponents(rank, components, searchString) <==>
      x in rank(components, searchString, WholeStringOptions()) ||
      x in Survivors(rank, components, Searches(searchString), WordOptions(), |Searches(searchString)|)
  {
  }

  /** When the matcher only returns candidates it was given, every result is a
      catalogue entry. */
  lemma ResultWithinCatalogue(rank: Ranker, components: seq<Component>, searchString: string)
    requires RankerKeepsItems(rank)
    ensures forall x :: x in FilteredComponents(rank, components, searchString) ==> x in components
  {
    var searches := Searches(searchString);
    if searchString != "" && |searches| >= 2 && searches[0] != "" {
      var individualWordResults := Survivors(rank, components, searches, WordOptions(), |searches|);
      SubsequenceMembers(individualWordResults, rank(components, searches[0], WordOptions()));
    }
  }

  /** A catalogue without repeats gives a result without repeats on every path,
      when the matcher keeps distinct candidates distinct. */
  lemma ResultHasNoDuplicates(rank: Ranker, components: seq<Component>, searchString: string)
    requires NoDup(components)
    requires RankerKeepsDistinct(rank)
    ensures NoDup(FilteredComponents(rank, components, searchString))
  {
    if searchString != "" {
      assert NoDup(rank(components, searchString, WholeStringOptions()));
    }
  }
}
