/** The option records that `filterComponents` hands to its fuzzy matcher:
    for each searched field, the lowest relevance tier that keeps a component
    (`threshold`) and, optionally, the highest tier the field may score
    (`maxRanking`). */
module Rankings {

  datatype Option<T> = None | Some(value: T)

  /** The relevance tiers the filter names, from worst to best. */
  datatype Ranking = NoMatch | Contains | WordStartsWith | CaseSensitiveEqual

  /** Position of a tier in the total order
      CaseSensitiveEqual > WordStartsWith > Contains > NoMatch. */
  function Level(r: Ranking): (n: nat)
    ensures n <= 3
    ensures r == NoMatch <==> n == 0
  {
    match r
    case NoMatch => 0
    case Contains => 1
    case WordStartsWith => 2
    case CaseSensitiveEqual => 3
  }

  /** The tiers are strictly ordered
      CaseSensitiveEqual > WordStartsWith > Contains > NoMatch, and distinct
      tiers have distinct levels. */
  lemma TierOrder(a: Ranking, b: Ranking)
    ensures Level(NoMatch) < Level(Contains) < Level(WordStartsWith) < Level(CaseSensitiveEqual)
    ensures Level(a) == Level(b) <==> a == b
  {
  }

  /** The searched fields: `key`, `title`, and each entry of `keywords`
      (`'keywords.*'`). */
  datatype Field = Key | Title | EachKeyword

  datatype KeyOption = KeyOption(field: Field, threshold: Ranking, maxRanking: Option<Ranking>)

  datatype MatchOptions = MatchOptions(keys: seq<KeyOption>)

  /** The tier a field ends up with: its raw tier, lowered to the cap when the
      option sets one. */
  function Clamp(k: KeyOption, raw: Ranking): (r: Ranking)
    ensures Level(r) <= Level(raw)
    ensures k.maxRanking.Some? ==> Level(r) <= Level(k.maxRanking.value)
    ensures k.maxRanking.None? || Level(raw) <= Level(k.maxRanking.value) ==> r == raw
    ensures k.maxRanking.Some? && Level(raw) > Level(k.maxRanking.value) ==> r == k.maxRanking.value
  {
    if k.maxRanking.Some? && Level(raw) > Level(k.maxRanking.value) then k.maxRanking.value else raw
  }

  /** Whether a field whose raw tier is `raw` keeps the component. */
  predicate Retains(k: KeyOption, raw: Ranking) {
    Level(Clamp(k, raw)) >= Level(k.threshold)
  }

  /** The whole-query options: `key` and `title` need at least a substring
      match; each keyword needs one too and is capped at that tier. */
  function WholeStringOptions(): (o: MatchOptions)
    ensures |o.keys| == 3
    ensures o.keys[0].field == Key && o.keys[1].field == Title && o.keys[2].field == EachKeyword
    ensures forall i :: 0 <= i < |o.keys| ==> o.keys[i].threshold == Contains
    ensures o.keys[0].maxRanking == None && o.keys[1].maxRanking == None
    ensures o.keys[2].maxRanking == Some(Contains)
  {
    MatchOptions([
      KeyOption(Key, Contains, None),
      KeyOption(Title, Contains, None),
      KeyOption(EachKeyword, Contains, Some(Contains))
    ])
  }

  /** The per-word options: the same fields, each now requiring at least a
      word-start match and capped only at case-sensitive equality. */
  function IndividualWordOptions(o: MatchOptions): (w: MatchOptions)
    ensures |w.keys| == |o.keys|
    ensures forall i :: 0 <= i < |o.keys| ==>
      w.keys[i] == KeyOption(o.keys[i].field, WordStartsWith, Some(CaseSensitiveEqual))
  {
    MatchOptions(seq(|o.keys|, i requires 0 <= i < |o.keys| =>
      o.keys[i].(maxRanking := Some(CaseSensitiveEqual), threshold := WordStartsWith)))
  }

  /** In the whole-query search a keyword never reaches the word-start tier,
      so a keyword hit alone can never outrank a word-start hit on the key or
      the title, while the key and the title keep every tier they score. */
  lemma KeywordRankingCapped(raw: Ranking)
    ensures Level(Clamp(WholeStringOptions().keys[2], raw)) <= Level(Contains)
    ensures Level(Clamp(WholeStringOptions().keys[2], raw)) < Level(WordStartsWith)
    ensures Clamp(WholeStringOptions().keys[0], raw) == raw
    ensures Clamp(WholeStringOptions().keys[1], raw) == raw
  {
  }

  /** Every field of the per-word options is at least as strict as the same
      field of the whole-query options: whatever a word keeps, the whole-query
      configuration would keep for the same tier, and a substring-only hit is
      kept by the whole-query configuration but not by the per-word one. */
  lemma WordOptionsStricter(i: nat, raw: Ranking)
    requires i < 3
    ensures Retains(IndividualWordOptions(WholeStringOptions()).keys[i], raw) ==>
      Retains(WholeStringOptions().keys[i], raw)
    ensures Retains(IndividualWordOptions(WholeStringOptions()).keys[i], raw) <==>
      Level(raw) >= Level(WordStartsWith)
    ensures Retains(WholeStringOptions().keys[i], Contains)
    ensures !Retains(IndividualWordOptions(WholeStringOptions()).keys[i], Contains)
  {
  }
}
