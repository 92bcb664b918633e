# Component catalogue search, modelled in Dafny

The documentation site of this design-system library lets readers search its
component catalogue. `filterComponents` does the search. It takes the catalogue
(entries with `key`, `title`, `category` and `keywords`) and the text typed in
the search box:

- an empty query returns the catalogue as it is;
- otherwise the fuzzy matcher `match-sorter` runs on the whole query, over `key`, `title` and
  each keyword, keeping at least substring matches and capping keyword hits at that tier;
- the query is cut at every single space, and repeated pieces are dropped, keeping
  the first one seen (the insertion order of a JavaScript `Set`);
- with fewer than two distinct pieces, the whole-query matches are the answer;
- if the first distinct piece is empty, the answer is empty;
- otherwise the first word is matched against the whole catalogue with stricter
  options (at least a word-start match), and each further word is matched against the
  current survivors; only survivors that match are kept (a progressive AND);
- the answer is the whole-query matches followed by the survivors, without repeats.

The model has four modules:

- `Seqs` covers the runtime operations the function relies on:
  `Array.prototype.filter` with `includes`, and the `Set` used for word and result
  deduplication.
- `Words` covers `String.prototype.split(' ')` and its inverse, `join(' ')`.
- `Rankings` covers the relevance tiers and the two option records.
- `Components` covers the catalogue entry, the filter (a specification function
  `FilteredComponents`, and the method `FilterComponents` that runs the loop), and
  the properties of the filter.

The fuzzy matcher is a parameter `rank` of type `Ranker`. Its ranking algorithm is
third-party code, so nothing is assumed about it except what a lemma names in its
`requires`. Two such assumptions are used:

- `RankerKeepsItems`: it only returns candidates it was given.
- `RankerKeepsDistinct`: it does not repeat a candidate that it was given once.

It is NOT assumed to keep its input order, because it sorts by tier. The subsequence
property of the loop comes from `filter`, not from the matcher.

Two consequences of splitting on single spaces are worth stating:

- Empty pieces count as words. `" a"` splits to `["", "a"]`, which has two distinct
  pieces, so that query takes the multi-word path. There the empty first piece makes the
  result empty. `LeadingSpaceGivesNothing` proves that every query that starts with a
  space and holds another character ends there. The source comment calls this branch
  impossible.
- A query of spaces only splits into empty pieces that collapse to one distinct piece,
  so it returns the whole-query matches (`OnlySpacesIsWholeStringMatch`).

## Model

| member | source | states |
|---|---|---|
| `Seqs.FilterIncluded` | docs/app/lib/utils/components.ts:69-71 | an element is kept exactly when it is among the survivors and the word's match also returns it; the kept elements keep the survivors' order and are never more numerous |
| `Seqs.DedupFromSpec` | docs/app/lib/utils/components.ts:74 | adding elements to a set that already holds `seen` yields no repeats, exactly the elements outside `seen`, in the order of the input |
| `Seqs.Dedup` | docs/app/lib/utils/components.ts:33 | the distinct elements: no repeats, the same members as the input, in input order, starting with the input's first element |
| `Seqs.FilterIncludedCounts` | docs/app/lib/utils/components.ts:69-71 | every copy of a kept element stays and every copy of a dropped element goes: the count of each element is its count in the survivors, or zero |
| `Seqs.DedupFromSnoc` | docs/app/lib/utils/components.ts:74 | the `Set` insertion rule: one more element is appended exactly when it is neither in `seen` nor already added; with the empty case this fixes the first-occurrence order |
| `Seqs.DedupSnoc` | docs/app/lib/utils/components.ts:33 | the distinct words of `xs + [x]` are those of `xs`, followed by `x` when `xs` does not hold it, so the distinct words come in first-occurrence order |
| `Seqs.DedupFromNoDup` | docs/app/lib/utils/components.ts:74 | deduplicating a sequence that has no repeats leaves it unchanged |
| `Seqs.DedupFromAppend` | docs/app/lib/utils/components.ts:74 | deduplicating `a + b` gives a deduplicated `a` followed by the elements of `b` not already in `a` |
| `Seqs.DedupShortIffAllEqual` | docs/app/lib/utils/components.ts:33-34 | there are fewer than two distinct elements exactly when all elements are equal |
| `Words.Split` | docs/app/lib/utils/components.ts:33 | cutting at spaces gives at least one piece, and no piece holds a space |
| `Words.JoinSplit` | docs/app/lib/utils/components.ts:33 | joining the pieces with single spaces gives back the query, so no character is lost, including runs of spaces |
| `Words.SplitJoin` | docs/app/lib/utils/components.ts:33 | splitting a space-joined list of space-free words gives back the list |
| `Words.FirstTokenEmptyIff` | docs/app/lib/utils/components.ts:33 | the first piece is empty exactly when the query is empty or starts with a space |
| `Words.SplitOnlySpaces` | docs/app/lib/utils/components.ts:33 | a query made only of spaces splits into empty pieces only |
| `Words.SplitHasNonEmptyToken` | docs/app/lib/utils/components.ts:33 | a query holding a non-space character has a non-empty piece |
| `Rankings.Level` | docs/app/lib/utils/components.ts:18-27 | each tier has a level of at most 3, and only no-match has level 0 |
| `Rankings.TierOrder` | docs/app/lib/utils/components.ts:18-27 | the tiers are strictly ordered case-sensitive equal > word starts with > contains > no match, and distinct tiers have distinct levels |
| `Rankings.Clamp` | docs/app/lib/utils/components.ts:27 | a tier above a field's `maxRanking` becomes exactly the cap; a tier at or below the cap, or in a field without one, is unchanged |
| `Rankings.WholeStringOptions` | docs/app/lib/utils/components.ts:14-30 | `key`, `title` and each keyword need at least a substring match; only keywords are capped, at the substring tier |
| `Rankings.IndividualWordOptions` | docs/app/lib/utils/components.ts:46-55 | the same fields in the same order, each with threshold word-start and cap case-sensitive equality |
| `Rankings.KeywordRankingCapped` | docs/app/lib/utils/components.ts:24-28 | in the whole-query search, a keyword never scores above the substring tier, so it stays below any word-start hit on `key` or `title`; `key` and `title` keep their tier |
| `Rankings.WordOptionsStricter` | docs/app/lib/utils/components.ts:46-55 | a per-word field keeps a tier exactly when it is at least word-start; whatever it keeps, the whole-query field keeps too, but a substring-only hit is kept only by the whole-query field |
| `Components.Survivors` | docs/app/lib/utils/components.ts:58-72 | the survivors after any number of words are a subsequence of the first word's match over the whole catalogue |
| `Components.FilteredComponents` | docs/app/lib/utils/components.ts:3-75 | an empty query returns the catalogue itself; a multi-word query returns no element twice |
| `Components.FilterComponents` | docs/app/lib/utils/components.ts:3-75 | the result of the early returns and of the word-by-word loop equals `FilteredComponents` |
| `Components.SurvivorsShrink` | docs/app/lib/utils/components.ts:63-72 | each loop step keeps a subsequence of the previous survivors: same relative order, never longer |
| `Components.SurvivorMembership` | docs/app/lib/utils/components.ts:58-72 | a component survives exactly when the first word matches it over the catalogue and each later word matches it over the survivors at that point |
| `Components.SingleWordIsWholeStringMatch` | docs/app/lib/utils/components.ts:33-37 | when all space-separated pieces are the same word, the result is exactly the whole-query match |
| `Components.OnlySpacesIsWholeStringMatch` | docs/app/lib/utils/components.ts:33-37 | a query of spaces only has one distinct piece, and its result is exactly the whole-query match |
| `Components.EmptyFirstWordIffLeadingSpace` | docs/app/lib/utils/components.ts:40-41 | the first distinct word is empty exactly when the query starts with a space |
| `Components.LeadingSpaceGivesNothing` | docs/app/lib/utils/components.ts:40-44 | a query that starts with a space and holds another character has at least two distinct pieces and an empty first one, and returns nothing, dropping the whole-query matches |
| `Components.MultiWordResultOrder` | docs/app/lib/utils/components.ts:74 | on the multi-word path, the result is the whole-query matches without repeats, followed by the survivors not among them in first-occurrence order; if the whole-query matches have no repeats, they form the start of the result unchanged |
| `Components.MultiWordResultMembers` | docs/app/lib/utils/components.ts:74 | on the multi-word path, a component is in the result exactly when it is a whole-query match or a word-by-word survivor |
| `Components.ResultWithinCatalogue` | docs/app/lib/utils/components.ts:32-74 | if the matcher only returns candidates it was given, every result is a catalogue entry |
| `Components.ResultHasNoDuplicates` | docs/app/lib/utils/components.ts:12-74 | a catalogue without repeats gives a result without repeats on every path, if the matcher does not repeat candidates |

## Left out

- The ranking inside `match-sorter` is left out: how a field is scored against a query, case
  folding, and the sort by tier. It is third-party code. `rank` is a parameter,
  and no claim is made about the order of its output.
- Only the four tiers the filter names are modelled. `Clamp` and `Retains` give the meaning
  of one field's threshold and cap. How the library combines several fields into one
  item ranking is not modelled.
- JavaScript compares catalogue entries by object identity, both in `includes` and in `Set`.
  The model compares them by value. The model assumes that every entry has a distinct `key`;
  under that assumption the two comparisons agree. They differ only for two separate objects
  whose four fields are all equal.
- The `category` field is carried but never searched, as in the source.
- Strings are sequences of characters. UTF-16 code units and surrogate pairs are not distinguished.
- Components.ResultHasNoDuplicates: proved only when the catalogue itself has no repeats and
  the matcher does not repeat candidates, because the empty-query and single-word paths
  return the catalogue or the matcher's output unchanged.
- packages/modal/lib/modal.tsx is not part of this model. It is presentational markup over
  foreign dialog and transition components, plus a constant icon table.
- docs/app/components/clipboard-copy-button.tsx is not part of this model. It is clipboard
  browser I/O, asynchronous calls, React effects and a reset timer.
- packages/typography/stories/paragraph.stories.tsx and packages/form-elements/lib/types.ts
  are not part of this model. They hold rendering stories and type declarations, with no behaviour.
