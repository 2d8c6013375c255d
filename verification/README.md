# conlang-utils merge finder, modelled in Dafny

The tool reads the word list of a language whose syllables follow the shape
consonant-vowel-optional-`n`. It proposes syllable merges: pairs of syllables
that could be spoken alike without two words that differ in one syllable
becoming the same word. The model covers the whole algorithm in `mod.ts`:

- the syllabifier `wordToSyllables`, with its regular expression and its cache;
- the pair analysis `getMergeablePairs`, which collects found syllables,
  minimal pairs and mergeable pairs;
- the merge loop, which takes pairs from a queue, rewrites every word and
  re-validates the queue;
- the group builder, which folds the merge history into syllable groups.

Modules, one per file, in dependency order:

| file | module | what it holds |
|---|---|---|
| `text.dfy` | `Optional`, `Text` | `Option`; ASCII case folding for the `i` flag; `join("")`; the code-unit order `sort()` uses |
| `insertion_order.dfy` | `InsertionOrder` | JavaScript `Set`s as duplicate-free sequences in insertion order; the order-keeping filter; subsequences |
| `syllabifier.dfy` | `Syllabifier` | the pattern as an explicit scanner, the coda split, the cache |
| `pairs.dfy` | `SyllablePairs` | sorted pairs, their `"a b"` string keys and `split(" ")` |
| `analyzer.dfy` | `PairAnalyzer` | found syllables, minimal pairs, mergeable pairs |
| `engine.dfy` | `MergeEngine` | the merge loop, both as a state-transition function and as the source's in-place loops |
| `groups.dfy` | `Groups` | the first-match group builder |
| `scenarios.dfy` | `Scenarios` | whole runs on small word lists |

Modelling decisions:

- Each set keeps insertion order, because that order decides which pair the
  loop merges next. The analysis builds each set by adding, in loop order,
  every element the nested loops visit.
- A pair is the datatype `Pair(first, second)`, not the key string
  `"first second"`. `SyllablePairs.KeyInjective` and
  `SyllablePairs.SplitKeyRoundTrip` show the two carry the same information,
  because no syllable holds a space.
- The merge loop's state is `(words, pool, merges)`. One round is
  `MergeEngine.Round`. The whole loop is `MergeEngine.Run`, which terminates
  because the pool strictly shrinks every round. `MergeEngine.MergeLoop`
  writes out the source's loops over these values and is proved equal to
  `Run`.
- In these places the code behaves differently from what one might expect,
  and the model follows the code:
  - **Minimal pairs.** A pair is recorded when substituting one syllable makes
    the joined spellings equal (`as.join("") === bs.join("")`). This is not
    the same as the syllable sequences being equal: "enan-a" and "an-ana"
    differ at every one of their four entries, yet make "a"/"e" a minimal
    pair (`Scenarios.MinimalAcrossShift`).
  - **Rewriting a word.** Each round looks the word up by its current,
    re-joined spelling (line 111). A spelling not seen before is syllabified
    afresh, so entries can regroup: "ke", "n", "o" re-joined is "keno", which
    splits as "ke", "no" (`Syllabifier.RescanRegroups`). A merge can thus
    change a word's entry count and bring the merged syllable back: merging
    "nu" into "u" turns "ka n nu" into "ka n u", stored as "kanu" and read
    back as "ka nu" (`Scenarios.MergeCanRegroup`).
  - **Groups.** They need not be disjoint (`Scenarios.GroupsCanOverlap`).
  - **Distinct words.** A merge can make two distinct words identical
    (`Scenarios.MergeCanCollideWords`).
  - **No lowercasing.** Matching is case-insensitive but the matched text
    keeps its case. Only a lower-case `n` coda is split off, because
    `endsWith("n")` is case-sensitive.
  - **Found syllables.** They come only from pairs of different words. A list
    with fewer than two different words finds nothing.

## Model

| member | source | states |
|---|---|---|
| Text.Fold | mod.ts:16 | no contract of its own: the letter the `i` flag compares a character as, upper-case ASCII folded to lower case and nothing else changed; `Syllabifier.MatchAt` and `Syllabifier.LowercaseEntries` state its effect on the pattern |
| Text.Join | mod.ts:65 | no contract of its own: `join("")`, here and at line 119; `Text.JoinAppend` states that it distributes over concatenation, and `Syllabifier.SyllabifyOfJoin` that syllabifying a join of well-formed matches gives them back |
| Text.Less | mod.ts:66 | no contract of its own: the character-by-character order `sort()` uses without a comparator, here and at line 86, a proper prefix first; `Text.LessTotal` states that it orders any two different strings |
| Text.LessTotal | mod.ts:66 | two different strings are ordered one way or the other by the code-unit order `sort()` uses |
| InsertionOrder.Add | mod.ts:52 | `Set.add`: the set gains exactly the new element, keeps every old one in its place, and stays duplicate-free |
| InsertionOrder.AddAll | mod.ts:51-57 | adding a stream of elements yields a duplicate-free set holding exactly the old members and the stream's, the old ones first |
| InsertionOrder.AddAllSnoc | mod.ts:51-57 | adding a stream one element longer is adding its last element after the rest, so new elements sit in the order of their first occurrence, as `Set` iteration order promises; this order decides which pair `shift()` takes at line 105 |
| InsertionOrder.Retain | mod.ts:125-130 | the filter keeps, in their original order, exactly the elements also present in the other list |
| Syllabifier.MatchAt | mod.ts:16 | one attempt of the pattern: the result is a match, no longer match exists, and "no match" means no match of any length at that position |
| Syllabifier.IsOnset | mod.ts:16 | no contract of its own: `[jklmnpstw]` under the `i` flag |
| Syllabifier.IsVowel | mod.ts:16 | no contract of its own: `[aeiou]` under the `i` flag |
| Syllabifier.IsCoda | mod.ts:16 | no contract of its own: the optional final `n?` under the `i` flag |
| Syllabifier.VowelAt | mod.ts:16 | no contract of its own: a vowel stands at the position, which the lookaheads `(?=[aeiou])` and `(?![aeiou])` test |
| Syllabifier.PatternBody | mod.ts:16 | no contract of its own: the text one match consumes, `[jklmnpstw]?[aeiou]n?`; `Syllabifier.Scan` states that every match has this shape |
| Syllabifier.MatchesAt | mod.ts:16 | no contract of its own: a whole-pattern match from `p` to `e`, negative lookahead included; the reference definition that `Syllabifier.MatchAt` and `Syllabifier.ScanPieces` are stated against |
| Syllabifier.Scan | mod.ts:25 | every match `match` returns has the pattern's shape; `ScanPieces` and `ScanLeftmost` state which pieces of the word they are, and `ScanEmptyIffNoMatch` that the search finds nothing exactly when the pattern matches nowhere from the start on |
| Syllabifier.ScanPieces | mod.ts:25 | every match is a piece `s[q..e]` of the word, at or after the search start, on which the whole pattern, lookahead included, matches |
| Syllabifier.ScanLeftmost | mod.ts:25 | when the search from `p` finds anything, its first match starts at the least position at or after `p` where the pattern succeeds, and the search resumes where that match ends, as the `g` flag's `lastIndex` does |
| Syllabifier.SplitCoda | mod.ts:27-33 | no contract of its own; `SplitCodaShape` states that one match becomes a syllable, or a syllable and a bare "n", spelling the match |
| Syllabifier.SplitCodas | mod.ts:27-33 | no contract of its own; `SplitCodasShape` states the entry shapes and that the entries spell the matches |
| Syllabifier.ScanLowercase | mod.ts:25 | a word without upper-case letters yields matches without upper-case letters |
| Syllabifier.SplitCodasShape | mod.ts:27-33 | after splitting codas, every entry is a syllable, a bare "n" right after a syllable, or a syllable with an upper-case coda; the entries spell the same text |
| Syllabifier.Syllabify | mod.ts:20-38 | every entry has a syllable shape, every bare "n" follows a syllable, and re-joining the entries gives back the matched text |
| Syllabifier.LowercaseEntries | mod.ts:16-33 | for a lower-case word every entry is `[jklmnpstw]?[aeiou]` or the bare "n" |
| Syllabifier.SyllabifyEmptyIffNoMatch | mod.ts:25 | the result is empty exactly when the pattern matches nowhere in the word (`match` returning `null` becomes `[]`) |
| Syllabifier.SyllabifyOfJoin | mod.ts:16-33 | spelling out well-formed matches and syllabifying again gives back those matches with codas split, and re-joining gives the spelling again |
| Syllabifier.RescanRegroups | mod.ts:111-119 | rewritten entries re-joined and syllabified again can split differently: "ke", "n", "o" spells "keno", which splits as "ke", "no" |
| Syllabifier.Lookup | mod.ts:20-38 | a lookup adds the word to the cache; with a cache that holds only true syllabifications it returns the word's syllabification and keeps the cache true |
| Syllabifier.RepeatedLookup | mod.ts:20-37 | with a cache that holds only true syllabifications, asking again for a word returns what the first lookup returned and leaves the cache as the first lookup left it |
| SyllablePairs.Sorted | mod.ts:66 | `[x, y].sort()` is a permutation of the two and puts them in non-decreasing order |
| SyllablePairs.SortedSymmetric | mod.ts:86 | sorting makes the order of the two syllables irrelevant |
| SyllablePairs.Key | mod.ts:66-70 | no contract of its own; `KeyInjective` states that keys of space-free pairs identify the pair |
| SyllablePairs.SplitKey | mod.ts:108 | no contract of its own; `SplitKeyRoundTrip` states that it undoes `Key` |
| SyllablePairs.UpToSpace | mod.ts:108 | the piece `split(" ")` yields first: a space-free prefix of the string, followed by a space unless it is the whole string |
| SyllablePairs.SplitKeyRoundTrip | mod.ts:108 | splitting a pair's key at the space gives the pair back, when neither syllable holds a space |
| SyllablePairs.KeyInjective | mod.ts:68-70 | two pairs of space-free syllables have the same key only when they are the same pair |
| SyllablePairs.StartsWith | mod.ts:97 | no contract of its own: `startsWith`; `SyllablePairs.NasalKeyTest` states what it tests on a key |
| SyllablePairs.EndsWith | mod.ts:97 | no contract of its own: `endsWith`; `SyllablePairs.NasalKeyTest` states what it tests on a key |
| SyllablePairs.NasalKeyTest | mod.ts:97 | a key starts with "n " exactly when the first syllable is "n", and ends with " n" exactly when the second is |
| PairAnalyzer.Compared | mod.ts:44-46 | no contract of its own: the two loops visit every ordered pair of list entries whose strings differ |
| PairAnalyzer.EntriesSpaceFree | mod.ts:66-70 | no syllable entry holds a space, so keys split cleanly |
| PairAnalyzer.FoundParts | mod.ts:45-57 | no contract of its own: for one `a`, the syllables the inner loop adds, `a`'s then `b`'s for each `b` in list order; `PairAnalyzer.FoundStreamMembers` states what the stream holds |
| PairAnalyzer.FoundVisits | mod.ts:44-57 | no contract of its own: the outer loop's parts in list order, which fixes the insertion order of `foundSyllables`; `PairAnalyzer.FoundStreamMembers` states what the stream holds |
| PairAnalyzer.FoundStreamMembers | mod.ts:44-57 | a syllable is added by the loops exactly when it belongs to one of two different words of the list |
| PairAnalyzer.FoundSyllables | mod.ts:44-57 | `foundSyllables` is duplicate-free and holds exactly the syllables of words compared with some different word |
| PairAnalyzer.CollapsesAt | mod.ts:62-65 | no contract of its own: writing `bs[i]` over `as[i]` makes the two joins equal; `PairAnalyzer.RecordFromMembers` states that the loop records exactly at such positions |
| PairAnalyzer.RecordFrom | mod.ts:61-76 | no contract of its own; `RecordFromMembers` states what it records |
| PairAnalyzer.Recorded | mod.ts:59-76 | no contract of its own: words of different syllable counts record nothing, otherwise it is `RecordFrom` from position 0 |
| PairAnalyzer.RecordFromMembers | mod.ts:61-76 | the loop from position `i` on records exactly the sorted pairs at positions `k >= i` where writing one syllable over the other makes the words spell the same |
| PairAnalyzer.MinimalParts | mod.ts:45-76 | no contract of its own: for one `a`, what the position loop records against each `b` in list order; `PairAnalyzer.MinimalStreamMembers` states what the stream holds |
| PairAnalyzer.MinimalVisits | mod.ts:44-78 | no contract of its own: the outer loop's parts in list order, which fixes the insertion order of `minimalPairs`; `PairAnalyzer.MinimalStreamMembers` states what the stream holds |
| PairAnalyzer.MinimalStreamMembers | mod.ts:44-78 | a pair is added by the loops exactly when the position loop records it for some two different words of the list |
| PairAnalyzer.MinimalPairs | mod.ts:44-78 | `minimalPairs` is duplicate-free and holds exactly the sorted pairs at a position where substituting one word's syllable into a different word of equal syllable count makes both spell the same |
| PairAnalyzer.SingleDifferenceIsMinimal | mod.ts:59-76 | two different words whose syllables differ at one position only make the syllables there a minimal pair |
| PairAnalyzer.Candidate | mod.ts:86-91 | no contract of its own: for one `s1` and `s2`, the sorted pair unless its two syllables are equal or it is minimal; `PairAnalyzer.CandidateMembers` states what the loops add |
| PairAnalyzer.CandidateParts | mod.ts:85-92 | no contract of its own: for one `s1`, the candidates for each `s2` in the order of `foundSyllables`; `PairAnalyzer.CandidateMembers` states what the loops add |
| PairAnalyzer.CandidateVisits | mod.ts:84-92 | no contract of its own: the outer loop's parts in the order of `foundSyllables`, which with `InsertionOrder.AddAllSnoc` fixes the pool order that `shift()` at line 105 follows; `PairAnalyzer.CandidateMembers` states what the loops add |
| PairAnalyzer.CandidateMembers | mod.ts:84-92 | a pair is added by the loops exactly when it is the sorted pair of two found syllables, its two syllables differ, and it is not minimal |
| PairAnalyzer.MergeableSet | mod.ts:82-93 | no contract of its own; `MergeableSetMembers` states its members and `InsertionOrder.AddAllSnoc` their order |
| PairAnalyzer.MergeableSetMembers | mod.ts:82-93 | `mergeable` holds exactly the strictly ordered pairs of found syllables that are not minimal |
| PairAnalyzer.WithoutNasal | mod.ts:97 | the filter keeps, in order, exactly the pairs whose key neither starts with "n " nor ends with " n" |
| PairAnalyzer.MergeablePairs | mod.ts:40-98 | the result is duplicate-free and holds exactly the pairs of two found syllables, strictly ordered, not minimal, neither the bare "n" |
| MergeEngine.Rewrite | mod.ts:110-119 | no contract of its own; `MergeStep` and `UntouchedWordKept` state what it does to one word |
| MergeEngine.ApplyMerge | mod.ts:110-120 | no contract of its own; `MergeStep` states the word count and each word's rewrite |
| MergeEngine.Start | mod.ts:100-102 | no contract of its own: the original words, the first analysis as pool, an empty history; `MergeAll` states what the run from it yields |
| MergeEngine.Replace | mod.ts:113-117 | every syllable equal to `a` becomes `b` and every other one stays where it was |
| MergeEngine.MergeStep | mod.ts:110-120 | the word count is kept and each word is stored as the join of its rewritten entries; before re-joining, the entries keep their count, no longer hold the merged syllable, and differ from the originals only where it stood |
| MergeEngine.UntouchedWordKept | mod.ts:110-120 | a well-formed word without the merged syllable keeps its spelling |
| MergeEngine.Round | mod.ts:104-130 | one round appends the pool's head to the history, keeps the word count, and leaves a strictly shorter pool that is an in-order subsequence of the pool's tail |
| MergeEngine.RoundPool | mod.ts:121-130 | after a round the pool holds exactly the pairs that were behind the head and are still mergeable in the rewritten words |
| MergeEngine.Run | mod.ts:104-133 | the loop ends, with an empty pool and the same number of words, and the history only grows |
| MergeEngine.GainedFromPool | mod.ts:105-107 | taking a pool's head and then only pairs from a subsequence of its tail takes a subsequence of the pool |
| MergeEngine.RunTakesFromPool | mod.ts:104-133 | what the loop adds to the history is an in-order subsequence of the pool it started from |
| MergeEngine.MergeAll | mod.ts:100-133 | the history is an in-order subsequence of the first analysis, without duplicates, no longer than it, and every merge was mergeable in the original words |
| MergeEngine.MergesAreProperPairs | mod.ts:88-97 | every merge joins two different syllables in sorted order, neither the bare "n" |
| MergeEngine.ReplaceInPlace | mod.ts:113-117 | the in-place loop computes the replacement |
| MergeEngine.RewriteWords | mod.ts:110-120 | the in-place loop over the words computes the merge of every word |
| MergeEngine.RetainPresent | mod.ts:125-130 | splicing out pairs while stepping the index back computes the in-order filter |
| MergeEngine.MergeLoop | mod.ts:100-133 | the `while` loop with `shift`, `push`, rewrite, fresh analysis and splice ends in the state `MergeAll` describes, with a duplicate-free history no longer than the first analysis |
| Groups.Touches | mod.ts:147 | no contract of its own: the group includes `a` or includes `b`; `Groups.FirstHit` and `Groups.AddMerge` are stated with it |
| Groups.FirstHit | mod.ts:146-159 | the search stops at the first group holding either syllable, and finds none exactly when no group holds either |
| Groups.Extend | mod.ts:148-154 | the group gains exactly the missing ones of the two syllables at its end and stays duplicate-free |
| Groups.AddMerge | mod.ts:141-163 | afterwards both syllables share a group; a group `[a, b]` is appended exactly when no group held either; otherwise the first group holding one of them ends up holding both, and no other group changes; groups only grow at their end |
| Groups.BuildGroups | mod.ts:139-164 | there are at most as many groups as merges; `GroupsGrow`, `MergeGrouped`, `GroupMembers` and `GroupsWellFormed` state the rest |
| Groups.GroupsGrow | mod.ts:139-164 | every group of an earlier history survives, possibly grown at its end, into the groups of a longer one |
| Groups.MergeGrouped | mod.ts:139-164 | both syllables of every merge end up in one group together |
| Groups.GroupedIsEndpoint | mod.ts:139-164 | every member of a group is one side of some merge, and the lemma names that merge |
| Groups.GroupMembers | mod.ts:139-164 | a syllable is in some group exactly when it is one side of some merge |
| Groups.GroupsWellFormed | mod.ts:139-164 | when no merge pairs a syllable with itself, every group is duplicate-free with at least two syllables |
| Groups.GroupsOfRun | mod.ts:100-164 | the groups built from a run's history are duplicate-free with at least two syllables each |
| Scenarios.MinimalOfTwoByTwo | mod.ts:59-76 | among words of two entries each, the minimal pairs are exactly the entry pairs at one position of two different words that agree at the other |
| Scenarios.MinimalAcrossShift | mod.ts:59-76 | "enan-a" and "an-ana" split into four entries each, different at every position, and still make "a"/"e" a minimal pair |
| Scenarios.MergeCanRegroup | mod.ts:110-122 | merging "nu" into "u" rewrites "kannu" (entries "ka", "n", "nu") to "kanu", which is read back as "ka", "nu": one entry fewer, with "nu" back |
| Scenarios.TokiPonaToko | mod.ts:40-98 | for "toki", "pona", "toko", "ki"/"ko" is the only minimal pair, the found syllables are the five syllables of the words, "ki"/"ko" is not mergeable and "ki"/"to" is |
| Scenarios.KalaLakaPairs | mod.ts:40-98 | for "kala" and "laka" no pair is minimal and "ka"/"la" is the only mergeable pair |
| Scenarios.MergeCanCollideWords | mod.ts:100-133 | merging "ka" into "la" turns the two different words "kala" and "laka" both into "lala", after which the loop stops |
| Scenarios.DisjointMergesStaySeparate | mod.ts:139-164 | two merges with no syllable in common give two separate groups |
| Scenarios.ThreeSeparateGroups | mod.ts:139-164 | three merges, none sharing a syllable with an earlier one, give three groups in history order |
| Scenarios.GroupsCanOverlap | mod.ts:139-164 | after the separate merges `a`/`b` and `c`/`d`, the merge `b`/`d` extends only the first group, so `d` sits in two groups |
| Scenarios.FirstGroupTakesMerge | mod.ts:146-159 | when a later group already holds both syllables, the merge still extends the first group holding one of them: `[x, y, a], [a, b]` with merge `a`/`b` becomes `[x, y, a, b], [a, b]` |

## Left out

- Fetching the word list and keeping only the "core" and "widespread" entries (mod.ts:1-14) are network I/O over a remote data format. The model takes the resulting word list as a parameter.
- The `console.log` calls (lines 80, 95, 123, 132, 135, 166) only report, so they are not modelled.
- The regular-expression engine is replaced by the scanner `Syllabifier.Scan`. `Syllabifier.MatchAt` states that it finds exactly the longest match. Greedy backtracking finds the same match, because a consonant that could open a syllable is never a vowel.
- Syllabifier.Lookup: a cache hit returns a copy, but a miss returns the cached array itself (line 37). Two writes go into such an array, and the model follows neither:
  - The merge loop overwrites it at line 115. This does not show in the loop. After the analysis at line 102 or 122, every word of a list with two different words is cached, so the lookups at line 111 are hits. A list without two different words has no mergeable pairs, so the loop has already stopped.
  - The analyser writes `as[i] = bs[i]` into it at line 63. Every word but the first is looked up as `b` before it is looked up as `a`, so `as` is a cached array only in the first comparison of a call, when no pair has been recorded yet. There the `continue` at line 68 can skip the restore at line 75 only if two positions of that comparison collapse with the same pair. Only then would the write stick in the cache.
- PairAnalyzer.MinimalPairs: the `continue` at line 68 skips the restore at line 75 when a pair is already recorded. Positions after it then compare against a word that already spells the same as the other word. Replacing one more entry keeps that spelling only when the two entries there are equal, because the text before and after it is unchanged. So the code records nothing more in that comparison except pairs of equal syllables, and line 88 discards those before the minimal check. The model always restores, so it can record more than the code only when two positions of one comparison both collapse with different entries.
- PairAnalyzer.MinimalPairs: the test follows the code's joined-spelling comparison. It does not claim that a minimal pair always comes from two words whose syllable sequences differ in exactly one position. `Scenarios.MinimalAcrossShift` shows a minimal pair from words that differ everywhere. `Scenarios.MinimalOfTwoByTwo` shows that the two notions agree on words of two entries.
- Groups.AddMerge: the model does not claim that groups are disjoint, because the code does not make them so (`Scenarios.GroupsCanOverlap`).
- MergeEngine.MergeAll: the model does not claim that merges keep different words different, because the code does not guarantee it (`Scenarios.MergeCanCollideWords`).
- JavaScript strings are sequences of UTF-16 code units. The model uses Dafny `char`s, and its order is the order of their code points. Both agree on the ASCII letters of the pattern.
