/** The merge loop (mod.ts:100-133). The pool of mergeable pairs is a queue:
    each round takes its head, records it as a merge, rewrites every word by
    replacing the head's first syllable with its second, and keeps only the
    pool pairs that are still mergeable in the rewritten word list. A word is
    stored by its re-joined spelling, and every later lookup syllabifies that
    spelling afresh. */
module MergeEngine {
  import opened Text
  import opened InsertionOrder
  import opened Syllabifier
  import opened SyllablePairs
  import opened PairAnalyzer

  /** Lines 113-117: every syllable equal to `a` becomes `b`, and nothing else
      changes. */
  function Replace(syllables: seq<string>, a: string, b: string): (r: seq<string>)
    ensures |r| == |syllables|
    ensures forall j :: 0 <= j < |r| ==> r[j] == (if syllables[j] == a then b else syllables[j])
  {
    if |syllables| == 0 then []
    else [if syllables[0] == a then b else syllables[0]] + Replace(syllables[1..], a, b)
  }

  /** Lines 111-119 for one word: syllabify its current spelling, apply the
      merge, re-join. */
  function Rewrite(word: string, p: Pair): string
  {
    Join(Replace(Syllabify(word), p.first, p.second))
  }

  /** Lines 110-120: every word rewritten in place. */
  function ApplyMerge(words: seq<string>, p: Pair): seq<string>
  {
    seq(|words|, i requires 0 <= i < |words| => Rewrite(words[i], p))
  }

  /** A merge step leaves the number of words alone and stores each word as
      the join of its rewritten entries. Before re-joining, the entries keep
      their count, every occurrence of the merged syllable has become the
      other one, and every other entry is where it was. The stored spelling
      is syllabified afresh later, so these facts need not survive the join
      (see `Scenarios.MergeCanRegroup`). */
  lemma MergeStep(words: seq<string>, p: Pair, i: int)
    requires 0 <= i < |words| && p.first != p.second
    ensures |ApplyMerge(words, p)| == |words|
    ensures var before := Syllabify(words[i]);
      var after := Replace(before, p.first, p.second);
      && ApplyMerge(words, p)[i] == Join(after)
      && |after| == |before|
      && p.first !in after
      && (forall j :: 0 <= j < |before| && before[j] == p.first ==> after[j] == p.second)
      && (forall j :: 0 <= j < |before| && before[j] != p.first ==> after[j] == before[j])
  {
  }

  /** A well-formed word that does not hold the merged syllable keeps its
      spelling. */
  lemma UntouchedWordKept(ms: seq<string>, p: Pair)
    requires Chained(ms) && p.first !in Syllabify(Join(ms))
    ensures Rewrite(Join(ms), p) == Join(ms)
  {
    SyllabifyOfJoin(ms);
    var syllables := Syllabify(Join(ms));
    assert Replace(syllables, p.first, p.second) == syllables;
  }

  /** The loop's state: the current spellings (`mergedWords`), the pool
      (`mergeablePairs`) and the merge history (`merges`). */
  datatype State = State(words: seq<string>, pool: seq<Pair>, merges: seq<Pair>)

  /** Lines 100-102. */
  function Start(words: seq<string>): State
  {
    State(words, MergeablePairs(words), [])
  }

  /** One pass of the loop body (lines 105-130): the head of the pool is
      appended to the history and applied, and the rest of the pool is
      filtered, in order, down to the pairs still mergeable afterwards. */
  function Round(s: State): (t: State)
    requires |s.pool| > 0
    ensures t.merges == s.merges + [s.pool[0]]
    ensures |t.words| == |s.words|
    ensures IsSubsequence(t.pool, s.pool[1..])
    ensures |t.pool| < |s.pool|
  {
    var words := ApplyMerge(s.words, s.pool[0]);
    var pool := Retain(s.pool[1..], MergeablePairs(words));
    SubsequenceFacts(pool, s.pool[1..]);
    State(words, pool, s.merges + [s.pool[0]])
  }

  /** After a round the pool holds exactly the pairs that were behind the
      head and are still mergeable in the rewritten words: none is gained,
      and a pair leaves only when the fresh analysis drops it. */
  lemma RoundPool(s: State, p: Pair)
    requires |s.pool| > 0
    ensures var t := Round(s); p in t.pool <==> p in s.pool[1..] && Mergeable(t.words, p)
  {
  }

  /** Lines 104-133: rounds until the pool is empty. The pool shrinks every
      round, so the loop ends, and the history only grows. */
  function Run(s: State): (t: State)
    ensures |t.pool| == 0
    ensures |t.words| == |s.words|
    ensures s.merges <= t.merges
    decreases |s.pool|
  {
    if |s.pool| == 0 then s else Run(Round(s))
  }

  /** One step of the argument below, on plain sequences: taking the head of
      a pool and then only pairs from a subsequence of its tail takes a
      subsequence of the pool. */
  lemma GainedFromPool<T>(merges: seq<T>, pool: seq<T>, next: seq<T>, rest: seq<T>, final: seq<T>)
    requires |pool| > 0 && next == merges + [pool[0]] && next <= final
    requires IsSubsequence(rest, pool[1..]) && IsSubsequence(final[|next|..], rest)
    ensures IsSubsequence(final[|merges|..], pool)
  {
    var gained := final[|merges|..];
    assert gained[0] == pool[0];
    assert gained[1..] == final[|next|..];
    SubsequenceTransitive(gained[1..], rest, pool[1..]);
  }

  /** What the loop adds to the history is a subsequence of the pool it
      started from: each merge was the head of the pool when it was taken,
      and the pool only loses pairs. */
  lemma {:induction false} RunTakesFromPool(s: State)
    ensures IsSubsequence(Run(s).merges[|s.merges|..], s.pool)
    decreases |s.pool|
  {
    if |s.pool| > 0 {
      var next := Round(s);
      RunTakesFromPool(next);
      assert Run(s) == Run(next);
      GainedFromPool(s.merges, s.pool, next.merges, next.pool, Run(next).merges);
    } else {
      assert Run(s).merges[|s.merges|..] == [];
    }
  }

  /** Lines 100-133: the merge history and final spellings for a word list.
      Every merge is a pair the first analysis offered, in the order offered,
      none twice, so there are at most as many merges as initial pairs. */
  function MergeAll(words: seq<string>): (t: State)
    ensures |t.words| == |words| && |t.pool| == 0
    ensures IsSubsequence(t.merges, MergeablePairs(words))
    ensures Distinct(t.merges)
    ensures |t.merges| <= |MergeablePairs(words)|
    ensures forall m :: m in t.merges ==> Mergeable(words, m)
  {
    var t := Run(Start(words));
    RunTakesFromPool(Start(words));
    assert t.merges[0..] == t.merges;
    SubsequenceFacts(t.merges, MergeablePairs(words));
    t
  }

  /** Every merge has two different syllables, in order, neither of them the
      bare "n". */
  lemma MergesAreProperPairs(words: seq<string>, m: Pair)
    requires m in MergeAll(words).merges
    ensures Less(m.first, m.second) && m.first != m.second
    ensures m.first != "n" && m.second != "n"
  {
    LessIrreflexive(m.first);
  }

  /** Lines 113-117 as written: the syllables are overwritten in place. */
  method ReplaceInPlace(original: seq<string>, a: string, b: string) returns (syllables: seq<string>)
    ensures syllables == Replace(original, a, b)
  {
    syllables := original;
    var j := 0;
    while j < |syllables|
      invariant |syllables| == |original| && 0 <= j <= |syllables|
      invariant forall k :: 0 <= k < j ==> syllables[k] == (if original[k] == a then b else original[k])
      invariant forall k :: j <= k < |syllables| ==> syllables[k] == original[k]
    {
      if syllables[j] == a {
        syllables := syllables[j := b];
      }
      j := j + 1;
    }
  }

  /** Lines 110-120 as written: each word's syllables are rewritten and
      joined back into `mergedWords[i]`. */
  method RewriteWords(words: seq<string>, p: Pair) returns (merged: seq<string>)
    ensures merged == ApplyMerge(words, p)
  {
    merged := words;
    var i := 0;
    while i < |merged|
      invariant |merged| == |words| && 0 <= i <= |merged|
      invariant forall k :: 0 <= k < i ==> merged[k] == Rewrite(words[k], p)
      invariant forall k :: i <= k < |merged| ==> merged[k] == words[k]
    {
      var syllables := Syllabify(merged[i]);
      syllables := ReplaceInPlace(syllables, p.first, p.second);
      merged := merged[i := Join(syllables)];
      i := i + 1;
    }
  }

  /** Lines 125-130 as written: walk the pool, splicing out every pair that
      the current analysis no longer offers and stepping back one place after
      each splice. The result is the in-order filter. */
  method RetainPresent(pool: seq<Pair>, current: seq<Pair>) returns (kept: seq<Pair>)
    ensures kept == Retain(pool, current)
  {
    kept := pool;
    var i: int := 0;
    ghost var seen := 0;
    while i < |kept|
      invariant 0 <= i <= |kept| && 0 <= seen <= |pool|
      invariant kept[..i] == Retain(pool[..seen], current)
      invariant kept[i..] == pool[seen..]
      decreases |kept| - i
    {
      assert kept[i] == pool[seen] by {
        assert kept[i..][0] == pool[seen..][0];
      }
      assert pool[..seen + 1] == pool[..seen] + [pool[seen]];
      RetainSnoc(pool[..seen], pool[seen], current);
      ghost var done := Retain(pool[..seen + 1], current);
      assert kept[i + 1..] == pool[seen + 1..] by {
        assert kept[i..][1..] == pool[seen..][1..];
      }
      if kept[i] !in current {
        assert done == kept[..i];
        kept := kept[..i] + kept[i + 1..];
        assert kept[..i] == done && kept[i..] == pool[seen + 1..];
        i := i - 1;
      } else {
        assert kept[..i + 1] == done;
      }
      i := i + 1;
      seen := seen + 1;
    }
    assert pool[..seen] == pool;
  }

  /** Lines 100-133 as written: a `while` loop over the pool, `shift` and
      `push`, the in-place rewrite, a fresh analysis and the in-place filter. */
  method MergeLoop(words: seq<string>) returns (merges: seq<Pair>, mergedWords: seq<string>)
    ensures State(mergedWords, [], merges) == MergeAll(words)
    ensures Distinct(merges) && |merges| <= |MergeablePairs(words)|
  {
    mergedWords := words;
    merges := [];
    var mergeablePairs := MergeablePairs(words);
    while |mergeablePairs| > 0
      invariant Run(State(mergedWords, mergeablePairs, merges)) == MergeAll(words)
      decreases |mergeablePairs|
    {
      ghost var before := State(mergedWords, mergeablePairs, merges);
      var pair := mergeablePairs[0];
      mergeablePairs := mergeablePairs[1..];
      merges := merges + [pair];
      mergedWords := RewriteWords(mergedWords, pair);
      var newMergeablePairs := MergeablePairs(mergedWords);
      mergeablePairs := RetainPresent(mergeablePairs, newMergeablePairs);
      assert State(mergedWords, mergeablePairs, merges) == Round(before);
    }
  }
}
