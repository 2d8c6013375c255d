/** `getMergeablePairs` (mod.ts:40-98). The nested loops over ordered pairs of
    different words collect every syllable they see and record the minimal
    pairs: the two syllables at a position where substituting one word's
    syllable into the other makes the two spell the same. Every other sorted
    pair of two different found syllables is mergeable, except pairs with the
    bare "n". The sets are insertion-ordered, so each is built by adding, in
    loop order, the elements of a stream that lists what the loops visit. */
module PairAnalyzer {
  import opened Text
  import opened InsertionOrder
  import opened Syllabifier
  import opened SyllablePairs

  /** Two words the loops at lines 44-46 compare: both in the list and not
      the same string. Both orders are visited. */
  predicate Compared(words: seq<string>, a: string, b: string)
  {
    a in words && b in words && a != b
  }

  /** No letter of the syllable pattern is a space. */
  lemma LetterIsNoSpace(c: char)
    requires IsOnset(c) || IsVowel(c) || IsCoda(c)
    ensures c != ' '
  {
  }

  /** No entry of a syllabification holds a space, so pair keys split cleanly. */
  lemma EntriesSpaceFree(word: string)
    ensures forall t :: t in Syllabify(word) ==> SpaceFree(t)
  {
    forall t | t in Syllabify(word)
      ensures SpaceFree(t)
    {
      assert IsEntry(t);
      forall i | 0 <= i < |t|
        ensures t[i] != ' '
      {
        if t != "n" && !IsSyllable(t) && i < |t| - 1 {
          assert t[..|t| - 1][i] == t[i];
        }
        LetterIsNoSpace(t[i]);
      }
    }
  }

  // Found syllables (lines 48-57).

  /** What the inner loop for word `a` adds to `foundSyllables`, one part
      per `b`: the syllables of `a`, then those of `b`. */
  function FoundParts(words: seq<string>, a: string): seq<seq<string>>
  {
    seq(|words|, j requires 0 <= j < |words| =>
      if a == words[j] then [] else Syllabify(a) + Syllabify(words[j]))
  }

  /** What the outer loop adds, one part per `a`, in loop order. */
  function FoundVisits(words: seq<string>): seq<seq<string>>
  {
    seq(|words|, i requires 0 <= i < |words| => Flatten(FoundParts(words, words[i])))
  }

  lemma FoundStreamMembers(words: seq<string>, s: string)
    ensures s in Flatten(FoundVisits(words)) <==>
      exists a, b :: Compared(words, a, b) && (s in Syllabify(a) || s in Syllabify(b))
  {
    var outer := FoundVisits(words);
    FlattenMembers(outer, s);
    if s in Flatten(outer) {
      var i :| 0 <= i < |outer| && s in outer[i];
      FlattenMembers(FoundParts(words, words[i]), s);
      var j :| 0 <= j < |words| && s in FoundParts(words, words[i])[j];
      assert Compared(words, words[i], words[j]);
    }
    forall a, b | Compared(words, a, b) && (s in Syllabify(a) || s in Syllabify(b))
      ensures s in Flatten(outer)
    {
      var i :| 0 <= i < |words| && words[i] == a;
      var j :| 0 <= j < |words| && words[j] == b;
      FlattenMembers(FoundParts(words, a), s);
      assert s in FoundParts(words, a)[j];
      assert s in outer[i];
    }
  }

  /** `foundSyllables`: every syllable of a word that the loops compare with
      some other word, and nothing else. A list with fewer than two different
      words finds nothing. */
  function FoundSyllables(words: seq<string>): (found: seq<string>)
    ensures Distinct(found)
    ensures forall s :: s in found <==> exists a, b :: Compared(words, a, b) && s in Syllabify(a)
  {
    var found := AddAll([], Flatten(FoundVisits(words)));
    forall s
      ensures s in found <==> exists a, b :: Compared(words, a, b) && s in Syllabify(a)
    {
      FoundStreamMembers(words, s);
      if s in found {
        var a, b :| Compared(words, a, b) && (s in Syllabify(a) || s in Syllabify(b));
        if s in Syllabify(b) {
          assert Compared(words, b, a);
        }
      }
    }
    found
  }

  /** Every found syllable is a syllable entry, so none holds a space. */
  lemma FoundSpaceFree(words: seq<string>)
    ensures forall s :: s in FoundSyllables(words) ==> SpaceFree(s)
  {
    forall s | s in FoundSyllables(words)
      ensures SpaceFree(s)
    {
      var a, b :| Compared(words, a, b) && s in Syllabify(a);
      EntriesSpaceFree(a);
    }
  }

  // Minimal pairs (lines 59-76).

  /** Writing `ys[i]` over `xs[i]` makes the two words spell the same
      (lines 63-65). */
  predicate CollapsesAt(xs: seq<string>, ys: seq<string>, i: int)
  {
    |xs| == |ys| && 0 <= i < |xs| && Join(xs[i := ys[i]]) == Join(ys)
  }

  /** The loop at lines 61-76 from position `i` on: each collapsing position
      records the sorted pair of the two syllables there. */
  function RecordFrom(xs: seq<string>, ys: seq<string>, i: nat): seq<Pair>
    requires |xs| == |ys| && i <= |xs|
    decreases |xs| - i
  {
    if i == |xs| then []
    else (if Join(xs[i := ys[i]]) == Join(ys) then [Sorted(xs[i], ys[i])] else []) + RecordFrom(xs, ys, i + 1)
  }

  /** Lines 59-76 for one ordered pair of words: nothing when the syllable
      counts differ. */
  function Recorded(xs: seq<string>, ys: seq<string>): seq<Pair>
  {
    if |xs| != |ys| then [] else RecordFrom(xs, ys, 0)
  }

  lemma {:induction false} RecordFromMembers(xs: seq<string>, ys: seq<string>, i: nat, p: Pair)
    requires |xs| == |ys| && i <= |xs|
    ensures p in RecordFrom(xs, ys, i) <==> exists k :: i <= k && CollapsesAt(xs, ys, k) && p == Sorted(xs[k], ys[k])
    decreases |xs| - i
  {
    if i < |xs| {
      RecordFromMembers(xs, ys, i + 1, p);
      var head := if CollapsesAt(xs, ys, i) then [Sorted(xs[i], ys[i])] else [];
      assert RecordFrom(xs, ys, i) == head + RecordFrom(xs, ys, i + 1);
      if p in RecordFrom(xs, ys, i + 1) {
        var k :| i + 1 <= k && CollapsesAt(xs, ys, k) && p == Sorted(xs[k], ys[k]);
      }
      if p in head {
        assert CollapsesAt(xs, ys, i) && p == Sorted(xs[i], ys[i]);
      }
    }
  }

  /** What the inner loop for word `a` records, one part per `b`. */
  function MinimalParts(words: seq<string>, a: string): seq<seq<Pair>>
  {
    seq(|words|, j requires 0 <= j < |words| =>
      if a == words[j] then [] else Recorded(Syllabify(a), Syllabify(words[j])))
  }

  /** What the outer loop records, one part per `a`, in loop order. */
  function MinimalVisits(words: seq<string>): seq<seq<Pair>>
  {
    seq(|words|, i requires 0 <= i < |words| => Flatten(MinimalParts(words, words[i])))
  }

  lemma MinimalStreamMembers(words: seq<string>, p: Pair)
    ensures p in Flatten(MinimalVisits(words)) <==>
      exists a, b :: Compared(words, a, b) && p in Recorded(Syllabify(a), Syllabify(b))
  {
    var outer := MinimalVisits(words);
    FlattenMembers(outer, p);
    if p in Flatten(outer) {
      var i :| 0 <= i < |outer| && p in outer[i];
      FlattenMembers(MinimalParts(words, words[i]), p);
      var j :| 0 <= j < |words| && p in MinimalParts(words, words[i])[j];
      assert Compared(words, words[i], words[j]);
    }
    forall a, b | Compared(words, a, b) && p in Recorded(Syllabify(a), Syllabify(b))
      ensures p in Flatten(outer)
    {
      var i :| 0 <= i < |words| && words[i] == a;
      var j :| 0 <= j < |words| && words[j] == b;
      FlattenMembers(MinimalParts(words, a), p);
      assert p in MinimalParts(words, a)[j];
      assert p in outer[i];
    }
  }

  /** Words `a` and `b` and position `i` show that `p` is a minimal pair. */
  predicate MinimalWitness(words: seq<string>, p: Pair, a: string, b: string, i: int)
  {
    && Compared(words, a, b)
    && CollapsesAt(Syllabify(a), Syllabify(b), i)
    && p == Sorted(Syllabify(a)[i], Syllabify(b)[i])
  }

  /** `minimalPairs`: exactly the sorted pairs some compared words and
      position witness. */
  function MinimalPairs(words: seq<string>): (minimal: seq<Pair>)
    ensures Distinct(minimal)
    ensures forall p :: p in minimal <==> exists a, b, i :: MinimalWitness(words, p, a, b, i)
  {
    var minimal := AddAll([], Flatten(MinimalVisits(words)));
    forall p
      ensures p in minimal <==> exists a, b, i :: MinimalWitness(words, p, a, b, i)
    {
      MinimalStreamMembers(words, p);
      if p in minimal {
        var a, b :| Compared(words, a, b) && p in Recorded(Syllabify(a), Syllabify(b));
        RecordFromMembers(Syllabify(a), Syllabify(b), 0, p);
        var i :| 0 <= i && CollapsesAt(Syllabify(a), Syllabify(b), i) && p == Sorted(Syllabify(a)[i], Syllabify(b)[i]);
        assert MinimalWitness(words, p, a, b, i);
      } else {
        forall a, b, i | MinimalWitness(words, p, a, b, i)
          ensures false
        {
          RecordFromMembers(Syllabify(a), Syllabify(b), 0, p);
        }
      }
    }
    minimal
  }

  /** Two different words whose syllables differ at position `i` only make
      the syllables there a minimal pair. */
  lemma SingleDifferenceIsMinimal(words: seq<string>, a: string, b: string, i: int)
    requires Compared(words, a, b)
    requires |Syllabify(a)| == |Syllabify(b)| && 0 <= i < |Syllabify(a)|
    requires forall j :: 0 <= j < |Syllabify(a)| && j != i ==> Syllabify(a)[j] == Syllabify(b)[j]
    ensures Sorted(Syllabify(a)[i], Syllabify(b)[i]) in MinimalPairs(words)
  {
    var xs, ys := Syllabify(a), Syllabify(b);
    assert xs[i := ys[i]] == ys;
    assert MinimalWitness(words, Sorted(xs[i], ys[i]), a, b, i);
  }

  // Mergeable pairs (lines 82-97).

  /** Lines 86-91 for one `s1` and one `s2`: the sorted pair, unless its
      members are equal or it is a minimal pair. */
  function Candidate(s1: string, s2: string, minimal: seq<Pair>): seq<Pair>
  {
    var p := Sorted(s1, s2);
    if p.first == p.second || p in minimal then [] else [p]
  }

  /** Lines 85-92 for one `s1`, one part per `s2`. */
  function CandidateParts(s1: string, found: seq<string>, minimal: seq<Pair>): seq<seq<Pair>>
  {
    seq(|found|, j requires 0 <= j < |found| => Candidate(s1, found[j], minimal))
  }

  /** Lines 84-93, one part per `s1`, in loop order. */
  function CandidateVisits(found: seq<string>, minimal: seq<Pair>): seq<seq<Pair>>
  {
    seq(|found|, i requires 0 <= i < |found| => Flatten(CandidateParts(found[i], found, minimal)))
  }

  predicate Admitted(minimal: seq<Pair>, p: Pair, s1: string, s2: string)
  {
    p == Sorted(s1, s2) && p.first != p.second && p !in minimal
  }

  lemma CandidateMembers(found: seq<string>, minimal: seq<Pair>, p: Pair)
    ensures p in Flatten(CandidateVisits(found, minimal)) <==>
      exists s1, s2 :: s1 in found && s2 in found && Admitted(minimal, p, s1, s2)
  {
    var outer := CandidateVisits(found, minimal);
    FlattenMembers(outer, p);
    if p in Flatten(outer) {
      var i :| 0 <= i < |outer| && p in outer[i];
      var parts := CandidateParts(found[i], found, minimal);
      FlattenMembers(parts, p);
      var j :| 0 <= j < |found| && p in parts[j];
      assert parts[j] == Candidate(found[i], found[j], minimal);
      assert Admitted(minimal, p, found[i], found[j]);
    }
    forall s1, s2 | s1 in found && s2 in found && Admitted(minimal, p, s1, s2)
      ensures p in Flatten(outer)
    {
      var i :| 0 <= i < |found| && found[i] == s1;
      var j :| 0 <= j < |found| && found[j] == s2;
      var parts := CandidateParts(s1, found, minimal);
      assert parts[j] == Candidate(s1, s2, minimal) == [p];
      FlattenMembers(parts, p);
      assert outer[i] == Flatten(parts);
    }
  }

  /** The `mergeable` set of lines 82-93. */
  function MergeableSet(words: seq<string>): seq<Pair>
  {
    var found := FoundSyllables(words);
    AddAll([], Flatten(CandidateVisits(found, MinimalPairs(words))))
  }

  /** The `mergeable` set holds every strictly ordered pair of found
      syllables that is not a minimal pair, and nothing else. */
  lemma MergeableSetMembers(words: seq<string>, p: Pair)
    ensures var found := FoundSyllables(words);
      p in MergeableSet(words) <==>
        p.first in found && p.second in found && Less(p.first, p.second) && p !in MinimalPairs(words)
  {
    var found := FoundSyllables(words);
    var minimal := MinimalPairs(words);
    CandidateMembers(found, minimal, p);
    if p in MergeableSet(words) {
      var s1, s2 :| s1 in found && s2 in found && Admitted(minimal, p, s1, s2);
      LessTotal(p.first, p.second);
    }
    if Less(p.first, p.second) {
      SortedOfOrdered(p);
      LessIrreflexive(p.first);
      assert Admitted(minimal, p, p.first, p.second) <==> p !in minimal;
    }
  }

  /** Line 97: drops every pair whose key starts with "n " or ends with " n". */
  function WithoutNasal(ps: seq<Pair>): (r: seq<Pair>)
    ensures IsSubsequence(r, ps)
    ensures forall p :: p in r <==> p in ps && !StartsWith(Key(p), "n ") && !EndsWith(Key(p), " n")
  {
    if |ps| == 0 then []
    else if StartsWith(Key(ps[0]), "n ") || EndsWith(Key(ps[0]), " n") then WithoutNasal(ps[1..])
    else [ps[0]] + WithoutNasal(ps[1..])
  }

  /** What `getMergeablePairs` returns a pair for. */
  predicate Mergeable(words: seq<string>, p: Pair)
  {
    var found := FoundSyllables(words);
    && p.first in found && p.second in found
    && Less(p.first, p.second)
    && p !in MinimalPairs(words)
    && p.first != "n" && p.second != "n"
  }

  /** `getMergeablePairs(words)`: without duplicates, every strictly ordered
      pair of two found syllables that is not a minimal pair and does not
      involve the bare "n". */
  function MergeablePairs(words: seq<string>): (r: seq<Pair>)
    ensures Distinct(r)
    ensures forall p :: p in r <==> Mergeable(words, p)
  {
    var all := MergeableSet(words);
    var r := WithoutNasal(all);
    SubsequenceFacts(r, all);
    forall p
      ensures p in r <==> Mergeable(words, p)
    {
      MergeableSetMembers(words, p);
      if p in all {
        FoundSpaceFree(words);
        NasalKeyTest(p);
      }
    }
    r
  }
}
