/** Syllable pairs as the source stores them: the two syllables sorted
    (`[x, y].sort()`) and joined by one space (`pair.join(" ")`), and split
    back apart by `pair.split(" ")`. The model keeps a pair as a datatype;
    the lemmas here show that the string key carries exactly the same
    information, so comparing keys and comparing pairs agree. */
module SyllablePairs {
  import opened Optional
  import opened Text

  datatype Pair = Pair(first: string, second: string)

  /** `[x, y].sort()`: the two syllables in code-unit order. */
  function Sorted(x: string, y: string): (p: Pair)
    ensures (p.first == x && p.second == y) || (p.first == y && p.second == x)
    ensures !Less(p.second, p.first)
  {
    LessAsymmetric(x, y);
    if Less(y, x) then Pair(y, x) else Pair(x, y)
  }

  /** Sorting makes the order of the two arguments irrelevant. */
  lemma SortedSymmetric(x: string, y: string)
    ensures Sorted(x, y) == Sorted(y, x)
  {
    LessTotal(x, y);
    LessAsymmetric(x, y);
  }

  /** A pair with its members in strict order is its own sorted form. */
  lemma SortedOfOrdered(p: Pair)
    requires Less(p.first, p.second)
    ensures Sorted(p.first, p.second) == p
  {
    LessAsymmetric(p.first, p.second);
  }

  predicate SpaceFree(s: string)
  {
    ' ' !in s
  }

  /** `pair.join(" ")`. */
  function Key(p: Pair): string
  {
    p.first + " " + p.second
  }

  /** The text before the first space, or all of `s` when it has none. */
  function UpToSpace(s: string): (r: string)
    ensures r <= s && SpaceFree(r)
    ensures |r| < |s| ==> s[|r|] == ' '
  {
    if |s| == 0 || s[0] == ' ' then "" else [s[0]] + UpToSpace(s[1..])
  }

  /** `const [a, b] = key.split(" ")`: the first two space-separated pieces;
      without any space `b` would be `undefined`. */
  function SplitKey(key: string): Option<Pair>
  {
    var a := UpToSpace(key);
    if |a| == |key| then None
    else Some(Pair(a, UpToSpace(key[|a| + 1..])))
  }

  /** The piece before the first space of `x + " " + rest` is `x`. */
  lemma {:induction false} UpToSpaceBeforeSpace(x: string, rest: string)
    requires SpaceFree(x)
    ensures UpToSpace(x + " " + rest) == x
  {
    if |x| > 0 {
      assert (x + " " + rest)[0] == x[0];
      assert (x + " " + rest)[1..] == x[1..] + " " + rest;
      UpToSpaceBeforeSpace(x[1..], rest);
      assert [x[0]] + x[1..] == x;
    }
  }

  /** A space-free string is one piece. */
  lemma {:induction false} UpToSpaceWhole(x: string)
    requires SpaceFree(x)
    ensures UpToSpace(x) == x
  {
    if |x| > 0 {
      UpToSpaceWhole(x[1..]);
      assert [x[0]] + x[1..] == x;
    }
  }

  /** Splitting a key gives back the pair it was built from, as long as
      neither syllable holds a space. */
  lemma SplitKeyRoundTrip(p: Pair)
    requires SpaceFree(p.first) && SpaceFree(p.second)
    ensures SplitKey(Key(p)) == Some(p)
  {
    var k := Key(p);
    UpToSpaceBeforeSpace(p.first, p.second);
    assert k[|p.first| + 1..] == p.second;
    UpToSpaceWhole(p.second);
  }

  /** Two pairs of space-free syllables have the same key only when they are
      the same pair, so a set of keys and a set of pairs agree. */
  lemma KeyInjective(p: Pair, q: Pair)
    requires SpaceFree(p.first) && SpaceFree(p.second)
    requires SpaceFree(q.first) && SpaceFree(q.second)
    requires Key(p) == Key(q)
    ensures p == q
  {
    SplitKeyRoundTrip(p);
    SplitKeyRoundTrip(q);
  }

  predicate StartsWith(s: string, prefix: string)
  {
    prefix <= s
  }

  predicate EndsWith(s: string, suffix: string)
  {
    |suffix| <= |s| && s[|s| - |suffix|..] == suffix
  }

  /** The test `p.startsWith("n ") || p.endsWith(" n")` on a key (mod.ts:97)
      is true exactly when one of the two syllables is the bare "n". */
  lemma NasalKeyTest(p: Pair)
    requires SpaceFree(p.first) && SpaceFree(p.second)
    ensures StartsWith(Key(p), "n ") <==> p.first == "n"
    ensures EndsWith(Key(p), " n") <==> p.second == "n"
  {
    var k := Key(p);
    if StartsWith(k, "n ") {
      assert k[0] == 'n' && k[1] == ' ';
    }
    if p.first == "n" {
      assert k[..2] == "n ";
    }
    if EndsWith(k, " n") {
      assert k[|k| - 1] == 'n' && k[|k| - 2] == ' ';
    }
    if p.second == "n" {
      assert k[|k| - 2..] == " n";
    }
  }
}
