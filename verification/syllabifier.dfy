/** `wordToSyllables` (mod.ts:16-38): the syllable pattern
    `/[jklmnpstw]?(?=[aeiou])[aeiou]n?(?![aeiou])/gi` scanned over a word from
    left to right, followed by splitting every coda `n` off into a syllable of
    its own. The regular expression is written out as an explicit scanner. */
module Syllabifier {
  import opened Optional
  import opened Text

  /** The consonants that may open a syllable, `[jklmnpstw]`. */
  predicate IsOnset(c: char)
  {
    var f := Fold(c);
    f == 'j' || f == 'k' || f == 'l' || f == 'm' || f == 'n' || f == 'p' || f == 's' || f == 't' || f == 'w'
  }

  /** The vowels, `[aeiou]`. */
  predicate IsVowel(c: char)
  {
    var f := Fold(c);
    f == 'a' || f == 'e' || f == 'i' || f == 'o' || f == 'u'
  }

  /** The optional final `n?` of the pattern. */
  predicate IsCoda(c: char)
  {
    Fold(c) == 'n'
  }

  predicate VowelAt(s: string, i: int)
  {
    0 <= i < |s| && IsVowel(s[i])
  }

  /** The text one match consumes, `[jklmnpstw]?[aeiou]n?`; the lookahead
      `(?=[aeiou])` adds nothing, since a vowel must follow at once anyway. */
  predicate PatternBody(t: string)
  {
    || (|t| == 1 && IsVowel(t[0]))
    || (|t| == 2 && IsOnset(t[0]) && IsVowel(t[1]))
    || (|t| == 2 && IsVowel(t[0]) && IsCoda(t[1]))
    || (|t| == 3 && IsOnset(t[0]) && IsVowel(t[1]) && IsCoda(t[2]))
  }

  /** `s[p..e]` is a match of the whole pattern starting at `p`: a pattern body
      that the negative lookahead `(?![aeiou])` accepts. */
  predicate MatchesAt(s: string, p: nat, e: nat)
  {
    p < e <= |s| && PatternBody(s[p..e]) && !VowelAt(s, e)
  }

  /** One attempt of the pattern at position `p`, returning where the match
      ends. Both `?` quantifiers are greedy, and a consonant that could open the
      syllable is never a vowel, so backtracking picks the longest match. */
  function MatchAt(s: string, p: nat): (r: Option<nat>)
    requires p <= |s|
    ensures r.Some? ==> MatchesAt(s, p, r.value)
    ensures r.Some? ==> forall e: nat :: r.value < e ==> !MatchesAt(s, p, e)
    ensures r.None? ==> forall e: nat :: !MatchesAt(s, p, e)
  {
    var v := if p < |s| && IsOnset(s[p]) then p + 1 else p;
    if !VowelAt(s, v) then None
    else if v + 1 < |s| && IsCoda(s[v + 1]) && !VowelAt(s, v + 2) then Some(v + 2)
    else if !VowelAt(s, v + 1) then Some(v + 1)
    else None
  }

  /** `s.match(pattern)` under the `g` flag, from position `p` on: matches do
      not overlap, the search resumes where a match ended, and a position
      where the pattern fails is skipped. */
  function Scan(s: string, p: nat): (ms: seq<string>)
    requires p <= |s|
    ensures forall k :: 0 <= k < |ms| ==> PatternBody(ms[k])
    decreases |s| - p
  {
    if p == |s| then []
    else match MatchAt(s, p)
      case Some(e) => [s[p..e]] + Scan(s, e)
      case None => Scan(s, p + 1)
  }

  /** Where the search from `p` finds its first match: the least position
      `q` at which the pattern succeeds. */
  predicate FirstMatchAt(s: string, p: nat, q: nat)
    requires p <= |s|
  {
    p <= q < |s| && MatchAt(s, q).Some? && forall j :: p <= j < q ==> MatchAt(s, j).None?
  }

  /** The search from `p` takes the match at `q` and resumes where it ends. */
  predicate ResumesAfter(s: string, p: nat, q: nat)
    requires p <= |s|
  {
    FirstMatchAt(s, p, q) && Scan(s, p) == [s[q..MatchAt(s, q).value]] + Scan(s, MatchAt(s, q).value)
  }

  /** The first match from `p` on is the one at the least position where the
      pattern succeeds, and the search resumes where it ends: `Scan` returns
      the successive leftmost matches of the `g` flag. */
  lemma {:induction false} ScanLeftmost(s: string, p: nat)
    requires p <= |s| && |Scan(s, p)| > 0
    ensures exists q: nat :: ResumesAfter(s, p, q)
    decreases |s| - p
  {
    match MatchAt(s, p)
    case Some(e) =>
      assert Scan(s, p) == [s[p..e]] + Scan(s, e);
      assert FirstMatchAt(s, p, p);
      assert ResumesAfter(s, p, p);
    case None =>
      assert Scan(s, p) == Scan(s, p + 1);
      ScanLeftmost(s, p + 1);
      var q: nat :| ResumesAfter(s, p + 1, q);
      assert FirstMatchAt(s, p, q);
      assert ResumesAfter(s, p, q);
  }

  /** `m` is the text of a whole-pattern match at or after `p`. */
  ghost predicate PieceFrom(s: string, p: nat, m: string)
  {
    exists q: nat, e: nat :: p <= q && MatchesAt(s, q, e) && m == s[q..e]
  }

  lemma PieceFromEarlier(s: string, p: nat, p': nat, m: string)
    requires p <= p' && PieceFrom(s, p', m)
    ensures PieceFrom(s, p, m)
  {
    var q: nat, e: nat :| p' <= q && MatchesAt(s, q, e) && m == s[q..e];
  }

  /** Every match is a piece of the word at or after `p` where the whole
      pattern matches. */
  lemma {:induction false} ScanPieces(s: string, p: nat)
    requires p <= |s|
    ensures forall k :: 0 <= k < |Scan(s, p)| ==> PieceFrom(s, p, Scan(s, p)[k])
    decreases |s| - p
  {
    if p < |s| {
      var ms := Scan(s, p);
      match MatchAt(s, p)
      case Some(e) =>
        ScanPieces(s, e);
        assert ms == [s[p..e]] + Scan(s, e);
        forall k | 0 <= k < |ms|
          ensures PieceFrom(s, p, ms[k])
        {
          if k == 0 {
            assert MatchesAt(s, p, e);
          } else {
            assert ms[k] == Scan(s, e)[k - 1];
            PieceFromEarlier(s, p, e, ms[k]);
          }
        }
      case None =>
        ScanPieces(s, p + 1);
        assert ms == Scan(s, p + 1);
        forall k | 0 <= k < |ms|
          ensures PieceFrom(s, p, ms[k])
        {
          PieceFromEarlier(s, p, p + 1, ms[k]);
        }
    }
  }

  /** A word without upper-case letters yields matches without them. */
  lemma {:induction false} ScanLowercase(s: string, p: nat)
    requires p <= |s| && Lowercase(s)
    ensures forall k :: 0 <= k < |Scan(s, p)| ==> Lowercase(Scan(s, p)[k])
    decreases |s| - p
  {
    if p < |s| {
      match MatchAt(s, p)
      case Some(e) =>
        ScanLowercase(s, e);
        assert forall j :: 0 <= j < e - p ==> s[p..e][j] == s[p + j];
        assert Scan(s, p) == [s[p..e]] + Scan(s, e);
      case None =>
        ScanLowercase(s, p + 1);
    }
  }

  /** A syllable without its coda, `[jklmnpstw]?[aeiou]`. */
  predicate IsSyllable(t: string)
  {
    (|t| == 1 && IsVowel(t[0])) || (|t| == 2 && IsOnset(t[0]) && IsVowel(t[1]))
  }

  /** What an entry of `wordToSyllables` can be: a syllable, the bare "n" split
      off a coda, or a syllable still carrying an upper-case coda `N`, which the
      case-sensitive `endsWith("n")` test leaves in place. */
  predicate IsEntry(t: string)
  {
    || t == "n"
    || IsSyllable(t)
    || (|t| >= 2 && t[|t| - 1] == 'N' && IsSyllable(t[..|t| - 1]))
  }

  /** Lines 28-32 for one match: a match ending in `n` becomes the match
      without it, followed by a bare "n". */
  function SplitCoda(m: string): seq<string>
  {
    if |m| > 0 && m[|m| - 1] == 'n' then [m[..|m| - 1], "n"] else [m]
  }

  /** The loop at lines 27-33; stepping past the inserted "n" (line 31) means
      each match is looked at exactly once. */
  function SplitCodas(ms: seq<string>): seq<string>
  {
    if |ms| == 0 then [] else SplitCoda(ms[0]) + SplitCodas(ms[1..])
  }

  /** The properties below for the entries of one match. */
  lemma SplitCodaShape(m: string)
    requires PatternBody(m)
    ensures var h := SplitCoda(m);
      && (forall k :: 0 <= k < |h| ==> IsEntry(h[k]))
      && (forall k :: 0 <= k < |h| && h[k] == "n" ==> k > 0 && IsSyllable(h[k - 1]))
      && h[0] != "n"
      && Join(h) == m
  {
    if |m| > 0 && m[|m| - 1] == 'n' {
      assert IsSyllable(m[..|m| - 1]);
      assert m == m[..|m| - 1] + "n";
      assert Join(["n"]) == "n" + Join([]);
    }
  }

  /** Splitting codas off pattern matches yields entries of the expected
      shapes, puts every bare "n" right after the syllable it closed, and
      spells the same text. */
  lemma {:induction false} SplitCodasShape(ms: seq<string>)
    requires forall k :: 0 <= k < |ms| ==> PatternBody(ms[k])
    ensures var r := SplitCodas(ms);
      && (forall k :: 0 <= k < |r| ==> IsEntry(r[k]))
      && (forall k :: 0 <= k < |r| && r[k] == "n" ==> k > 0 && IsSyllable(r[k - 1]))
      && (|r| > 0 ==> r[0] != "n")
      && Join(r) == Join(ms)
  {
    if |ms| > 0 {
      var head := SplitCoda(ms[0]);
      var tail := SplitCodas(ms[1..]);
      SplitCodaShape(ms[0]);
      SplitCodasShape(ms[1..]);
      var r := head + tail;
      assert SplitCodas(ms) == r;
      forall k | 0 <= k < |r|
        ensures IsEntry(r[k])
        ensures r[k] == "n" ==> k > 0 && IsSyllable(r[k - 1])
      {
        if k < |head| {
          assert r[k] == head[k];
          if k > 0 { assert r[k - 1] == head[k - 1]; }
        } else {
          assert r[k] == tail[k - |head|];
          if k > |head| { assert r[k - 1] == tail[k - 1 - |head|]; }
          else if r[k] == "n" { assert false; }
        }
      }
      JoinAppend(head, tail);
    }
  }

  /** `wordToSyllables(word)` without its cache. */
  function Syllabify(word: string): (syllables: seq<string>)
    ensures forall k :: 0 <= k < |syllables| ==> IsEntry(syllables[k])
    ensures forall k :: 0 <= k < |syllables| && syllables[k] == "n" ==> k > 0 && IsSyllable(syllables[k - 1])
    ensures Join(syllables) == Join(Scan(word, 0))
  {
    SplitCodasShape(Scan(word, 0));
    SplitCodas(Scan(word, 0))
  }

  /** For a lower-case word every entry is a syllable `[jklmnpstw]?[aeiou]`
      or the bare "n" of a coda. */
  lemma LowercaseEntries(word: string)
    requires Lowercase(word)
    ensures forall k :: 0 <= k < |Syllabify(word)| ==> Syllabify(word)[k] == "n" || IsSyllable(Syllabify(word)[k])
  {
    var ms := Scan(word, 0);
    ScanLowercase(word, 0);
    forall k | 0 <= k < |Syllabify(word)|
      ensures Syllabify(word)[k] == "n" || IsSyllable(Syllabify(word)[k])
    {
      var t := Syllabify(word)[k];
      SplitCodasEntriesFrom(ms, k);
      var i :| 0 <= i < |ms| && (t == "n" || t <= ms[i]);
      if t != "n" {
        assert t[|t| - 1] == ms[i][|t| - 1];
      }
    }
  }

  /** Every character of an entry of `SplitCodas(ms)` comes from a match. */
  lemma {:induction false} SplitCodasEntriesFrom(ms: seq<string>, k: nat)
    requires k < |SplitCodas(ms)|
    ensures exists i :: 0 <= i < |ms| && (SplitCodas(ms)[k] == "n" || SplitCodas(ms)[k] <= ms[i])
  {
    var head := SplitCoda(ms[0]);
    if k < |head| {
      assert SplitCodas(ms)[k] == head[k];
      assert head[k] == "n" || head[k] <= ms[0];
    } else {
      assert SplitCodas(ms)[k] == SplitCodas(ms[1..])[k - |head|];
      SplitCodasEntriesFrom(ms[1..], k - |head|);
      var i :| 0 <= i < |ms[1..]| && (SplitCodas(ms[1..])[k - |head|] == "n" || SplitCodas(ms[1..])[k - |head|] <= ms[1..][i]);
      assert ms[1..][i] == ms[i + 1];
    }
  }

  /** A word yields no matches exactly when the pattern matches nowhere in it
      (mod.ts:25, where `match` returning `null` becomes `[]`). */
  lemma {:induction false} ScanEmptyIffNoMatch(s: string, p: nat)
    requires p <= |s|
    ensures Scan(s, p) == [] <==> forall q: nat, e: nat :: p <= q ==> !MatchesAt(s, q, e)
    decreases |s| - p
  {
    if p < |s| {
      ScanEmptyIffNoMatch(s, p + 1);
      match MatchAt(s, p)
      case Some(e) =>
        assert MatchesAt(s, p, e);
      case None =>
        assert forall e: nat :: !MatchesAt(s, p, e);
    }
  }

  /** A word with no syllable in it yields the empty sequence. */
  lemma SyllabifyEmptyIffNoMatch(word: string)
    ensures Syllabify(word) == [] <==> forall q: nat, e: nat :: !MatchesAt(word, q, e)
  {
    ScanEmptyIffNoMatch(word, 0);
    var ms := Scan(word, 0);
    if |ms| > 0 {
      assert SplitCodas(ms) == SplitCoda(ms[0]) + SplitCodas(ms[1..]);
    }
  }

  /** Pattern matches laid end to end as in a well-formed word: every one
      after the first opens with a consonant, so no match can swallow the
      start of the next. */
  predicate Chained(ms: seq<string>)
  {
    forall k :: 0 <= k < |ms| ==> PatternBody(ms[k]) && (k > 0 ==> IsOnset(ms[k][0]))
  }

  /** The scanner finds `x` at `p` when `x` is a pattern body there and is
      followed by the end of the word or by a consonant and a vowel. */
  lemma MatchAtBeforeOnset(s: string, p: nat, x: string)
    requires p + |x| <= |s| && s[p..p + |x|] == x && PatternBody(x)
    requires var e := p + |x|; e == |s| || (e + 1 < |s| && IsOnset(s[e]) && IsVowel(s[e + 1]))
    ensures MatchAt(s, p) == Some(p + |x|)
  {
    var e := p + |x|;
    assert forall i :: 0 <= i < |x| ==> s[p + i] == x[i];
    assert !VowelAt(s, e);
    assert MatchesAt(s, p, e);
    forall e': nat | e < e'
      ensures !MatchesAt(s, p, e')
    {
    }
  }

  /** Dropping the first of a chain of matches leaves a chain. */
  lemma ChainedTail(ms: seq<string>)
    requires |ms| > 0 && Chained(ms)
    ensures Chained(ms[1..])
  {
    forall k | 0 <= k < |ms[1..]|
      ensures PatternBody(ms[1..][k]) && (k > 0 ==> IsOnset(ms[1..][k][0]))
    {
      assert ms[1..][k] == ms[k + 1];
    }
  }

  /** What follows the first match of a chain: the end of the word, or a
      consonant and a vowel. */
  lemma ChainedNext(s: string, p: nat, ms: seq<string>)
    requires p <= |s| && s[p..] == Join(ms) && Chained(ms) && |ms| > 0
    ensures var e := p + |ms[0]|;
      && e <= |s| && s[p..e] == ms[0] && s[e..] == Join(ms[1..])
      && (e == |s| || (e + 1 < |s| && IsOnset(s[e]) && IsVowel(s[e + 1])))
  {
    var x := ms[0];
    var e := p + |x|;
    assert s[p..] == x + Join(ms[1..]);
    assert s[p..e] == x;
    if |ms| > 1 {
      var y := ms[1];
      assert PatternBody(y) && IsOnset(y[0]);
      assert Join(ms[1..]) == y + Join(ms[2..]);
      assert s[e] == y[0] && s[e + 1] == y[1];
    } else {
      assert Join(ms[1..]) == "";
    }
  }

  lemma {:induction false} ScanOfChained(s: string, p: nat, ms: seq<string>)
    requires p <= |s| && s[p..] == Join(ms) && Chained(ms)
    ensures Scan(s, p) == ms
    decreases |ms|
  {
    if |ms| == 0 {
      assert |s[p..]| == 0;
    } else {
      var e := p + |ms[0]|;
      ChainedNext(s, p, ms);
      MatchAtBeforeOnset(s, p, ms[0]);
      ChainedTail(ms);
      ScanOfChained(s, e, ms[1..]);
      assert Scan(s, p) == [s[p..e]] + Scan(s, e);
    }
  }

  /** Syllabifying the spelling of a well-formed word recovers its matches,
      with their codas split off, and re-joining spells the word again. */
  lemma SyllabifyOfJoin(ms: seq<string>)
    requires Chained(ms)
    ensures Syllabify(Join(ms)) == SplitCodas(ms)
    ensures Join(Syllabify(Join(ms))) == Join(ms)
  {
    ScanOfChained(Join(ms), 0, ms);
  }

  /** Re-joining split syllables and scanning again can regroup them: the
      entries "ke", "n", "o" spell "keno", which scans as "ke", "no". */
  lemma RescanRegroups()
    ensures Join(["ke", "n", "o"]) == "keno"
    ensures Syllabify("keno") == ["ke", "no"]
  {
    assert Join(["o"]) == "o" + Join([]);
    assert Join(["n", "o"]) == "n" + Join(["o"]);
    var s := "keno";
    assert MatchAt(s, 0) == Some(2);
    assert MatchAt(s, 2) == Some(4);
    assert Scan(s, 4) == [];
    assert s[2..4] == "no" && s[0..2] == "ke";
    assert Scan(s, 2) == ["no"];
    assert Scan(s, 0) == ["ke", "no"];
    assert SplitCodas(["no"]) == ["no"] + SplitCodas([]);
  }

  /** The contents of `wordToSyllablesCache`. */
  type Memo = map<string, seq<string>>

  /** Every cached entry is what syllabifying its word yields. */
  predicate Faithful(memo: Memo)
  {
    forall w :: w in memo ==> memo[w] == Syllabify(w)
  }

  /** `wordToSyllables(word)` with its cache (mod.ts:20-37): a hit returns the
      stored syllables, a miss computes them and stores them. */
  function Lookup(memo: Memo, word: string): (r: (seq<string>, Memo))
    ensures r.1.Keys == memo.Keys + {word}
    ensures Faithful(memo) ==> r.0 == Syllabify(word) && Faithful(r.1)
  {
    if word in memo then (memo[word], memo)
    else var syllables := Syllabify(word); (syllables, memo[word := syllables])
  }

  /** Asking again for a word returns what the first lookup returned and
      leaves the cache as it was. */
  lemma RepeatedLookup(memo: Memo, word: string)
    requires Faithful(memo)
    ensures var (first, after) := Lookup(memo, word); Lookup(after, word) == (first, after)
  {
  }
}
