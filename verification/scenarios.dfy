/** Whole runs on small word lists: a small example of a minimal pair, a
    minimal pair between words that differ at every position, a merge whose
    result regroups once re-joined, a merge that makes two different words
    spell the same, and the group builder's first-match rule on disjoint and
    on chained merges. */
module Scenarios {
  import opened Optional
  import opened Text
  import opened InsertionOrder
  import opened Syllabifier
  import opened SyllablePairs
  import opened PairAnalyzer
  import opened MergeEngine
  import opened Groups

  /** A word spelled as two open consonant-vowel syllables splits into
      exactly those two. */
  lemma TwoOpenSyllables(x: string, y: string)
    requires |x| == 2 && IsOnset(x[0]) && IsVowel(x[1])
    requires |y| == 2 && IsOnset(y[0]) && IsVowel(y[1])
    ensures Syllabify(x + y) == [x, y]
  {
    var ms := [x, y];
    assert Join([y]) == y + Join([]);
    assert Join(ms) == x + y;
    assert Chained(ms);
    SyllabifyOfJoin(ms);
    assert SplitCodas(ms) == [x] + SplitCodas([y]);
    assert SplitCodas([y]) == [y] + SplitCodas([]);
  }

  /** A duplicate-free sequence whose only member is `x` is `[x]`. */
  lemma OnlyMember<T>(r: seq<T>, x: T)
    requires Distinct(r)
    requires forall y :: y in r <==> y == x
    ensures r == [x]
  {
    assert x in r;
    assert r[0] in r && r[|r| - 1] in r;
  }

  lemma JoinTwo(x: string, y: string)
    ensures Join([x, y]) == x + y
  {
    assert Join([y]) == y + Join([]);
  }

  /** Two-entry words collapse at one position only when they already agree
      at the other: the shared entry cancels from the common spelling. */
  lemma CollapseOfTwo(xs: seq<string>, ys: seq<string>, i: int)
    requires |xs| == 2 && |ys| == 2
    requires CollapsesAt(xs, ys, i)
    ensures xs[1 - i] == ys[1 - i]
  {
    var zs := xs[i := ys[i]];
    JoinTwo(zs[0], zs[1]);
    JoinTwo(ys[0], ys[1]);
    assert zs == [zs[0], zs[1]] && ys == [ys[0], ys[1]];
    var joined := ys[0] + ys[1];
    assert zs[0] + zs[1] == joined;
    if i == 0 {
      var n := |ys[0]|;
      assert joined[n..] == zs[1];
      assert joined[n..] == ys[1];
    } else {
      var n := |joined| - |ys[1]|;
      assert joined[..n] == zs[0];
      assert joined[..n] == ys[0];
    }
  }

  /** `words` syllabify, one by one, into the rows of `table`. */
  predicate Tabled(words: seq<string>, table: seq<seq<string>>)
  {
    |words| == |table| && forall k :: 0 <= k < |words| ==> Syllabify(words[k]) == table[k]
  }

  /** Every word splits into two entries. */
  predicate TwoByTwo(words: seq<string>)
  {
    forall k :: 0 <= k < |words| ==> |Syllabify(words[k])| == 2
  }

  /** Words `ka` and `kb` differ, share the syllable at position `1 - i`,
      and `p` is the sorted pair of their syllables at position `i`. */
  predicate DiffersOnlyAt(words: seq<string>, p: Pair, ka: int, kb: int, i: int)
    requires TwoByTwo(words)
  {
    && 0 <= ka < |words| && 0 <= kb < |words| && words[ka] != words[kb] && 0 <= i < 2
    && Syllabify(words[ka])[1 - i] == Syllabify(words[kb])[1 - i]
    && p == Sorted(Syllabify(words[ka])[i], Syllabify(words[kb])[i])
  }

  /** A witness of a minimal pair among two-syllable words differs from its
      partner word at the witnessed position only. */
  lemma WitnessDiffersOnlyAt(words: seq<string>, p: Pair, a: string, b: string, i: int) returns (ka: int, kb: int)
    requires TwoByTwo(words) && MinimalWitness(words, p, a, b, i)
    ensures DiffersOnlyAt(words, p, ka, kb, i)
  {
    ka :| 0 <= ka < |words| && words[ka] == a;
    kb :| 0 <= kb < |words| && words[kb] == b;
    CollapseOfTwo(Syllabify(a), Syllabify(b), i);
  }

  /** Two words that differ at one position only witness the pair there. */
  lemma DiffersOnlyAtIsWitness(words: seq<string>, p: Pair, ka: int, kb: int, i: int)
    requires TwoByTwo(words) && DiffersOnlyAt(words, p, ka, kb, i)
    ensures MinimalWitness(words, p, words[ka], words[kb], i)
  {
    var xs, ys := Syllabify(words[ka]), Syllabify(words[kb]);
    assert xs[i := ys[i]] == ys;
  }

  /** Among two-syllable words, the minimal pairs are exactly the pairs of
      syllables at one position of two different words that agree at the
      other position. */
  lemma MinimalOfTwoByTwo(words: seq<string>, p: Pair)
    requires TwoByTwo(words)
    ensures p in MinimalPairs(words) <==> exists ka, kb, i :: DiffersOnlyAt(words, p, ka, kb, i)
  {
    if p in MinimalPairs(words) {
      var a, b, i :| MinimalWitness(words, p, a, b, i);
      var ka, kb := WitnessDiffersOnlyAt(words, p, a, b, i);
    }
    if exists ka, kb, i :: DiffersOnlyAt(words, p, ka, kb, i) {
      var ka, kb, i :| DiffersOnlyAt(words, p, ka, kb, i);
      DiffersOnlyAtIsWitness(words, p, ka, kb, i);
    }
  }

  /** The two words and the position behind a minimal pair of two-syllable
      words. */
  lemma MinimalWitnessOf(words: seq<string>, p: Pair) returns (ka: int, kb: int, i: int)
    requires TwoByTwo(words) && p in MinimalPairs(words)
    ensures DiffersOnlyAt(words, p, ka, kb, i)
  {
    MinimalOfTwoByTwo(words, p);
    ka, kb, i :| DiffersOnlyAt(words, p, ka, kb, i);
  }

  // "toki", "pona", "toko".

  lemma TokiSyllables()
    ensures Syllabify("toki") == ["to", "ki"]
    ensures Syllabify("pona") == ["po", "na"]
    ensures Syllabify("toko") == ["to", "ko"]
  {
    assert "to" + "ki" == "toki" && "po" + "na" == "pona" && "to" + "ko" == "toko";
    TwoOpenSyllables("to", "ki");
    TwoOpenSyllables("po", "na");
    TwoOpenSyllables("to", "ko");
  }

  lemma TokiTabled(words: seq<string>)
    requires words == ["toki", "pona", "toko"]
    ensures Tabled(words, [["to", "ki"], ["po", "na"], ["to", "ko"]])
  {
    var t := [["to", "ki"], ["po", "na"], ["to", "ko"]];
    TokiSyllables();
    forall k | 0 <= k < |words|
      ensures Syllabify(words[k]) == t[k]
    {
      if k == 0 {
        assert words[k] == "toki";
      } else if k == 1 {
        assert words[k] == "pona";
      } else {
        assert words[k] == "toko";
      }
    }
  }

  lemma TokiTwoByTwo(words: seq<string>)
    requires Tabled(words, [["to", "ki"], ["po", "na"], ["to", "ko"]])
    ensures TwoByTwo(words)
  {
  }

  /** Of the pairs of syllables at one position, only "ki"/"ko" comes from
      two words that agree at the other position. */
  lemma TokiRows(p: Pair, ka: int, kb: int, i: int)
    requires 0 <= ka < 3 && 0 <= kb < 3 && ka != kb && 0 <= i < 2
    requires var t := [["to", "ki"], ["po", "na"], ["to", "ko"]];
      t[ka][1 - i] == t[kb][1 - i] && p == Sorted(t[ka][i], t[kb][i])
    ensures p == Pair("ki", "ko")
  {
  }

  lemma TokiWitness(words: seq<string>, p: Pair, ka: int, kb: int, i: int)
    requires Tabled(words, [["to", "ki"], ["po", "na"], ["to", "ko"]])
    requires TwoByTwo(words) && DiffersOnlyAt(words, p, ka, kb, i)
    ensures p == Pair("ki", "ko")
  {
    var t := [["to", "ki"], ["po", "na"], ["to", "ko"]];
    assert Syllabify(words[ka]) == t[ka] && Syllabify(words[kb]) == t[kb];
    TokiRows(p, ka, kb, i);
  }

  lemma TokiMinimalOnly(words: seq<string>, p: Pair)
    requires Tabled(words, [["to", "ki"], ["po", "na"], ["to", "ko"]])
    requires p in MinimalPairs(words)
    ensures p == Pair("ki", "ko")
  {
    TokiTwoByTwo(words);
    var ka, kb, i := MinimalWitnessOf(words, p);
    TokiWitness(words, p, ka, kb, i);
  }

  lemma TokiKiKo(words: seq<string>)
    requires Tabled(words, [["to", "ki"], ["po", "na"], ["to", "ko"]])
    ensures Pair("ki", "ko") in MinimalPairs(words)
  {
    assert Syllabify(words[0]) == ["to", "ki"] && Syllabify(words[2]) == ["to", "ko"];
    assert Less("ki", "ko");
    SingleDifferenceIsMinimal(words, words[0], words[2], 1);
  }

  /** Every found syllable sits in some row of the table. */
  lemma FoundOfTabled(words: seq<string>, table: seq<seq<string>>, s: string)
    requires Tabled(words, table)
    ensures s in FoundSyllables(words) ==> exists k :: 0 <= k < |table| && s in table[k]
  {
    if s in FoundSyllables(words) {
      var a, b :| Compared(words, a, b) && s in Syllabify(a);
      var k :| 0 <= k < |words| && words[k] == a;
      assert s in table[k];
    }
  }

  lemma TokiFound(words: seq<string>)
    requires Tabled(words, [["to", "ki"], ["po", "na"], ["to", "ko"]])
    ensures forall s :: s in FoundSyllables(words) <==> s in ["to", "ki", "po", "na", "ko"]
  {
    var t := [["to", "ki"], ["po", "na"], ["to", "ko"]];
    assert Syllabify(words[0]) == t[0] && Syllabify(words[1]) == t[1] && Syllabify(words[2]) == t[2];
    assert Compared(words, words[0], words[1]) && Compared(words, words[1], words[0]) && Compared(words, words[2], words[0]);
    forall s | s in FoundSyllables(words)
      ensures s in ["to", "ki", "po", "na", "ko"]
    {
      FoundOfTabled(words, t, s);
      var k :| 0 <= k < 3 && s in t[k];
      if k == 0 {
        assert s in ["to", "ki"];
      } else if k == 1 {
        assert s in ["po", "na"];
      } else {
        assert s in ["to", "ko"];
      }
    }
  }

  /** "toki", "pona", "toko": the two words that differ only in their
      second syllable make "ki"/"ko" the one minimal pair. The found
      syllables are the five syllables of the words; "ki"/"ko" is
      therefore not mergeable, while "ki"/"to" is. */
  lemma TokiPonaToko(words: seq<string>)
    requires words == ["toki", "pona", "toko"]
    ensures forall p :: p in MinimalPairs(words) <==> p == Pair("ki", "ko")
    ensures forall s :: s in FoundSyllables(words) <==> s in ["to", "ki", "po", "na", "ko"]
    ensures !Mergeable(words, Pair("ki", "ko"))
    ensures Mergeable(words, Pair("ki", "to"))
  {
    TokiTabled(words);
    forall p | p in MinimalPairs(words)
      ensures p == Pair("ki", "ko")
    {
      TokiMinimalOnly(words, p);
    }
    TokiKiKo(words);
    TokiFound(words);
    assert Less("ki", "to");
  }

  // "enan-a", "an-ana": a minimal pair across a shifted coda.

  lemma EnanSyllables()
    ensures Syllabify("enan-a") == ["e", "na", "n", "a"]
  {
    var s := "enan-a";
    assert MatchAt(s, 0) == Some(1);
    assert MatchAt(s, 1) == Some(4);
    assert MatchAt(s, 4) == None;
    assert MatchAt(s, 5) == Some(6);
    assert s[0..1] == "e" && s[1..4] == "nan" && s[5..6] == "a";
    assert Scan(s, 6) == [];
    assert Scan(s, 5) == ["a"];
    assert Scan(s, 4) == ["a"];
    assert Scan(s, 1) == ["nan", "a"];
    assert Scan(s, 0) == ["e", "nan", "a"];
    assert "nan"[..2] == "na";
    assert SplitCoda("nan") == ["na", "n"];
    assert SplitCodas(["a"]) == ["a"] + SplitCodas([]);
    assert SplitCodas(["nan", "a"]) == SplitCoda("nan") + SplitCodas(["a"]);
    assert SplitCodas(["e", "nan", "a"]) == SplitCoda("e") + SplitCodas(["nan", "a"]);
  }

  lemma AnanaSyllables()
    ensures Syllabify("an-ana") == ["a", "n", "a", "na"]
  {
    var s := "an-ana";
    assert MatchAt(s, 0) == Some(2);
    assert MatchAt(s, 2) == None;
    assert MatchAt(s, 3) == Some(4);
    assert MatchAt(s, 4) == Some(6);
    assert s[0..2] == "an" && s[3..4] == "a" && s[4..6] == "na";
    assert Scan(s, 6) == [];
    assert Scan(s, 4) == ["na"];
    assert Scan(s, 3) == ["a", "na"];
    assert Scan(s, 2) == ["a", "na"];
    assert Scan(s, 0) == ["an", "a", "na"];
    assert "an"[..1] == "a";
    assert SplitCoda("an") == ["a", "n"];
    assert SplitCodas(["na"]) == ["na"] + SplitCodas([]);
    assert SplitCodas(["a", "na"]) == ["a"] + SplitCodas(["na"]);
    assert SplitCodas(["an", "a", "na"]) == SplitCoda("an") + SplitCodas(["a", "na"]);
  }

  lemma AnanaSpellings()
    ensures Join(["a", "na", "n", "a"]) == "anana"
    ensures Join(["a", "n", "a", "na"]) == "anana"
  {
    assert Join(["a"]) == "a" + Join([]);
    assert Join(["n", "a"]) == "n" + Join(["a"]);
    assert Join(["na", "n", "a"]) == "na" + Join(["n", "a"]);
    assert Join(["a", "na", "n", "a"]) == "a" + Join(["na", "n", "a"]);
    assert Join(["na"]) == "na" + Join([]);
    assert Join(["a", "na"]) == "a" + Join(["na"]);
    assert Join(["n", "a", "na"]) == "n" + Join(["a", "na"]);
    assert Join(["a", "n", "a", "na"]) == "a" + Join(["n", "a", "na"]);
  }

  /** Writing "a" over the "e" of "e na n a" spells "anana", which is also
      the spelling of "a n a na": the collapse test records "a"/"e" though
      the two entry sequences differ at every position. */
  lemma ShiftedCollapse(words: seq<string>)
    requires Tabled(words, [["e", "na", "n", "a"], ["a", "n", "a", "na"]])
    ensures Pair("a", "e") in MinimalPairs(words)
  {
    var xs, ys := Syllabify(words[0]), Syllabify(words[1]);
    assert xs == ["e", "na", "n", "a"] && ys == ["a", "n", "a", "na"];
    assert xs[0 := ys[0]] == ["a", "na", "n", "a"];
    AnanaSpellings();
    assert CollapsesAt(xs, ys, 0);
    assert words[0] in words && words[1] in words && words[0] != words[1];
    assert Less("a", "e");
    LessAsymmetric("a", "e");
    assert Sorted("e", "a") == Pair("a", "e");
    assert MinimalWitness(words, Pair("a", "e"), words[0], words[1], 0);
  }

  /** A minimal pair need not come from words that differ in one syllable:
      "enan-a" and "an-ana" split into four entries each, different at every
      position, and still make "a"/"e" a minimal pair. */
  lemma MinimalAcrossShift(words: seq<string>)
    requires words == ["enan-a", "an-ana"]
    ensures Syllabify(words[0]) == ["e", "na", "n", "a"]
    ensures Syllabify(words[1]) == ["a", "n", "a", "na"]
    ensures forall j :: 0 <= j < 4 ==> Syllabify(words[0])[j] != Syllabify(words[1])[j]
    ensures Pair("a", "e") in MinimalPairs(words)
  {
    ShiftTabled(words);
    ShiftedCollapse(words);
  }

  lemma ShiftTabled(words: seq<string>)
    requires words == ["enan-a", "an-ana"]
    ensures Tabled(words, [["e", "na", "n", "a"], ["a", "n", "a", "na"]])
  {
    EnanSyllables();
    AnanaSyllables();
    var t := [["e", "na", "n", "a"], ["a", "n", "a", "na"]];
    forall k | 0 <= k < |words|
      ensures Syllabify(words[k]) == t[k]
    {
      if k == 0 {
        assert words[k] == "enan-a";
      } else {
        assert words[k] == "an-ana";
      }
    }
  }

  // A merge seen after re-joining.

  /** The entries of one word before and after a merge: removing "nu" from
      "ka n nu" gives "ka n u", which is stored as "kanu" and read back as
      "ka nu". The stored word has one entry fewer, and "nu" is back. */
  lemma MergeCanRegroup()
    ensures Syllabify("kannu") == ["ka", "n", "nu"]
    ensures Rewrite("kannu", Pair("nu", "u")) == "kanu"
    ensures Syllabify("kanu") == ["ka", "nu"]
  {
    KannuSyllables();
    assert Replace(["ka", "n", "nu"], "nu", "u") == ["ka", "n", "u"];
    KanuSpelling();
    assert "ka" + "nu" == "kanu";
    TwoOpenSyllables("ka", "nu");
  }

  lemma KannuSyllables()
    ensures Syllabify("kannu") == ["ka", "n", "nu"]
  {
    var ms := ["kan", "nu"];
    assert Join(["nu"]) == "nu" + Join([]);
    assert Join(ms) == "kannu";
    assert Chained(ms);
    SyllabifyOfJoin(ms);
    assert "kan"[..2] == "ka";
    assert SplitCoda("kan") == ["ka", "n"];
    assert SplitCodas(["nu"]) == ["nu"] + SplitCodas([]);
    assert SplitCodas(ms) == SplitCoda("kan") + SplitCodas(["nu"]);
  }

  lemma KanuSpelling()
    ensures Join(["ka", "n", "u"]) == "kanu"
  {
    assert Join(["u"]) == "u" + Join([]);
    assert Join(["n", "u"]) == "n" + Join(["u"]);
    assert Join(["ka", "n", "u"]) == "ka" + Join(["n", "u"]);
  }

  // "kala", "laka".

  lemma KalaTabled(words: seq<string>)
    requires words == ["kala", "laka"]
    ensures Tabled(words, [["ka", "la"], ["la", "ka"]])
  {
    assert "ka" + "la" == "kala" && "la" + "ka" == "laka";
    TwoOpenSyllables("ka", "la");
    TwoOpenSyllables("la", "ka");
    assert words[0] == "kala" && words[1] == "laka";
  }

  lemma KalaTwoByTwo(words: seq<string>)
    requires Tabled(words, [["ka", "la"], ["la", "ka"]])
    ensures TwoByTwo(words)
  {
  }

  /** The two words differ at both positions. */
  lemma KalaTable(ka: int, kb: int, i: int)
    requires 0 <= ka < 2 && 0 <= kb < 2 && ka != kb && 0 <= i < 2
    ensures var t := [["ka", "la"], ["la", "ka"]]; t[ka][1 - i] != t[kb][1 - i]
  {
  }

  lemma KalaNoMinimal(words: seq<string>)
    requires Tabled(words, [["ka", "la"], ["la", "ka"]])
    ensures forall p :: p !in MinimalPairs(words)
  {
    var t := [["ka", "la"], ["la", "ka"]];
    KalaTwoByTwo(words);
    forall p
      ensures p !in MinimalPairs(words)
    {
      MinimalOfTwoByTwo(words, p);
      forall ka, kb, i
        ensures !DiffersOnlyAt(words, p, ka, kb, i)
      {
        if 0 <= ka < 2 && 0 <= kb < 2 && ka != kb && 0 <= i < 2 {
          KalaTable(ka, kb, i);
          assert Syllabify(words[ka]) == t[ka] && Syllabify(words[kb]) == t[kb];
        }
      }
    }
  }

  lemma KalaFound(words: seq<string>)
    requires Tabled(words, [["ka", "la"], ["la", "ka"]])
    ensures forall s :: s in FoundSyllables(words) <==> s == "ka" || s == "la"
  {
    var t := [["ka", "la"], ["la", "ka"]];
    assert Syllabify(words[0]) == t[0] && Syllabify(words[1]) == t[1];
    assert Compared(words, words[0], words[1]);
    forall s | s in FoundSyllables(words)
      ensures s == "ka" || s == "la"
    {
      FoundOfTabled(words, t, s);
      var k :| 0 <= k < 2 && s in t[k];
      if k == 0 {
        assert s in ["ka", "la"];
      } else {
        assert s in ["la", "ka"];
      }
    }
  }

  /** "ka"/"la" is mergeable. */
  lemma KalaPairMergeable(words: seq<string>)
    requires Tabled(words, [["ka", "la"], ["la", "ka"]])
    ensures Mergeable(words, Pair("ka", "la"))
  {
    KalaNoMinimal(words);
    KalaFound(words);
    assert Less("ka", "la");
  }

  /** No other pair is. */
  lemma KalaOnlyPair(words: seq<string>, q: Pair)
    requires Tabled(words, [["ka", "la"], ["la", "ka"]])
    requires Mergeable(words, q)
    ensures q == Pair("ka", "la")
  {
    KalaFound(words);
    LessIrreflexive("ka");
    LessIrreflexive("la");
    assert !Less("la", "ka");
    assert q.first == "ka" || q.first == "la";
    assert q.second == "ka" || q.second == "la";
  }

  /** "kala" and "laka" share their syllables in the opposite order, so no
      position is a minimal pair and "ka"/"la" is the only mergeable pair. */
  lemma KalaLakaPairs(words: seq<string>)
    requires Tabled(words, [["ka", "la"], ["la", "ka"]])
    ensures MergeablePairs(words) == [Pair("ka", "la")]
  {
    var p := Pair("ka", "la");
    KalaPairMergeable(words);
    forall q | q in MergeablePairs(words)
      ensures q == p
    {
      KalaOnlyPair(words, q);
    }
    OnlyMember(MergeablePairs(words), p);
  }

  /** A round on a pool of one pair applies it and empties the pool. */
  lemma LastRound(s: State)
    requires |s.pool| == 1
    ensures Round(s) == State(ApplyMerge(s.words, s.pool[0]), [], s.merges + [s.pool[0]])
    ensures Run(s) == Round(s)
  {
    assert s.pool[1..] == [];
  }

  lemma KalaMerged(words: seq<string>)
    requires Tabled(words, [["ka", "la"], ["la", "ka"]])
    ensures ApplyMerge(words, Pair("ka", "la")) == ["lala", "lala"]
  {
    var p := Pair("ka", "la");
    assert Syllabify(words[0]) == ["ka", "la"] && Syllabify(words[1]) == ["la", "ka"];
    assert Replace(["ka", "la"], "ka", "la") == ["la", "la"];
    assert Replace(["la", "ka"], "ka", "la") == ["la", "la"];
    JoinTwo("la", "la");
    assert "la" + "la" == "lala";
    var merged := ApplyMerge(words, p);
    assert merged[0] == "lala" && merged[1] == "lala";
  }

  /** Two words that syllabify as "ka la" and "la ka" have one merge,
      after which both are spelled "lala". */
  lemma KalaRun(words: seq<string>)
    requires Tabled(words, [["ka", "la"], ["la", "ka"]])
    ensures MergeAll(words) == State(["lala", "lala"], [], [Pair("ka", "la")])
  {
    var p := Pair("ka", "la");
    KalaLakaPairs(words);
    KalaMerged(words);
    LastRound(Start(words));
  }

  /** Merging "ka" into "la" spells both "kala" and "laka" as "lala": two
      different words end up the same, and the loop stops after one merge. */
  lemma MergeCanCollideWords(words: seq<string>)
    requires words == ["kala", "laka"]
    ensures words[0] != words[1]
    ensures MergeAll(words) == State(["lala", "lala"], [], [Pair("ka", "la")])
  {
    KalaTabled(words);
    KalaRun(words);
  }

  /** Two merges with no syllable in common give two separate groups. */
  lemma DisjointMergesStaySeparate(a: string, b: string, c: string, d: string)
    requires c != a && c != b && d != a && d != b
    ensures BuildGroups([Pair(a, b), Pair(c, d)]) == [[a, b], [c, d]]
  {
    var merges := [Pair(a, b), Pair(c, d)];
    assert merges[..1] == [Pair(a, b)];
    assert [Pair(a, b)][..0] == [];
  }

  /** Three merges, none sharing a syllable with an earlier one, give three
      groups in history order. */
  lemma ThreeSeparateGroups(a: string, b: string, c: string, d: string, e: string, f: string)
    requires c != a && c != b && d != a && d != b
    requires e != a && e != b && e != c && e != d
    requires f != a && f != b && f != c && f != d
    ensures BuildGroups([Pair(a, b), Pair(c, d), Pair(e, f)]) == [[a, b], [c, d], [e, f]]
  {
    var merges := [Pair(a, b), Pair(c, d), Pair(e, f)];
    assert merges[..2] == [Pair(a, b), Pair(c, d)];
    DisjointMergesStaySeparate(a, b, c, d);
    assert FirstHit([[a, b], [c, d]], e, f, 0) == None;
  }

  /** First match only: after the separate merges `a`/`b` and `c`/`d`, the
      merge `b`/`d` joins the group of `b` and is not united with the group
      of `d`, which then sits in two groups. */
  lemma GroupsCanOverlap(a: string, b: string, c: string, d: string)
    requires c != a && c != b && d != a && d != b
    ensures var groups := BuildGroups([Pair(a, b), Pair(c, d), Pair(b, d)]);
      && groups == [[a, b, d], [c, d]]
      && d in groups[0] && d in groups[1]
  {
    var merges := [Pair(a, b), Pair(c, d), Pair(b, d)];
    assert merges[..2] == [Pair(a, b), Pair(c, d)];
    DisjointMergesStaySeparate(a, b, c, d);
    assert FirstHit([[a, b], [c, d]], b, d, 0) == Some(0);
    assert Add([a, b], b) == [a, b];
    assert Add([a, b], d) == [a, b, d];
  }

  /** First match, not best match: when a later group already holds both
      syllables, the merge still goes into the first group that holds one
      of them. */
  lemma FirstGroupTakesMerge(x: string, y: string, a: string, b: string)
    requires a != b && a != x && a != y && b != x && b != y
    ensures AddMerge([[x, y, a], [a, b]], a, b) == [[x, y, a, b], [a, b]]
  {
    assert FirstHit([[x, y, a], [a, b]], a, b, 0) == Some(0);
    assert Add([x, y, a], a) == [x, y, a];
    assert Add([x, y, a], b) == [x, y, a] + [b];
    assert Extend([x, y, a], a, b) == [x, y, a, b];
    var groups := [[x, y, a], [a, b]];
    assert groups[0 := [x, y, a, b]] == [[x, y, a, b], [a, b]];
  }
}
