/** The candidate pool: the ranked letters followed by the whole alphabet,
    with every repeat after its first occurrence dropped. */
module Pool {
  import opened Letters

  /** s with every character after its first occurrence dropped. */
  function Dedup(s: string): string {
    if s == [] then []
    else
      var d := Dedup(s[..|s| - 1]);
      if s[|s| - 1] in d then d else d + [s[|s| - 1]]
  }

  /** The pool built from the ranked letters. */
  function Pool(ranked: string): string {
    Dedup(ranked + Alphabet())
  }

  /** Deduplication keeps every character once and invents none. */
  lemma {:induction false} DedupElems(s: string)
    ensures Distinct(Dedup(s))
    ensures forall x :: x in Dedup(s) <==> x in s
  {
    if s != [] {
      var p := s[..|s| - 1];
      DedupElems(p);
      assert s == p + [s[|s| - 1]];
    }
  }

  /** A prefix without repeats survives deduplication unchanged. */
  lemma {:induction false} DedupKeepsPrefix(p: string, q: string)
    requires Distinct(p)
    ensures |Dedup(p + q)| >= |p| && Dedup(p + q)[..|p|] == p
  {
    if q == [] {
      assert p + q == p;
      DedupOfDistinct(p);
    } else {
      var q' := q[..|q| - 1];
      assert (p + q)[..|p + q| - 1] == p + q';
      DedupKeepsPrefix(p, q');
    }
  }

  lemma {:induction false} DedupOfDistinct(p: string)
    requires Distinct(p)
    ensures Dedup(p) == p
  {
    if p != [] {
      var p' := p[..|p| - 1];
      DedupOfDistinct(p');
      assert p[|p| - 1] !in p';
    }
  }

  /** The pool holds every letter exactly once and starts with the ranked
      letters in their order. */
  lemma PoolShape(ranked: string)
    requires Distinct(ranked) && forall c :: c in ranked ==> IsLetter(c)
    ensures |Pool(ranked)| == 26 && Distinct(Pool(ranked))
    ensures forall c :: c in Pool(ranked) <==> IsLetter(c)
    ensures |ranked| <= |Pool(ranked)| && Pool(ranked)[..|ranked|] == ranked
  {
    AlphabetShape();
    DedupElems(ranked + Alphabet());
    DedupKeepsPrefix(ranked, Alphabet());
    DistinctSameLength(Pool(ranked), Alphabet());
  }

  /** Lines 65-79 of GenerateAlias: the alphabet is laid out 'a'..'z', put
      after the ranked letters, and copied over with a seen-set that skips
      repeats. */
  method BuildPool(frequentChars: string) returns (uniqueChars: string)
    ensures uniqueChars == Pool(frequentChars)
    ensures Distinct(uniqueChars)
    ensures forall c :: c in uniqueChars <==> c in frequentChars || IsLetter(c)
    ensures Distinct(frequentChars) ==> |uniqueChars| >= |frequentChars| && uniqueChars[..|frequentChars|] == frequentChars
  {
    var allChars: string := [];
    var code := 'a' as int;
    while code <= 'z' as int
      invariant 'a' as int <= code <= 'z' as int + 1
      invariant allChars == Alphabet()[..code - 'a' as int]
    {
      allChars := allChars + [code as char];
      code := code + 1;
    }
    assert allChars == Alphabet();

    var availableChars := frequentChars + allChars;

    var charMap: set<char> := {};
    uniqueChars := [];
    for i := 0 to |availableChars|
      invariant uniqueChars == Dedup(availableChars[..i])
      invariant forall c :: c in charMap <==> c in uniqueChars
    {
      var c := availableChars[i];
      assert availableChars[..i + 1][..i] == availableChars[..i];
      if c !in charMap {
        charMap := charMap + {c};
        uniqueChars := uniqueChars + [c];
      }
    }
    assert availableChars[..|availableChars|] == availableChars;

    AlphabetShape();
    DedupElems(availableChars);
    if Distinct(frequentChars) {
      DedupKeepsPrefix(frequentChars, allChars);
    }
  }
}
