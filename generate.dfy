/** GenerateAlias and NewRandomString: rank the link's letters, build the
    pool, draw a six-letter candidate, ask the store, and hand a known
    candidate to the repair. */
module Generate {
  import opened Letters
  import opened Ranking
  import opened Pool
  import opened Resolver

  /** Length of the candidate GenerateAlias draws. */
  const AliasLength: nat := 6

  /** The pool GenerateAlias draws from for a link. */
  function PoolFor(url: string): string {
    Pool.Pool(TopLetters(url))
  }

  /** The pool of every link holds all 26 letters, once each, and so has a
      different replacement for every character. */
  lemma PoolForShape(url: string)
    ensures |PoolFor(url)| == 26 && Distinct(PoolFor(url)) && Replaceable(PoolFor(url))
    ensures forall c :: c in PoolFor(url) <==> IsLetter(c)
    ensures PoolFor(url)[..|TopLetters(url)|] == TopLetters(url)
  {
    TopLettersShape(url);
    PoolShape(TopLetters(url));
    var p := PoolFor(url);
    assert p[0] != p[1];
  }

  /** What GenerateAlias does for a link: the alias it returns, the aliases
      it asks the store about in order, and the next unused draw. */
  function AliasFor(url: string, oracle: Oracle, rng: RandomSource, draw: nat): Generated {
    var pool := PoolFor(url);
    PoolForShape(url);
    var candidate := RandomString(pool, AliasLength, rng, draw);
    if oracle([], candidate) != Exists then Generated(candidate, [candidate], draw + AliasLength)
    else
      var r := Repair(candidate, pool, oracle, rng, draw + AliasLength, [candidate]);
      Generated(r.alias, [candidate] + r.queries, r.next)
  }

  /** The first query is the candidate; a candidate the store does not know,
      or cannot check, is returned as is. A known one goes to the repair,
      which is told about the first query. */
  lemma AliasForCases(url: string, oracle: Oracle, rng: RandomSource, draw: nat)
    ensures var g := AliasFor(url, oracle, rng, draw);
      var candidate := RandomString(PoolFor(url), AliasLength, rng, draw);
      && |g.queries| > 0 && g.queries[0] == candidate
      && (oracle([], candidate) != Exists <==> g.alias == candidate && |g.queries| == 1)
      && (oracle([], candidate) == Exists ==>
            var r := Repair(candidate, PoolFor(url), oracle, rng, draw + AliasLength, [candidate]);
            g.alias == r.alias && g.queries == [candidate] + r.queries)
  {
    PoolForShape(url);
    var candidate := RandomString(PoolFor(url), AliasLength, rng, draw);
    if oracle([], candidate) == Exists {
      RepairResult(candidate, PoolFor(url), oracle, rng, draw + AliasLength, [candidate]);
    }
  }

  /** The alias is made of letters only and has six characters, or eight
      when every mutation hit a known alias; at most eleven queries are
      made, each of six letters. */
  lemma AliasForShape(url: string, oracle: Oracle, rng: RandomSource, draw: nat)
    ensures var g := AliasFor(url, oracle, rng, draw);
      && (|g.alias| == AliasLength || |g.alias| == AliasLength + SuffixLength)
      && (forall k :: 0 <= k < |g.alias| ==> IsLetter(g.alias[k]))
      && 1 <= |g.queries| <= 1 + MaxAttempts
      && (forall i :: 0 <= i < |g.queries| ==> |g.queries[i]| == AliasLength)
  {
    PoolForShape(url);
    var pool := PoolFor(url);
    var candidate := RandomString(pool, AliasLength, rng, draw);
    if oracle([], candidate) == Exists {
      RepairResult(candidate, pool, oracle, rng, draw + AliasLength, [candidate]);
      RepairInPool(candidate, pool, oracle, rng, draw + AliasLength, [candidate]);
      var r := Repair(candidate, pool, oracle, rng, draw + AliasLength, [candidate]);
      var qs := [candidate] + r.queries;
      forall i | 0 <= i < |qs| ensures |qs[i]| == AliasLength {
        if i > 0 {
          assert qs[i] == r.queries[i - 1];
        }
      }
    }
  }

  /** An alias of six characters is one the store was asked about: either
      the candidate, which it did not report as taken, or the last mutation,
      which it reported free. An alias of eight characters follows eleven
      queries none of which it reported free: the candidate, which was taken,
      and ten mutations; it starts with the candidate and was never asked
      about. */
  lemma AliasForOutcome(url: string, oracle: Oracle, rng: RandomSource, draw: nat)
    ensures var g := AliasFor(url, oracle, rng, draw);
      var last := |g.queries| - 1;
      && |g.queries| > 0
      && (|g.alias| == AliasLength <==> g.alias == g.queries[last])
      && (|g.alias| == AliasLength && last > 0 ==> oracle(g.queries[..last], g.queries[last]) == NotExists)
      && (|g.alias| == AliasLength && last == 0 ==> oracle([], g.alias) != Exists)
      && (forall i :: 0 < i < last ==> oracle(g.queries[..i], g.queries[i]) != NotExists)
      && (last > 0 ==> oracle([], g.queries[0]) == Exists)
      && (|g.alias| != AliasLength ==>
            && |g.alias| == AliasLength + SuffixLength && |g.queries| == 1 + MaxAttempts
            && g.alias[..AliasLength] == g.queries[0]
            && oracle(g.queries[..last], g.queries[last]) != NotExists
            && g.alias !in g.queries)
  {
    PoolForShape(url);
    var pool := PoolFor(url);
    var candidate := RandomString(pool, AliasLength, rng, draw);
    if oracle([], candidate) == Exists {
      var d := draw + AliasLength;
      RepairResult(candidate, pool, oracle, rng, d, [candidate]);
      var r := Repair(candidate, pool, oracle, rng, d, [candidate]);
      var g := AliasFor(url, oracle, rng, draw);
      assert g.queries == [candidate] + r.queries;
      RepairOutcome(candidate, oracle, r, g.queries);
    }
  }

  /** The repair's facts, carried over to the query list that starts with
      the candidate. */
  lemma RepairOutcome(candidate: string, oracle: Oracle, r: Generated, qs: seq<string>)
    requires |candidate| == AliasLength && qs == [candidate] + r.queries
    requires oracle([], candidate) == Exists
    requires && 0 < |r.queries| <= MaxAttempts
      && (forall i :: 0 <= i < |r.queries| ==> |r.queries[i]| == |candidate|)
      && (forall i :: 0 <= i < |r.queries| - 1 ==> oracle([candidate] + r.queries[..i], r.queries[i]) != NotExists)
      && (|r.alias| == |candidate| <==> oracle([candidate] + r.queries[..|r.queries| - 1], r.queries[|r.queries| - 1]) == NotExists)
      && (|r.alias| == |candidate| ==> r.alias == r.queries[|r.queries| - 1])
      && (|r.alias| != |candidate| ==>
            && |r.alias| == |candidate| + SuffixLength && |r.queries| == MaxAttempts
            && r.alias[..|candidate|] == candidate
            && r.alias !in r.queries)
    ensures var last := |qs| - 1;
      && (|r.alias| == AliasLength <==> r.alias == qs[last])
      && (|r.alias| == AliasLength ==> oracle(qs[..last], qs[last]) == NotExists)
      && (forall i :: 0 < i < last ==> oracle(qs[..i], qs[i]) != NotExists)
      && (|r.alias| != AliasLength ==>
            && |r.alias| == AliasLength + SuffixLength && |qs| == 1 + MaxAttempts
            && r.alias[..AliasLength] == qs[0]
            && oracle(qs[..last], qs[last]) != NotExists
            && r.alias !in qs)
  {
    var n := |r.queries|;
    assert qs[n] == r.queries[n - 1];
    assert qs[..n] == [candidate] + r.queries[..n - 1];
    forall i | 0 < i < n ensures oracle(qs[..i], qs[i]) != NotExists {
      assert qs[..i] == [candidate] + r.queries[..i - 1];
      assert qs[i] == r.queries[i - 1];
    }
    if |r.alias| != AliasLength {
      assert r.alias != candidate;
    } else {
      assert r.alias == r.queries[n - 1];
    }
  }

  /** A store that knows no alias gets one query, and that candidate is the
      result. */
  lemma FreshStore(url: string, oracle: Oracle, rng: RandomSource, draw: nat)
    requires forall asked, a :: oracle(asked, a) == NotExists
    ensures var g := AliasFor(url, oracle, rng, draw);
      && g.alias == RandomString(PoolFor(url), AliasLength, rng, draw)
      && g.queries == [g.alias]
      && g.next == draw + AliasLength
  {
  }

  /** A store that knows every alias sees eleven queries, and the result is
      the candidate with a two-letter suffix drawn from the pool right after
      the candidate's six draws and the ten attempts' two draws each. */
  lemma FullStore(url: string, oracle: Oracle, rng: RandomSource, draw: nat)
    requires forall asked, a :: oracle(asked, a) == Exists
    ensures var g := AliasFor(url, oracle, rng, draw);
      var suffixDraw := draw + AliasLength + 2 * MaxAttempts;
      && g.alias == g.queries[0] + RandomString(PoolFor(url), SuffixLength, rng, suffixDraw)
      && g.next == suffixDraw + SuffixLength
      && |g.alias| == AliasLength + SuffixLength
      && |g.queries| == 1 + MaxAttempts
  {
    PoolForShape(url);
    var candidate := RandomString(PoolFor(url), AliasLength, rng, draw);
    RepairFullStore(candidate, PoolFor(url), oracle, rng, draw + AliasLength, [candidate]);
  }

  /** Upper- and lower-case links get the same alias. */
  lemma AliasForCaseInsensitive(url: string, oracle: Oracle, rng: RandomSource, draw: nat)
    ensures AliasFor(ToLower(url), oracle, rng, draw) == AliasFor(url, oracle, rng, draw)
  {
    CaseInsensitive(url);
  }

  /** GenerateAlias (random.go:54-110): rank the link, build the pool, draw
      the candidate and check it; a check that fails or finds the candidate
      free returns it, a known candidate is repaired. */
  method GenerateAlias(url: string, oracle: Oracle, rng: RandomSource, draw: nat)
    returns (alias: string, queries: seq<string>, next: nat)
    ensures Generated(alias, queries, next) == AliasFor(url, oracle, rng, draw)
    ensures |alias| == AliasLength || |alias| == AliasLength + SuffixLength
    ensures forall k :: 0 <= k < |alias| ==> IsLetter(alias[k])
  {
    var frequentChars := ParceTheLink(url);
    var uniqueChars := BuildPool(frequentChars);
    PoolForShape(url);
    AliasForShape(url, oracle, rng, draw);
    var d;
    alias, d := GenerateRandomAlias(uniqueChars, AliasLength, rng, draw);
    var answer := oracle([], alias);
    if answer != Exists {
      queries, next := [alias], d;
      return;
    }
    var modified, repairQueries;
    modified, repairQueries, next := ModifyRandomChar(alias, uniqueChars, oracle, rng, d, [alias]);
    alias, queries := modified, [alias] + repairQueries;
  }

  /** NewRandomString (random.go:17-21): the exported entry point, which
      hands over to GenerateAlias. */
  method NewRandomString(url: string, oracle: Oracle, rng: RandomSource, draw: nat)
    returns (alias: string, queries: seq<string>, next: nat)
    ensures Generated(alias, queries, next) == AliasFor(url, oracle, rng, draw)
    ensures |alias| == AliasLength || |alias| == AliasLength + SuffixLength
    ensures forall k :: 0 <= k < |alias| ==> IsLetter(alias[k])
  {
    alias, queries, next := GenerateAlias(url, oracle, rng, draw);
  }
}
