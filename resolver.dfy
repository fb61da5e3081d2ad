/** Random candidates and the bounded collision repair of the alias
    generator: generateRandomAlias and modifyRandomChar. The store's
    existence check and the random number generator are parameters. */
module Resolver {
  import opened Letters

  /** What the store's existence check (AliasExists) can answer. */
  datatype Answer = Exists | NotExists | Error

  /** The existence check. Besides the alias it is given the aliases this
      generation has already asked about, so its answers may change from one
      call to the next (other requests inserting, transient failures). */
  type Oracle = (seq<string>, string) -> Answer

  /** An injected random source: rng(k) is the k-th raw draw. */
  type RandomSource = nat -> nat

  /** How many single-character mutations are tried before the suffix fallback. */
  const MaxAttempts: nat := 10

  /** Length of the random suffix of the fallback. */
  const SuffixLength: nat := 2

  /** rand.Intn(n) made from the k-th draw: a number in [0, n). */
  function Intn(rng: RandomSource, k: nat, n: nat): (r: nat)
    requires n > 0
    ensures r < n
  {
    rng(k) % n
  }

  /** The string generateRandomAlias draws: its i-th character is picked
      from chars by draw k + i. */
  function RandomString(chars: string, length: nat, rng: RandomSource, k: nat): (r: string)
    requires length == 0 || |chars| > 0
    ensures |r| == length
    ensures forall i :: 0 <= i < |r| ==> r[i] in chars
  {
    var r := seq(length, i requires 0 <= i < length => chars[Intn(rng, k + i, |chars|)]);
    assert forall i :: 0 <= i < |r| ==> r[i] in chars by {
      forall i | 0 <= i < |r| ensures r[i] in chars {
        var j := Intn(rng, k + i, |chars|);
        assert r[i] == chars[j];
      }
    }
    r
  }

  /** generateRandomAlias: fills a buffer of the given length with
      characters of chars, one draw per position. */
  method GenerateRandomAlias(chars: string, length: nat, rng: RandomSource, draw: nat)
    returns (alias: string, next: nat)
    requires length == 0 || |chars| > 0
    ensures |alias| == length && forall i :: 0 <= i < length ==> alias[i] in chars
    ensures alias == RandomString(chars, length, rng, draw) && next == draw + length
  {
    var result := new char[length];
    for i := 0 to length
      invariant forall j :: 0 <= j < i ==> result[j] == chars[Intn(rng, draw + j, |chars|)]
    {
      result[i] := chars[Intn(rng, draw + i, |chars|)];
    }
    alias := result[..];
    next := draw + length;
  }

  // ---------------------------------------------------------------------------
  // One mutation attempt

  /** pool with every occurrence of c taken out. */
  function Without(pool: string, c: char): string {
    if pool == [] then [] else (if pool[0] == c then [] else [pool[0]]) + Without(pool[1..], c)
  }

  lemma {:induction false} WithoutElems(pool: string, c: char)
    ensures forall x :: x in Without(pool, c) <==> x in pool && x != c
  {
    if pool != [] {
      WithoutElems(pool[1..], c);
      assert pool == [pool[0]] + pool[1..];
    }
  }

  /** The pool holds two different characters, so every character has a
      different replacement; without one the source's redraw loop never ends. */
  predicate Replaceable(pool: string) {
    exists i, j :: 0 <= i < |pool| && 0 <= j < |pool| && pool[i] != pool[j]
  }

  lemma WithoutNonEmpty(pool: string, c: char)
    requires Replaceable(pool)
    ensures |Without(pool, c)| > 0
  {
    var i, j :| 0 <= i < |pool| && 0 <= j < |pool| && pool[i] != pool[j];
    WithoutElems(pool, c);
    if pool[i] != c {
      assert pool[i] in Without(pool, c);
    } else {
      assert pool[j] in Without(pool, c);
    }
  }

  /** One attempt: the alias state before it, the position overwritten, the
      alias sent to the store and the store's answer. */
  datatype Trial = Trial(before: string, pos: nat, query: string, answer: Answer)

  /** The query differs from the state before it at exactly one position,
      where it holds another character of the pool. */
  predicate OneChange(t: Trial, pool: string) {
    && t.pos < |t.before| && |t.query| == |t.before|
    && t.query[t.pos] != t.before[t.pos] && t.query[t.pos] in pool
    && forall i :: 0 <= i < |t.before| && i != t.pos ==> t.query[i] == t.before[i]
  }

  /** The alias state after an attempt: an Exists answer puts the old
      character back, an Error answer leaves the new one in place. */
  function After(t: Trial): string {
    if t.answer == Exists then t.before else t.query
  }

  function Queries(ts: seq<Trial>): seq<string> {
    seq(|ts|, i requires 0 <= i < |ts| => ts[i].query)
  }

  /** A uniform pick, by draw k, among the pool characters other than c:
      the outcome of the source's redraw loop. When the pool has no other
      character that loop never ends; c stands in for it here. */
  function Replacement(pool: string, c: char, rng: RandomSource, k: nat): char {
    var others := Without(pool, c);
    if others == [] then c else others[Intn(rng, k, |others|)]
  }

  /** The redraw loop yields another character of the pool. */
  lemma ReplacementOk(pool: string, c: char, rng: RandomSource, k: nat)
    requires Replaceable(pool)
    ensures Replacement(pool, c, rng, k) in pool && Replacement(pool, c, rng, k) != c
  {
    WithoutNonEmpty(pool, c);
    WithoutElems(pool, c);
    var others := Without(pool, c);
    assert others[Intn(rng, k, |others|)] in others;
  }

  /** One attempt on the alias state `current`, using draws `draw` (the
      position) and `draw + 1` (the replacement among the other pool
      characters); `asked` is what the store has been asked before. */
  function Attempt(current: string, pool: string, oracle: Oracle, rng: RandomSource, draw: nat, asked: seq<string>): (t: Trial)
    requires |current| > 0
    ensures t.before == current && t.answer == oracle(asked, t.query)
  {
    var pos := Intn(rng, draw, |current|);
    var query := current[pos := Replacement(pool, current[pos], rng, draw + 1)];
    Trial(current, pos, query, oracle(asked, query))
  }

  /** An attempt changes exactly one position, to another pool character. */
  lemma AttemptOk(current: string, pool: string, oracle: Oracle, rng: RandomSource, draw: nat, asked: seq<string>)
    requires |current| > 0 && Replaceable(pool)
    ensures OneChange(Attempt(current, pool, oracle, rng, draw, asked), pool)
  {
    var pos := Intn(rng, draw, |current|);
    ReplacementOk(pool, current[pos], rng, draw + 1);
  }

  // ---------------------------------------------------------------------------
  // The bounded search

  /** One attempt as a value: given the alias state, the index of the next
      draw and the queries made so far, the trial it makes. */
  type Step = (string, nat, seq<string>) -> Trial

  /** A step that behaves as an attempt must on every non-empty state. */
  ghost predicate StepOk(step: Step, pool: string, oracle: Oracle) {
    forall cur, d, a :: |cur| > 0 ==>
      && step(cur, d, a).before == cur && OneChange(step(cur, d, a), pool)
      && step(cur, d, a).answer == oracle(a, step(cur, d, a).query)
  }

  /** The attempts of modifyRandomChar as a step. The empty state never
      reaches it (rand.Intn(0) panics in the source); there it is a
      placeholder. */
  function AttemptStep(pool: string, oracle: Oracle, rng: RandomSource): Step {
    (cur: string, d: nat, a: seq<string>) =>
      if |cur| > 0 then Attempt(cur, pool, oracle, rng, d, a) else Trial(cur, 0, cur, Error)
  }

  lemma AttemptStepOk(pool: string, oracle: Oracle, rng: RandomSource)
    requires Replaceable(pool)
    ensures StepOk(AttemptStep(pool, oracle, rng), pool, oracle)
  {
    forall cur: string, d: nat, a: seq<string> | |cur| > 0
      ensures OneChange(AttemptStep(pool, oracle, rng)(cur, d, a), pool)
    {
      AttemptOk(cur, pool, oracle, rng, d, a);
    }
  }

  /** What StepOk says about one state. */
  lemma StepAt(step: Step, pool: string, oracle: Oracle, cur: string, d: nat, a: seq<string>)
    requires StepOk(step, pool, oracle) && |cur| > 0
    ensures var t := step(cur, d, a);
      t.before == cur && OneChange(t, pool) && t.answer == oracle(a, t.query)
  {
  }

  lemma AttemptStepIs(pool: string, oracle: Oracle, rng: RandomSource, cur: string, d: nat, a: seq<string>)
    requires |cur| > 0
    ensures AttemptStep(pool, oracle, rng)(cur, d, a) == Attempt(cur, pool, oracle, rng, d, a)
  {
  }

  /** The mutation loop from attempt number `attempt` on, the alias state
      being `cur` and the store having been asked `asked`: attempt k uses
      draws draw and draw + 1, the next one draw + 2; the loop stops after
      the first NotExists or at MaxAttempts. */
  function Search(step: Step, attempt: nat, cur: string, draw: nat, asked: seq<string>): seq<Trial>
    decreases MaxAttempts - attempt
  {
    if attempt >= MaxAttempts then []
    else
      var t := step(cur, draw, asked);
      if t.answer == NotExists then [t]
      else [t] + Search(step, attempt + 1, After(t), draw + 2, asked + [t.query])
  }

  /** The last attempt was answered NotExists. */
  predicate Found(ts: seq<Trial>) {
    |ts| > 0 && ts[|ts| - 1].answer == NotExists
  }

  /** Every character of s is a pool character. */
  predicate InPool(s: string, pool: string) {
    forall k :: 0 <= k < |s| ==> s[k] in pool
  }

  lemma QueriesCons(t: Trial, ts: seq<Trial>)
    ensures Queries([t] + ts) == [t.query] + Queries(ts)
  {
  }

  lemma QueriesSnoc(ts: seq<Trial>, t: Trial)
    ensures Queries(ts + [t]) == Queries(ts) + [t.query]
  {
  }

  /** The search makes at most the attempts left, at least one if any is
      left; only its last attempt can be answered NotExists, and unless
      one is, it makes all the attempts left. */
  lemma {:induction false} SearchCount(step: Step, attempt: nat, cur: string, draw: nat, asked: seq<string>)
    requires attempt <= MaxAttempts
    ensures var ts := Search(step, attempt, cur, draw, asked);
      && |ts| <= MaxAttempts - attempt
      && (attempt < MaxAttempts ==> |ts| > 0)
      && (forall i :: 0 <= i < |ts| - 1 ==> ts[i].answer != NotExists)
      && (Found(ts) || |ts| == MaxAttempts - attempt)
    decreases MaxAttempts - attempt
  {
    if attempt < MaxAttempts {
      var t := step(cur, draw, asked);
      if t.answer != NotExists {
        var rest := Search(step, attempt + 1, After(t), draw + 2, asked + [t.query]);
        SearchCount(step, attempt + 1, After(t), draw + 2, asked + [t.query]);
        var ts := [t] + rest;
        forall i | 0 < i < |ts| ensures ts[i] == rest[i - 1] {
        }
      }
    }
  }

  /** With a step that behaves as an attempt, the search's first attempt
      starts from `cur`, each later one from the state the one before it
      left, and each changes one position of a state of cur's length. */
  lemma {:induction false} SearchChain(pool: string, oracle: Oracle, step: Step, attempt: nat, cur: string,
                                       draw: nat, asked: seq<string>)
    requires StepOk(step, pool, oracle) && |cur| > 0
    ensures var ts := Search(step, attempt, cur, draw, asked);
      && (ts != [] ==> ts[0].before == cur)
      && (forall i :: 0 <= i < |ts| ==> OneChange(ts[i], pool) && |ts[i].before| == |cur|)
      && (forall i, j :: 0 <= i && j == i + 1 < |ts| ==> ts[j].before == After(ts[i]))
    decreases MaxAttempts - attempt
  {
    if attempt < MaxAttempts {
      var t := step(cur, draw, asked);
      StepAt(step, pool, oracle, cur, draw, asked);
      if t.answer != NotExists {
        SearchChain(pool, oracle, step, attempt + 1, After(t), draw + 2, asked + [t.query]);
        var rest := Search(step, attempt + 1, After(t), draw + 2, asked + [t.query]);
        var ts := [t] + rest;
        forall i | 0 < i < |ts| ensures ts[i] == rest[i - 1] {
        }
      }
    }
  }

  /** The store answered each trial of ts given the queries made before it. */
  predicate Answered(oracle: Oracle, asked: seq<string>, ts: seq<Trial>) {
    forall i :: 0 <= i < |ts| ==> ts[i].answer == oracle(asked + Queries(ts)[..i], ts[i].query)
  }

  /** With a step that behaves as an attempt, the store answers each query
      of the search given the queries made before it. */
  lemma {:induction false} SearchAnswers(pool: string, oracle: Oracle, step: Step, attempt: nat, cur: string,
                                         draw: nat, asked: seq<string>)
    requires StepOk(step, pool, oracle) && |cur| > 0
    ensures Answered(oracle, asked, Search(step, attempt, cur, draw, asked))
    decreases MaxAttempts - attempt
  {
    if attempt < MaxAttempts {
      var t := step(cur, draw, asked);
      StepAt(step, pool, oracle, cur, draw, asked);
      if t.answer != NotExists {
        var asked' := asked + [t.query];
        SearchAnswers(pool, oracle, step, attempt + 1, After(t), draw + 2, asked');
        var rest := Search(step, attempt + 1, After(t), draw + 2, asked');
        assert Answered(oracle, asked', rest);
        var ts := [t] + rest;
        QueriesCons(t, rest);
        forall i | 0 <= i < |ts| ensures ts[i].answer == oracle(asked + Queries(ts)[..i], ts[i].query) {
          if i > 0 {
            assert ts[i] == rest[i - 1];
            assert asked + Queries(ts)[..i] == asked' + Queries(rest)[..i - 1];
          } else {
            assert asked + Queries(ts)[..0] == asked;
          }
        }
        assert Answered(oracle, asked, ts);
      } else {
        assert asked + Queries([t])[..0] == asked;
      }
    }
  }

  /** An attempt on a state of pool characters queries and leaves one. */
  lemma OneChangeInPool(t: Trial, pool: string)
    requires OneChange(t, pool) && InPool(t.before, pool)
    ensures InPool(t.query, pool) && InPool(After(t), pool)
  {
  }

  /** In a trace whose attempts each change one position to a pool
      character, each starting from the state the previous one left, every
      state is made of pool characters when the first one is. */
  lemma {:induction false} TraceInPoolAt(ts: seq<Trial>, pool: string, i: nat)
    requires i < |ts| && InPool(ts[0].before, pool)
    requires forall k :: 0 <= k < |ts| ==> OneChange(ts[k], pool)
    requires forall k, j :: 0 <= k && j == k + 1 < |ts| ==>
      ts[j].before == if ts[k].answer == Exists then ts[k].before else ts[k].query
    ensures InPool(ts[i].before, pool)
    decreases i
  {
    if i > 0 {
      TraceInPoolAt(ts, pool, i - 1);
      OneChangeInPool(ts[i - 1], pool);
      assert ts[i].before == After(ts[i - 1]);
    }
  }

  /** An alias, the aliases sent to the store in order, and the next unused draw. */
  datatype Generated = Generated(alias: string, queries: seq<string>, next: nat)

  /** The attempts modifyRandomChar makes on an alias. */
  function Repairs(alias: string, pool: string, oracle: Oracle, rng: RandomSource, draw: nat, asked: seq<string>): seq<Trial> {
    Search(AttemptStep(pool, oracle, rng), 0, alias, draw, asked)
  }

  /** The first draw after the attempts ts, each of which takes two. */
  function DrawAfter(draw: nat, ts: seq<Trial>): nat {
    draw + 2 * |ts|
  }

  /** What modifyRandomChar returns: the first free mutation, or else the
      original alias with a random suffix that is not checked. */
  function Repair(alias: string, pool: string, oracle: Oracle, rng: RandomSource, draw: nat, asked: seq<string>): Generated
    requires pool != []
  {
    var ts := Repairs(alias, pool, oracle, rng, draw, asked);
    var next := DrawAfter(draw, ts);
    if Found(ts) then Generated(ts[|ts| - 1].query, Queries(ts), next)
    else Generated(alias + RandomString(pool, SuffixLength, rng, next), Queries(ts), next + SuffixLength)
  }

  /** Repair in terms of the attempts the search made. */
  lemma RepairOf(alias: string, pool: string, oracle: Oracle, rng: RandomSource, draw: nat, asked: seq<string>, ts: seq<Trial>)
    requires pool != [] && Repairs(alias, pool, oracle, rng, draw, asked) == ts
    ensures Repair(alias, pool, oracle, rng, draw, asked) ==
      if Found(ts) then Generated(ts[|ts| - 1].query, Queries(ts), DrawAfter(draw, ts))
      else Generated(alias + RandomString(pool, SuffixLength, rng, DrawAfter(draw, ts)), Queries(ts), DrawAfter(draw, ts) + SuffixLength)
  {
  }

  // ---------------------------------------------------------------------------
  // Properties of the repair

  /** The mutation loop of modifyRandomChar, attempt by attempt: the first
      attempt starts from the alias; each query differs from the state before
      it at exactly one position and in the character there; after Exists the
      next attempt starts from the restored state, after Error from the
      modified one; the store answers each query given the ones before it;
      the loop stops at the first NotExists, makes at most MaxAttempts
      attempts, and makes all of them unless it stopped. */
  lemma RepairTrace(alias: string, pool: string, oracle: Oracle, rng: RandomSource, draw: nat, asked: seq<string>)
    requires |alias| > 0 && Replaceable(pool)
    ensures var ts := Repairs(alias, pool, oracle, rng, draw, asked);
      && 0 < |ts| <= MaxAttempts
      && ts[0].before == alias
      && (forall i :: 0 <= i < |ts| ==> OneChange(ts[i], pool) && |ts[i].query| == |alias|)
      && (forall i, j :: 0 <= i && j == i + 1 < |ts| ==>
            ts[j].before == if ts[i].answer == Exists then ts[i].before else ts[i].query)
      && (forall i :: 0 <= i < |ts| ==> ts[i].answer == oracle(asked + Queries(ts)[..i], ts[i].query))
      && (forall i :: 0 <= i < |ts| - 1 ==> ts[i].answer != NotExists)
      && (Found(ts) || |ts| == MaxAttempts)
  {
    var step := AttemptStep(pool, oracle, rng);
    AttemptStepOk(pool, oracle, rng);
    SearchCount(step, 0, alias, draw, asked);
    SearchChain(pool, oracle, step, 0, alias, draw, asked);
    SearchAnswers(pool, oracle, step, 0, alias, draw, asked);
  }

  /** modifyRandomChar makes at most MaxAttempts queries, each of the alias's
      length. It returns a mutation of that length only when the store said
      NotExists to it, as its last query; otherwise it made all MaxAttempts
      queries, none answered NotExists, and returns the original alias with
      SuffixLength pool characters appended, an alias it never asked about. */
  lemma RepairResult(alias: string, pool: string, oracle: Oracle, rng: RandomSource, draw: nat, asked: seq<string>)
    requires |alias| > 0 && Replaceable(pool)
    ensures var g := Repair(alias, pool, oracle, rng, draw, asked);
      && 0 < |g.queries| <= MaxAttempts
      && (forall i :: 0 <= i < |g.queries| ==> |g.queries[i]| == |alias|)
      && (forall i :: 0 <= i < |g.queries| - 1 ==> oracle(asked + g.queries[..i], g.queries[i]) != NotExists)
      && (|g.alias| == |alias| <==> oracle(asked + g.queries[..|g.queries| - 1], g.queries[|g.queries| - 1]) == NotExists)
      && (|g.alias| == |alias| ==> g.alias == g.queries[|g.queries| - 1])
      && (|g.alias| != |alias| ==>
            && |g.alias| == |alias| + SuffixLength && |g.queries| == MaxAttempts
            && g.alias[..|alias|] == alias
            && (forall k :: |alias| <= k < |g.alias| ==> g.alias[k] in pool)
            && g.alias !in g.queries)
  {
    var ts := Repairs(alias, pool, oracle, rng, draw, asked);
    RepairTrace(alias, pool, oracle, rng, draw, asked);
    RepairOf(alias, pool, oracle, rng, draw, asked, ts);
    var g := Repair(alias, pool, oracle, rng, draw, asked);
    assert g.queries == Queries(ts);
    if !Found(ts) {
      var s := RandomString(pool, SuffixLength, rng, DrawAfter(draw, ts));
      assert g.alias == alias + s;
      assert g.alias[..|alias|] == alias;
    }
  }

  /** Against a store that knows every alias, the search makes every
      attempt left and none is answered NotExists. */
  lemma {:induction false} SearchAllExists(pool: string, oracle: Oracle, step: Step, attempt: nat, cur: string,
                                           draw: nat, asked: seq<string>)
    requires StepOk(step, pool, oracle) && |cur| > 0 && attempt <= MaxAttempts
    requires forall a, q :: oracle(a, q) == Exists
    ensures |Search(step, attempt, cur, draw, asked)| == MaxAttempts - attempt
    ensures !Found(Search(step, attempt, cur, draw, asked))
    decreases MaxAttempts - attempt
  {
    if attempt < MaxAttempts {
      var t := step(cur, draw, asked);
      StepAt(step, pool, oracle, cur, draw, asked);
      assert t.answer == Exists;
      SearchAllExists(pool, oracle, step, attempt + 1, After(t), draw + 2, asked + [t.query]);
      var rest := Search(step, attempt + 1, After(t), draw + 2, asked + [t.query]);
      var ts := [t] + rest;
      assert ts[|ts| - 1] == if rest == [] then t else rest[|rest| - 1];
    }
  }

  /** A store that knows every alias makes every attempt fail: the result
      is the alias with a suffix drawn after the last attempt. */
  lemma RepairFullStore(alias: string, pool: string, oracle: Oracle, rng: RandomSource, draw: nat, asked: seq<string>)
    requires |alias| > 0 && Replaceable(pool)
    requires forall a, q :: oracle(a, q) == Exists
    ensures var g := Repair(alias, pool, oracle, rng, draw, asked);
      && |g.queries| == MaxAttempts && g.next == draw + 2 * MaxAttempts + SuffixLength
      && g.alias == alias + RandomString(pool, SuffixLength, rng, draw + 2 * MaxAttempts)
  {
    RepairsAllExists(alias, pool, oracle, rng, draw, asked);
    RepairUnfound(alias, pool, oracle, rng, draw, asked);
  }

  lemma RepairsAllExists(alias: string, pool: string, oracle: Oracle, rng: RandomSource, draw: nat, asked: seq<string>)
    requires |alias| > 0 && Replaceable(pool)
    requires forall a, q :: oracle(a, q) == Exists
    ensures |Repairs(alias, pool, oracle, rng, draw, asked)| == MaxAttempts
    ensures !Found(Repairs(alias, pool, oracle, rng, draw, asked))
  {
    AttemptStepOk(pool, oracle, rng);
    SearchAllExists(pool, oracle, AttemptStep(pool, oracle, rng), 0, alias, draw, asked);
  }

  /** A search that made every attempt without finding a free alias ends in
      the suffix fallback. */
  lemma RepairUnfound(alias: string, pool: string, oracle: Oracle, rng: RandomSource, draw: nat, asked: seq<string>)
    requires pool != []
    requires |Repairs(alias, pool, oracle, rng, draw, asked)| == MaxAttempts
    requires !Found(Repairs(alias, pool, oracle, rng, draw, asked))
    ensures var g := Repair(alias, pool, oracle, rng, draw, asked);
      && |g.queries| == MaxAttempts && g.next == draw + 2 * MaxAttempts + SuffixLength
      && g.alias == alias + RandomString(pool, SuffixLength, rng, draw + 2 * MaxAttempts)
  {
    var ts := Repairs(alias, pool, oracle, rng, draw, asked);
    var n := draw + 2 * MaxAttempts;
    assert n == DrawAfter(draw, ts);
    RepairOf(alias, pool, oracle, rng, draw, asked, ts);
  }

  /** With an alias of pool characters, the result uses only pool characters. */
  lemma RepairInPool(alias: string, pool: string, oracle: Oracle, rng: RandomSource, draw: nat, asked: seq<string>)
    requires |alias| > 0 && Replaceable(pool) && InPool(alias, pool)
    ensures InPool(Repair(alias, pool, oracle, rng, draw, asked).alias, pool)
  {
    var ts := Repairs(alias, pool, oracle, rng, draw, asked);
    RepairTrace(alias, pool, oracle, rng, draw, asked);
    RepairOf(alias, pool, oracle, rng, draw, asked, ts);
    if Found(ts) {
      var last := |ts| - 1;
      TraceInPoolAt(ts, pool, last);
      OneChangeInPool(ts[last], pool);
    } else {
      ConcatInPool(alias, RandomString(pool, SuffixLength, rng, DrawAfter(draw, ts)), pool);
    }
  }

  lemma ConcatInPool(a: string, b: string, pool: string)
    requires InPool(a, pool) && InPool(b, pool)
    ensures InPool(a + b, pool)
  {
    forall k | 0 <= k < |a + b| ensures (a + b)[k] in pool {
      if k >= |a| {
        assert (a + b)[k] == b[k - |a|];
      }
    }
  }

  // ---------------------------------------------------------------------------
  // The source's loop

  /** The alias state after the trials ts, starting from alias. */
  function StateAfter(alias: string, ts: seq<Trial>): string {
    if ts == [] then alias else After(ts[|ts| - 1])
  }

  /** The trial the step makes after the first k trials of ts. */
  function TrialAt(step: Step, alias: string, draw: nat, asked: seq<string>, ts: seq<Trial>, k: nat): Trial
    requires k <= |ts|
  {
    step(StateAfter(alias, ts[..k]), draw + 2 * k, asked + Queries(ts[..k]))
  }

  /** ts are the first trials of the search from alias: each is the step on
      the state the ones before it left, with its two draws and the queries
      made before it, and none but the last was answered NotExists. */
  predicate Chained(step: Step, alias: string, draw: nat, asked: seq<string>, ts: seq<Trial>) {
    && (forall k {:trigger TrialAt(step, alias, draw, asked, ts, k)} ::
          0 <= k < |ts| ==> ts[k] == TrialAt(step, alias, draw, asked, ts, k))
    && (forall k :: 0 <= k < |ts| - 1 ==> ts[k].answer != NotExists)
  }

  /** A trace extended by the step on the state it left stays a trace. */
  lemma ChainedSnoc(step: Step, alias: string, draw: nat, asked: seq<string>, ts: seq<Trial>, t: Trial)
    requires Chained(step, alias, draw, asked, ts) && !Found(ts)
    requires t == step(StateAfter(alias, ts), draw + 2 * |ts|, asked + Queries(ts))
    ensures Chained(step, alias, draw, asked, ts + [t])
    ensures StateAfter(alias, ts + [t]) == After(t) && Queries(ts + [t]) == Queries(ts) + [t.query]
  {
    var ts' := ts + [t];
    QueriesSnoc(ts, t);
    forall k | 0 <= k < |ts'|
      ensures ts'[k] == TrialAt(step, alias, draw, asked, ts', k)
    {
      assert ts'[..k] == ts[..k];
      if k < |ts| {
        assert ts'[k] == ts[k] == TrialAt(step, alias, draw, asked, ts, k);
      } else {
        assert ts[..k] == ts;
      }
    }
    forall k | 0 <= k < |ts'| - 1 ensures ts'[k].answer != NotExists {
      assert ts'[k] == ts[k];
    }
  }

  /** A trace that stopped, at a NotExists answer or after every attempt, is
      the search from any of its positions on. */
  lemma {:induction false} ChainedSearch(step: Step, alias: string, draw: nat, asked: seq<string>, ts: seq<Trial>, k: nat)
    requires Chained(step, alias, draw, asked, ts) && |ts| <= MaxAttempts
    requires Found(ts) || |ts| == MaxAttempts
    requires k < |ts| || !Found(ts)
    requires k <= |ts|
    ensures Search(step, k, StateAfter(alias, ts[..k]), draw + 2 * k, asked + Queries(ts[..k])) == ts[k..]
    decreases |ts| - k
  {
    var a := asked + Queries(ts[..k]);
    var cur := StateAfter(alias, ts[..k]);
    if k < |ts| {
      var t := ts[k];
      assert t == TrialAt(step, alias, draw, asked, ts, k);
      if t.answer == NotExists {
        assert Search(step, k, cur, draw + 2 * k, a) == [t];
        assert ts[k..] == [t];
      } else {
        var p := ts[..k + 1];
        assert p[..k] == ts[..k] && p[k] == t;
        QueriesSnoc(ts[..k], t);
        assert p == ts[..k] + [t];
        ChainedSearch(step, alias, draw, asked, ts, k + 1);
        assert StateAfter(alias, p) == After(t);
        assert a + [t.query] == asked + Queries(p);
        assert draw + 2 * k + 2 == draw + 2 * (k + 1);
        var rest := Search(step, k + 1, After(t), draw + 2 * k + 2, a + [t.query]);
        assert rest == ts[k + 1..];
        assert Search(step, k, cur, draw + 2 * k, a) == [t] + rest;
        assert ts[k..] == [t] + ts[k + 1..];
      }
    } else {
      assert ts[k..] == [];
    }
  }

  /** The trace the source's loop left is the repair's search. */
  lemma ChainedRepairs(alias: string, pool: string, oracle: Oracle, rng: RandomSource, draw: nat, asked: seq<string>,
                       ts: seq<Trial>)
    requires Chained(AttemptStep(pool, oracle, rng), alias, draw, asked, ts) && |ts| <= MaxAttempts
    requires Found(ts) || |ts| == MaxAttempts
    ensures Repairs(alias, pool, oracle, rng, draw, asked) == ts
  {
    ChainedSearch(AttemptStep(pool, oracle, rng), alias, draw, asked, ts, 0);
    assert ts[..0] == [] && ts[0..] == ts;
    assert asked + Queries([]) == asked;
  }

  /** One round of the source's loop: its attempt, on the state the rounds
      before it left, extends their trace. */
  lemma RoundChained(pool: string, oracle: Oracle, rng: RandomSource, alias: string, draw: nat, asked: seq<string>,
                     trials: seq<Trial>, t: Trial)
    requires Chained(AttemptStep(pool, oracle, rng), alias, draw, asked, trials) && !Found(trials)
    requires |StateAfter(alias, trials)| > 0
    requires t == Attempt(StateAfter(alias, trials), pool, oracle, rng, draw + 2 * |trials|, asked + Queries(trials))
    ensures Chained(AttemptStep(pool, oracle, rng), alias, draw, asked, trials + [t])
    ensures StateAfter(alias, trials + [t]) == After(t) && Queries(trials + [t]) == Queries(trials) + [t.query]
  {
    AttemptStepIs(pool, oracle, rng, StateAfter(alias, trials), draw + 2 * |trials|, asked + Queries(trials));
    ChainedSnoc(AttemptStep(pool, oracle, rng), alias, draw, asked, trials, t);
  }

  /** One pass of modifyRandomChar's loop up to the store's answer: pick a
      position, redraw a different pool character for it, write it into the
      buffer and ask the store about the buffer's contents. */
  method TryMutation(aliasBytes: array<char>, availableChars: string, oracle: Oracle, rng: RandomSource,
                     d: nat, asked: seq<string>)
    returns (pos: nat, originalChar: char, newAlias: string, answer: Answer)
    requires aliasBytes.Length > 0
    modifies aliasBytes
    ensures pos < aliasBytes.Length && originalChar == old(aliasBytes[pos]) && aliasBytes[..] == newAlias
    ensures Trial(old(aliasBytes[..]), pos, newAlias, answer) == Attempt(old(aliasBytes[..]), availableChars, oracle, rng, d, asked)
  {
    ghost var before := aliasBytes[..];
    pos := Intn(rng, d, aliasBytes.Length);
    originalChar := aliasBytes[pos];
    // the redraw loop: a uniform pick among the pool characters other than originalChar
    var newChar := Replacement(availableChars, originalChar, rng, d + 1);
    aliasBytes[pos] := newChar;
    newAlias := aliasBytes[..];
    assert newAlias == before[pos := newChar];
    answer := oracle(asked, newAlias);
  }

  /** modifyRandomChar: up to MaxAttempts times, overwrite a random position
      of the alias buffer with a different pool character and ask the store;
      return the first alias it does not know, restore the position when it
      does, and leave it overwritten when the store fails. When the attempts
      run out, return the original alias with a random suffix. */
  method ModifyRandomChar(alias: string, availableChars: string, oracle: Oracle, rng: RandomSource,
                          draw: nat, asked: seq<string>)
    returns (result: string, queries: seq<string>, next: nat)
    requires |alias| > 0 && Replaceable(availableChars)
    ensures Generated(result, queries, next) == Repair(alias, availableChars, oracle, rng, draw, asked)
    ensures |queries| <= MaxAttempts
    ensures |result| == |alias| || |result| == |alias| + SuffixLength
  {
    var aliasBytes := new char[|alias|](i requires 0 <= i < |alias| => alias[i]);
    assert aliasBytes[..] == alias;
    ghost var trials: seq<Trial> := [];
    var d := draw;
    queries := [];
    for attempt := 0 to MaxAttempts
      invariant aliasBytes.Length == |alias| && |trials| == attempt && d == draw + 2 * attempt
      invariant queries == Queries(trials) && !Found(trials)
      invariant aliasBytes[..] == StateAfter(alias, trials)
      invariant Chained(AttemptStep(availableChars, oracle, rng), alias, draw, asked, trials)
    {
      ghost var before := aliasBytes[..];
      var pos, originalChar, newAlias, answer := TryMutation(aliasBytes, availableChars, oracle, rng, d, asked + queries);
      ghost var t := Trial(before, pos, newAlias, answer);
      RoundChained(availableChars, oracle, rng, alias, draw, asked, trials, t);
      trials := trials + [t];
      queries := queries + [newAlias];
      d := d + 2;

      if answer == Error {
        continue;
      }
      if answer == NotExists {
        ChainedRepairs(alias, availableChars, oracle, rng, draw, asked, trials);
        assert d == DrawAfter(draw, trials);
        RepairOf(alias, availableChars, oracle, rng, draw, asked, trials);
        result, next := newAlias, d;
        return;
      }
      aliasBytes[pos] := originalChar;
      assert aliasBytes[..] == before;
    }
    ChainedRepairs(alias, availableChars, oracle, rng, draw, asked, trials);
    assert d == DrawAfter(draw, trials);
    RepairOf(alias, availableChars, oracle, rng, draw, asked, trials);
    var suffix;
    suffix, next := GenerateRandomAlias(availableChars, SuffixLength, rng, d);
    result := alias + suffix;
  }
}
