# Alias generator of the URL shortener — a Dafny model

This project models the alias generator of a URL-shortening service: the
Go package `backend/internal/lib/random`. Given a link, the generator does
five things:

1. It ranks the letters of the lower-cased link by frequency, keeping at
   most six.
2. It builds a pool of all 26 letters with the ranked ones first.
3. It draws a six-letter candidate from the pool.
4. It asks the store whether the candidate is already taken. If the store
   errs or reports it free, the candidate is the alias.
5. Otherwise it repairs the candidate. It makes up to ten single-character
   mutations, each checked with the store. If all of them fail, it
   returns the candidate with an unchecked two-letter suffix.

The model is split into five modules, one file each:

- `Letters` (`letters.dfy`): ASCII letters, lower-casing, repeat-free
  strings and the alphabet.
- `Ranking` (`ranking.dfy`): `parceTheLink`.
  - The reference definition of the ranking is `Ranking`/`TopLetters`:
    letters inserted by descending count, ties by ascending character.
  - The imperative part has three methods:
    - `CountFrequencies` fills the count map;
    - `FrequencyRows` copies the map into rows, in an arbitrary order,
      as Go's map iteration does;
    - `SortCharFreqs` is a selection sort over an array with the
      comparator of `sort.Slice`.
  - The ranking is proved to be the only sequence ranked by that
    comparator, so the result does not depend on the map's order or on
    the sort algorithm.
- `Pool` (`pool.dfy`): the pool, built by appending the alphabet and
  deduplicating through a seen-set (`BuildPool`), with its reference
  definition `Pool`.
- `Resolver` (`resolver.dfy`): `generateRandomAlias` and
  `modifyRandomChar`.
  - The store's check is a function `Oracle` answering `Exists`,
    `NotExists` or `Error`. It is also given the aliases already asked
    about in this call, so its answers may change between calls.
  - Randomness is an injected stream `RandomSource`; `rand.Intn(n)` at
    draw `k` is `rng(k) % n`.
  - The mutation loop is specified by `Search`, a bounded recursion over
    attempts whose single attempt is the function `Attempt`. `Repair` is
    what the loop returns.
  - `ModifyRandomChar` mutates the alias buffer, an `array<char>`, in
    place. It is proved equal to `Repair`, with the trace predicate
    `Chained` as its loop invariant.
- `Generate` (`generate.dfy`): `GenerateAlias` and `NewRandomString`,
  specified by the function `AliasFor`.

Three behaviours are modelled as the code has them:
- An oracle error during a mutation leaves the overwritten character in
  the buffer: random.go:159 continues past the restore at random.go:169,
  so the next attempt mutates that modified state, not the original
  candidate.
- The candidate returned after an oracle error (random.go:88-93) was
  never confirmed free.
- The suffix fallback (random.go:177-178) is never checked.

## Model

| member | source | states |
|---|---|---|
| Letters.ToLower | backend/internal/lib/random/random.go:26 | the definition: the link with every character lower-cased, position by position (ASCII letters only) |
| Ranking.Ranking | backend/internal/lib/random/random.go:23-52 | the definition: every letter 'a'..'z' the lower-cased link contains, each once, ordered by descending count with ties by ascending character |
| Ranking.TopLetters | backend/internal/lib/random/random.go:23-52 | the definition: the first six letters of the ranking, or all of them when there are fewer |
| Ranking.Less | backend/internal/lib/random/random.go:39-44 | the definition: the sort comparator, a higher count first and an equal count by the smaller character |
| Pool.Dedup | backend/internal/lib/random/random.go:72-79 | the definition: the string with every repeat after a character's first occurrence dropped, order kept |
| Pool.Pool | backend/internal/lib/random/random.go:70-79 | the definition: the ranked letters followed by the alphabet, deduplicated |
| Resolver.Replacement | backend/internal/lib/random/random.go:136-141 | the definition: the redraw loop's result, one draw among the pool characters other than the one at the position |
| Resolver.Search | backend/internal/lib/random/random.go:131-170 | the definition: the attempts the mutation loop makes, stopping after the first free query or after ten attempts, restoring the buffer after a known query and keeping the overwrite after an error |
| Resolver.Repair | backend/internal/lib/random/random.go:123-185 | the definition: the first free mutation if the search found one, else the original alias plus an unchecked two-character random suffix, with the queries asked and the next draw |
| Generate.PoolFor | backend/internal/lib/random/random.go:63-79 | the definition: the pool for a link, its top letters followed by the rest of the alphabet |
| Generate.AliasFor | backend/internal/lib/random/random.go:54-110 | the definition: a six-character candidate from the pool, returned when the store does not answer Exists, else handed to the repair |
| Letters.Alphabet | backend/internal/lib/random/random.go:65-68 | the definition: the characters 'a'..'z' in ascending order, as the allChars loop appends them |
| Ranking.Count | backend/internal/lib/random/random.go:27-31 | the definition: the number of occurrences of a character in a string, counted position by position |
| Ranking.Freq | backend/internal/lib/random/random.go:24-32 | the definition: the frequency map's entry for a character, its count in the lower-cased link |
| Ranking.Before | backend/internal/lib/random/random.go:39-44 | the definition: the comparator applied to a link's counts, a higher count first and an equal count by the smaller character |
| Ranking.LessIsBefore | backend/internal/lib/random/random.go:39-44 | on rows carrying a link's counts, the row comparator holds exactly when the ranking order does, in both directions |
| Resolver.After | backend/internal/lib/random/random.go:159-169 | the definition: the buffer after an attempt, the old character put back after Exists and the overwrite kept after Error |
| Resolver.AttemptStep | backend/internal/lib/random/random.go:131-153 | the definition: one loop round as a step of the search, the attempt on a non-empty buffer (the empty buffer is a placeholder the loop never reaches) |
| Letters.AlphabetShape | backend/internal/lib/random/random.go:65-68 | the alphabet loop yields 26 distinct characters, exactly the letters 'a'..'z' |
| Letters.LowerOfUpper | backend/internal/lib/random/random.go:26 | lower-casing maps the upper-case form of a letter back to that letter |
| Letters.ToLowerIdempotent | backend/internal/lib/random/random.go:26 | lower-casing a lower-cased link changes nothing |
| Ranking.CountFrequencies | backend/internal/lib/random/random.go:24-32 | the map's keys are exactly the letters 'a'..'z' occurring in the lower-cased link, each mapped to its number of occurrences |
| Ranking.FrequencyRows | backend/internal/lib/random/random.go:34-37 | one row per map key (no letter twice, none missing), each carrying that key's count, in whatever order the map yields them |
| Ranking.SortCharFreqs | backend/internal/lib/random/random.go:39-44 | the rows end up sorted under the comparator (higher count first, equal counts by ascending character) and are a permutation of the rows before |
| Ranking.BeforeTotal | backend/internal/lib/random/random.go:40-43 | the comparator is a strict total order on distinct letters: irreflexive, asymmetric and total |
| Ranking.RankingIsRanking | backend/internal/lib/random/random.go:34-44 | the reference ranking is ordered by the comparator and holds exactly the letters that occur in the link |
| Ranking.RankedUnique | backend/internal/lib/random/random.go:39-44 | two sequences ordered by the comparator with the same letters are equal, so the sorted result is unique |
| Ranking.RankedDistinct | backend/internal/lib/random/random.go:39-44 | a sequence ordered by the comparator has no repeated letter |
| Ranking.RankingCharacterized | backend/internal/lib/random/random.go:34-44 | any sequence ordered by the comparator that holds exactly the occurring letters is the reference ranking |
| Ranking.SortedRowsSpellRanking | backend/internal/lib/random/random.go:34-49 | whatever order the map was read in, the sorted rows spell the reference ranking |
| Ranking.SameFreqSameRanking | backend/internal/lib/random/random.go:24-44 | links with the same letter counts have the same ranking |
| Ranking.TopLettersShape | backend/internal/lib/random/random.go:46-51 | the result has at most six letters, no repeats, only letters of the lower-cased link, ordered by the comparator; every occurring letter left out ranks below every kept one, and a result shorter than six holds every occurring letter |
| Ranking.NoLettersNoRanking | backend/internal/lib/random/random.go:27-32 | the result is empty exactly when no character of the link lower-cases to a letter |
| Ranking.CaseInsensitive | backend/internal/lib/random/random.go:26 | a link and its lower-cased form rank the same |
| Ranking.UpperCountsAsLower | backend/internal/lib/random/random.go:26-31 | replacing a letter by its upper-case form anywhere in the link does not change the result |
| Ranking.NonLetterIgnored | backend/internal/lib/random/random.go:29-31 | removing a character that does not lower-case to a letter does not change the result |
| Ranking.RankingExample | backend/internal/lib/random/random.go:23-52 | the link "aabbbc" ranks as "bac" |
| Ranking.RankingOfTable | backend/internal/lib/random/random.go:39-49 | a link whose occurring letters are a, b, c with counts 2, 3, 1 ranks as "bac" |
| Ranking.ParceTheLink | backend/internal/lib/random/random.go:23-52 | the method returns the reference top-six ranking: at most six distinct letters, each occurring in the lower-cased link |
| Pool.DedupElems | backend/internal/lib/random/random.go:72-79 | deduplication keeps every character exactly once and adds none |
| Pool.DedupKeepsPrefix | backend/internal/lib/random/random.go:70-79 | a repeat-free prefix survives deduplication unchanged, in front |
| Pool.PoolShape | backend/internal/lib/random/random.go:65-79 | the pool of a repeat-free ranking of letters has exactly 26 characters, each letter once, and starts with the ranking |
| Pool.BuildPool | backend/internal/lib/random/random.go:65-79 | the method's pool is the reference pool: repeat-free, its characters are the ranked ones plus every letter, and a repeat-free ranking is its prefix |
| Resolver.Intn | backend/internal/lib/random/random.go:117 | a draw of rand.Intn(n) lies in [0, n) |
| Resolver.RandomString | backend/internal/lib/random/random.go:112-121 | the drawn string has the requested length and only characters of the pool |
| Resolver.GenerateRandomAlias | backend/internal/lib/random/random.go:112-121 | the buffer loop returns the reference random string, of the requested length with only pool characters, and uses one draw per position |
| Resolver.WithoutElems | backend/internal/lib/random/random.go:136-141 | the characters the redraw loop can end on are exactly the pool characters other than the original |
| Resolver.ReplacementOk | backend/internal/lib/random/random.go:136-141 | in a pool with two different characters, the redraw yields a pool character different from the original |
| Resolver.Attempt | backend/internal/lib/random/random.go:132-153 | the definition: one attempt, namely the position drawn from draw `draw`, the redraw's character written there, and the store asked about the result given the earlier queries; its one-position change is stated by AttemptOk |
| Resolver.AttemptOk | backend/internal/lib/random/random.go:132-144 | an attempt's query differs from the buffer it started from at exactly one position, where it holds another pool character |
| Resolver.TryMutation | backend/internal/lib/random/random.go:132-153 | the buffer is overwritten at the drawn position, the old character is returned, and the query and answer are those of the reference attempt on the old buffer |
| Resolver.SearchCount | backend/internal/lib/random/random.go:131-167 | the loop makes at most the attempts left, at least one if any is left; only the last can be answered NotExists, and it makes all of them unless one was |
| Resolver.SearchChain | backend/internal/lib/random/random.go:131-169 | each attempt starts from the state the previous one left (restored after Exists, overwritten after Error) and changes one position of a state of the alias's length |
| Resolver.SearchAnswers | backend/internal/lib/random/random.go:153-167 | each attempt's answer is what the store answered for its query, given the queries before it |
| Resolver.TraceInPoolAt | backend/internal/lib/random/random.go:136-169 | in a trace of one-position changes to pool characters, each from the state the previous one left, every state is made of pool characters when the first one is |
| Resolver.SearchAllExists | backend/internal/lib/random/random.go:153-169 | against a store that knows every alias, all attempts left are made and none succeeds |
| Resolver.RepairTrace | backend/internal/lib/random/random.go:131-170 | the whole trace of the mutation loop: between one and ten attempts, the first from the alias, each a one-position change chained from the previous state, answered by the store, only the last possibly NotExists, all ten made unless it was |
| Resolver.RepairResult | backend/internal/lib/random/random.go:123-185 | at most ten queries of the alias's length; a result of that length is the last query and was answered NotExists; otherwise none was, all ten were made, and the result is the alias followed by two pool characters and was never queried |
| Resolver.RepairFullStore | backend/internal/lib/random/random.go:172-184 | against a store that knows every alias, ten queries are made and the result is the alias plus a suffix drawn right after the twenty mutation draws |
| Resolver.RepairUnfound | backend/internal/lib/random/random.go:177-178 | when all ten attempts fail, the result is the original alias plus the suffix drawn after them |
| Resolver.RepairInPool | backend/internal/lib/random/random.go:136-178 | from an alias of pool characters, the result is made of pool characters |
| Resolver.ChainedSearch | backend/internal/lib/random/random.go:131-170 | a trace of attempts each made on the state the previous ones left, stopped at NotExists or after ten, is the loop's search from every position on |
| Resolver.ChainedRepairs | backend/internal/lib/random/random.go:131-170 | such a trace starting from the alias is the whole repair search |
| Resolver.RoundChained | backend/internal/lib/random/random.go:131-169 | one round of the loop extends the trace of the rounds before it, and its state after is the restored or overwritten buffer |
| Resolver.ModifyRandomChar | backend/internal/lib/random/random.go:123-185 | the method returns the reference repair (result, queries in order, draws used); at most ten queries; the result has the alias's length or two more |
| Generate.PoolForShape | backend/internal/lib/random/random.go:63-79 | every link's pool has 26 distinct letters, all of them, starts with the link's ranking, and has a different replacement for every character |
| Generate.AliasForCases | backend/internal/lib/random/random.go:85-107 | the first query is the drawn candidate; it is the result with a single query exactly when the store does not report it taken; a taken candidate is handed to the repair, told about the first query |
| Generate.FreshStore | backend/internal/lib/random/random.go:85-101 | a store that knows no alias gets one query and the drawn candidate is the result |
| Generate.FullStore | backend/internal/lib/random/random.go:85-109 | a store that knows every alias gets eleven queries and the result is the candidate plus the suffix drawn after the candidate's and the mutations' draws |
| Generate.AliasForShape | backend/internal/lib/random/random.go:54-110 | the alias has six or eight characters, all letters; between one and eleven queries are made, each of six characters |
| Generate.AliasForOutcome | backend/internal/lib/random/random.go:85-109 | a six-character alias is the last query: the unrefused candidate, or a mutation answered NotExists; an eight-character alias follows eleven queries none answered NotExists, starts with the candidate and was never queried |
| Generate.RepairOutcome | backend/internal/lib/random/random.go:107 | the repair's facts carried over to the query list that starts with the candidate |
| Generate.AliasForCaseInsensitive | backend/internal/lib/random/random.go:26-63 | a link and its lower-cased form get the same alias, queries and draws |
| Generate.GenerateAlias | backend/internal/lib/random/random.go:54-110 | the method returns the reference alias with its queries and draws; the alias has six or eight characters, all letters |
| Generate.NewRandomString | backend/internal/lib/random/random.go:17-21 | the wrapper returns what GenerateAlias returns |

## Left out

- Logging: every `slog` call is observability only and is not modelled.
- Seeding: `rand.Seed(time.Now().UnixNano())` and the global generator are replaced by the injected stream `RandomSource` and an explicit draw index. The model does not say anything about the distribution of the draws.
- Resolver.Replacement: the redraw loop (random.go:136-141) is one draw among the pool characters other than the original. The source draws repeatedly from the whole pool until it hits another character, so it uses a different number of raw draws. With a one-character pool it never ends; the model then returns the original character, and no caller reaches that case, since every caller has 26 letters.
- Resolver.Search: each attempt takes exactly two draws, one for the position and one for the replacement, because of the previous line.
- Resolver.AttemptStep: on an empty state it is a placeholder. The source's `rand.Intn(0)` panics there, and an alias is never empty.
- Letters.ToLower: ASCII lower-casing only. Go's `strings.ToLower` is Unicode-aware and maps a few non-ASCII characters to ASCII letters (the Kelvin sign to 'k', for example). The model follows characters, not the UTF-8 bytes the source indexes.
- Counts are unbounded naturals. Go's `int` would overflow only for links with more than 2^63 characters.
- The store: `AliasExists` is the function `Oracle`. SQL, the sqlite driver, the HTTP handlers and the configuration loader are not part of this model.
- Concurrency: the race between the existence check and a later insert by another request is not modelled. The oracle may answer differently from one call to the next, but nothing models another request.
- `Randomizing` (random.go:187-191) is dead code that always returns the empty string; it is not modelled.
