/** The frequency ranker: which letters of a URL come first in the alias pool.
    The URL is lower-cased, every letter 'a'..'z' is counted, the letters are
    ordered by descending count with ties broken by ascending character code,
    and at most six of them are kept. */
module Ranking {
  import opened Letters

  /** How many letters the ranker keeps. */
  const MaxRanked: nat := 6

  /** Number of occurrences of c in s. */
  function Count(s: string, c: char): nat {
    if s == [] then 0 else Count(s[..|s| - 1], c) + (if s[|s| - 1] == c then 1 else 0)
  }

  /** The frequency table of a URL: how often c occurs once the URL is lower-cased. */
  function Freq(url: string, c: char): nat {
    Count(ToLower(url), c)
  }

  /** A letter the URL contains, in either case. */
  predicate Occurs(url: string, c: char) {
    IsLetter(c) && Freq(url, c) > 0
  }

  /** The ranking order: a higher count first, equal counts by ascending code. */
  predicate Before(url: string, x: char, y: char) {
    Freq(url, x) > Freq(url, y) || (Freq(url, x) == Freq(url, y) && x < y)
  }

  predicate RankedBy(url: string, r: string) {
    forall i, j :: 0 <= i < j < |r| ==> Before(url, r[i], r[j])
  }

  /** r lists exactly the letters the URL contains, best-ranked first. */
  predicate IsRanking(url: string, r: string) {
    RankedBy(url, r) && forall c :: c in r <==> Occurs(url, c)
  }

  /** Inserts c into the ranked list r at its place. */
  function Insert(url: string, c: char, r: string): string {
    if r == [] then [c]
    else if Before(url, c, r[0]) then [c] + r
    else [r[0]] + Insert(url, c, r[1..])
  }

  /** The letters of `letters` that the URL contains, ranked. */
  function RankOf(url: string, letters: string): string {
    if letters == [] then []
    else
      var rest := RankOf(url, letters[1..]);
      if Freq(url, letters[0]) > 0 then Insert(url, letters[0], rest) else rest
  }

  /** Every letter of the URL, ranked. */
  function Ranking(url: string): string {
    RankOf(url, Alphabet())
  }

  /** The ranker's result: the first MaxRanked letters of the ranking. */
  function TopLetters(url: string): string {
    var r := Ranking(url);
    if |r| <= MaxRanked then r else r[..MaxRanked]
  }

  // ---------------------------------------------------------------------------
  // Counting

  lemma {:induction false} CountAppend(a: string, b: string, c: char)
    ensures Count(a + b, c) == Count(a, c) + Count(b, c)
  {
    if b != [] {
      var b' := b[..|b| - 1];
      assert (a + b)[..|a + b| - 1] == a + b';
      CountAppend(a, b', c);
    } else {
      assert a + b == a;
    }
  }

  lemma CountSnoc(s: string, x: char)
    ensures forall c :: Count(s + [x], c) == Count(s, c) + (if x == c then 1 else 0)
  {
    assert (s + [x])[..|s|] == s;
  }

  /** A count is positive exactly when the character is there. */
  lemma {:induction false} CountPositive(s: string, c: char)
    ensures Count(s, c) > 0 <==> c in s
  {
    if s != [] {
      var p := s[..|s| - 1];
      CountPositive(p, c);
      assert s == p + [s[|s| - 1]];
    }
  }

  /** The ranking order is a strict total order on characters. */
  lemma BeforeTotal(url: string, x: char, y: char)
    ensures !(Before(url, x, y) && Before(url, y, x))
    ensures x != y ==> Before(url, x, y) || Before(url, y, x)
    ensures !Before(url, x, x)
  {
  }

  // ---------------------------------------------------------------------------
  // The reference ranking has the declared shape

  lemma {:induction false} InsertRanked(url: string, c: char, r: string)
    requires RankedBy(url, r) && c !in r
    ensures RankedBy(url, Insert(url, c, r))
    ensures forall x :: x in Insert(url, c, r) <==> x == c || x in r
    ensures |Insert(url, c, r)| == |r| + 1
  {
    if r != [] && !Before(url, c, r[0]) {
      var t := r[1..];
      assert RankedBy(url, t);
      InsertRanked(url, c, t);
      var ins := Insert(url, c, t);
      assert Before(url, r[0], c) by { BeforeTotal(url, r[0], c); }
      forall x | x in ins ensures Before(url, r[0], x) {
        if x != c {
          var k :| 0 < k < |r| && r[k] == x;
        }
      }
      assert Insert(url, c, r) == [r[0]] + ins;
    }
  }

  lemma {:induction false} RankOfShape(url: string, letters: string)
    requires Distinct(letters)
    ensures RankedBy(url, RankOf(url, letters))
    ensures forall c :: c in RankOf(url, letters) <==> c in letters && Freq(url, c) > 0
  {
    if letters != [] {
      var t := letters[1..];
      assert Distinct(t);
      RankOfShape(url, t);
      if Freq(url, letters[0]) > 0 {
        assert letters[0] !in t;
        InsertRanked(url, letters[0], RankOf(url, t));
      }
    }
  }

  /** The reference ranking lists the URL's letters in ranking order. */
  lemma RankingIsRanking(url: string)
    ensures IsRanking(url, Ranking(url))
  {
    AlphabetShape();
    RankOfShape(url, Alphabet());
  }

  /** Because the order is strict and total, a ranking is unique: whatever
      order the frequency table is enumerated in, sorting it gives one result. */
  lemma {:induction false} RankedUnique(url: string, r: string, s: string)
    requires RankedBy(url, r) && RankedBy(url, s)
    requires forall c :: c in r <==> c in s
    ensures r == s
  {
    RankedDistinct(url, r);
    RankedDistinct(url, s);
    DistinctSameLength(r, s);
    if r != [] {
      assert r[0] in r && r[0] in s;
      assert s[0] in s && s[0] in r;
      if r[0] != s[0] {
        var i :| 0 <= i < |s| && s[i] == r[0];
        var j :| 0 <= j < |r| && r[j] == s[0];
        assert Before(url, s[0], r[0]);
        assert Before(url, r[0], s[0]);
        BeforeTotal(url, r[0], s[0]);
        assert false;
      }
      var r', s' := r[1..], s[1..];
      assert r == [r[0]] + r' && s == [s[0]] + s';
      forall c ensures c in r' <==> c in s' {
        if c in r' {
          var k :| 0 <= k < |r'| && r'[k] == c;
          assert Before(url, r[0], r[k + 1]);
          assert c in s && c != s[0];
          var m :| 0 <= m < |s| && s[m] == c;
          assert s'[m - 1] == c;
        }
        if c in s' {
          var k :| 0 <= k < |s'| && s'[k] == c;
          assert Before(url, s[0], s[k + 1]);
          assert c in r && c != r[0];
          var m :| 0 <= m < |r| && r[m] == c;
          assert r'[m - 1] == c;
        }
      }
      RankedUnique(url, r', s');
    }
  }

  /** A ranked list has no repeats. */
  lemma RankedDistinct(url: string, r: string)
    requires RankedBy(url, r)
    ensures Distinct(r)
  {
    forall i, j | 0 <= i < j < |r| ensures r[i] != r[j] {
      BeforeTotal(url, r[i], r[j]);
    }
  }

  lemma RankingCharacterized(url: string, r: string)
    requires IsRanking(url, r)
    ensures r == Ranking(url)
  {
    RankingIsRanking(url);
    RankedUnique(url, r, Ranking(url));
  }

  /** Two URLs with the same letter counts rank the same way. */
  lemma SameFreqSameRanking(u: string, v: string)
    requires forall c :: IsLetter(c) ==> Freq(u, c) == Freq(v, c)
    ensures Ranking(u) == Ranking(v)
  {
    var r := Ranking(u);
    RankingIsRanking(u);
    forall i, j | 0 <= i < j < |r| ensures Before(v, r[i], r[j]) {
      assert r[i] in r && r[j] in r;
      assert Before(u, r[i], r[j]);
    }
    assert IsRanking(v, r);
    RankingCharacterized(v, r);
  }

  // ---------------------------------------------------------------------------
  // Properties of the ranker's result (random.go:23-52)

  /** At most six distinct letters, each contained in the URL, in ranking
      order; a letter left out ranks after every letter kept, and nothing
      is left out while fewer than six are kept. */
  lemma TopLettersShape(url: string)
    ensures |TopLetters(url)| <= MaxRanked
    ensures Distinct(TopLetters(url)) && RankedBy(url, TopLetters(url))
    ensures forall c :: c in TopLetters(url) ==> IsLetter(c) && c in ToLower(url)
    ensures forall c, d :: c in TopLetters(url) && Occurs(url, d) && d !in TopLetters(url) ==> Before(url, c, d)
    ensures |TopLetters(url)| < MaxRanked ==> forall c :: c in TopLetters(url) <==> Occurs(url, c)
  {
    var r := Ranking(url);
    var t := TopLetters(url);
    RankingIsRanking(url);
    forall c | c in t ensures IsLetter(c) && c in ToLower(url) {
      var k :| 0 <= k < |t| && t[k] == c;
      assert r[k] == c && c in r;
      assert Occurs(url, c);
      CountPositive(ToLower(url), c);
    }
    forall c, d | c in t && Occurs(url, d) && d !in t ensures Before(url, c, d) {
      var i :| 0 <= i < |t| && t[i] == c;
      var j :| 0 <= j < |r| && r[j] == d;
      assert r[i] == c;
      assert i < j;
    }
  }

  /** A URL without letters ranks nothing, and only such a URL. */
  lemma NoLettersNoRanking(url: string)
    ensures TopLetters(url) == [] <==> forall i :: 0 <= i < |url| ==> !IsLetter(Lower(url[i]))
  {
    RankingIsRanking(url);
    var low := ToLower(url);
    if TopLetters(url) == [] {
      assert Ranking(url) == [];
      assert forall c :: !Occurs(url, c);
      forall i | 0 <= i < |url| ensures !IsLetter(Lower(url[i])) {
        assert low[i] == Lower(url[i]) && low[i] in low;
        CountPositive(low, low[i]);
        assert !Occurs(url, low[i]);
      }
    } else {
      var c := TopLetters(url)[0];
      assert c in Ranking(url);
      CountPositive(low, c);
      var i :| 0 <= i < |low| && low[i] == c;
      assert IsLetter(Lower(url[i]));
    }
  }

  /** Ranking ignores case: the lower-cased URL ranks like the URL. */
  lemma CaseInsensitive(url: string)
    ensures TopLetters(ToLower(url)) == TopLetters(url)
  {
    ToLowerIdempotent(url);
    SameFreqSameRanking(ToLower(url), url);
  }

  lemma FreqSplit(u: string, x: char, v: string, c: char)
    ensures Freq(u + [x] + v, c) == Freq(u, c) + Count([Lower(x)], c) + Freq(v, c)
  {
    ToLowerAppend(u + [x], v);
    ToLowerAppend(u, [x]);
    CountAppend(ToLower(u) + ToLower([x]), ToLower(v), c);
    CountAppend(ToLower(u), ToLower([x]), c);
    assert ToLower([x]) == [Lower(x)];
  }

  /** An upper-case letter counts as its lower-case form. */
  lemma UpperCountsAsLower(u: string, c: char, v: string)
    requires IsLetter(c)
    ensures TopLetters(u + [Upper(c)] + v) == TopLetters(u + [c] + v)
  {
    LowerOfUpper(c);
    forall d | IsLetter(d) ensures Freq(u + [Upper(c)] + v, d) == Freq(u + [c] + v, d) {
      FreqSplit(u, Upper(c), v, d);
      FreqSplit(u, c, v, d);
    }
    SameFreqSameRanking(u + [Upper(c)] + v, u + [c] + v);
  }

  /** A character that is not a letter in either case does not change the ranking. */
  lemma NonLetterIgnored(u: string, x: char, v: string)
    requires !IsLetter(Lower(x))
    ensures TopLetters(u + [x] + v) == TopLetters(u + v)
  {
    forall d | IsLetter(d) ensures Freq(u + [x] + v, d) == Freq(u + v, d) {
      FreqSplit(u, x, v, d);
      ToLowerAppend(u, v);
      CountAppend(ToLower(u), ToLower(v), d);
    }
    SameFreqSameRanking(u + [x] + v, u + v);
  }

  /** b occurs three times, a twice and c once. */
  lemma RankingExample()
    ensures TopLetters("aabbbc") == "bac"
  {
    var url := "aabbbc";
    assert ToLower(url) == url;
    CountSnoc("", 'a');
    assert "" + ['a'] == "a";
    CountSnoc("a", 'a');
    assert "a" + ['a'] == "aa";
    CountSnoc("aa", 'b');
    assert "aa" + ['b'] == "aab";
    CountSnoc("aab", 'b');
    assert "aab" + ['b'] == "aabb";
    CountSnoc("aabb", 'b');
    assert "aabb" + ['b'] == "aabbb";
    CountSnoc("aabbb", 'c');
    assert "aabbb" + ['c'] == url;
    forall c ensures c in "bac" <==> Occurs(url, c) {
      CountPositive(url, c);
    }
    RankingOfTable(url);
  }

  /** A URL with b three times, a twice, c once and no other letter ranks
      them b, a, c. */
  lemma RankingOfTable(url: string)
    requires Freq(url, 'a') == 2 && Freq(url, 'b') == 3 && Freq(url, 'c') == 1
    requires forall c :: c in "bac" <==> Occurs(url, c)
    ensures TopLetters(url) == "bac"
  {
    RankingCharacterized(url, "bac");
  }

  // ---------------------------------------------------------------------------
  // The ranker as the source runs it

  /** One row of the frequency table. */
  datatype CharFreq = CharFreq(ch: char, freq: nat)

  /** The comparator handed to sort.Slice. */
  predicate Less(x: CharFreq, y: CharFreq) {
    if x.freq == y.freq then x.ch < y.ch else x.freq > y.freq
  }

  /** On rows that carry a link's counts, the comparator is the ranking order. */
  lemma LessIsBefore(url: string, x: char, y: char)
    ensures Less(CharFreq(x, Freq(url, x)), CharFreq(y, Freq(url, y))) <==> Before(url, x, y)
  {
  }

  predicate Sorted(s: seq<CharFreq>) {
    forall i, j :: 0 <= i < j < |s| ==> !Less(s[j], s[i])
  }

  function Chars(s: seq<CharFreq>): string {
    seq(|s|, i requires 0 <= i < |s| => s[i].ch)
  }

  /** Sorts the rows so that no row is less than one before it
      (sort.Slice with the comparator Less; any correct sort will do). */
  method SortCharFreqs(a: array<CharFreq>)
    modifies a
    ensures Sorted(a[..])
    ensures multiset(a[..]) == old(multiset(a[..]))
  {
    var n := a.Length;
    for i := 0 to n
      invariant forall p, q :: 0 <= p < q < i ==> !Less(a[q], a[p])
      invariant forall p, q :: 0 <= p < i <= q < n ==> !Less(a[q], a[p])
      invariant multiset(a[..]) == old(multiset(a[..]))
    {
      var m := i;
      for j := i + 1 to n
        invariant i <= m < n
        invariant forall q :: i <= q < j ==> !Less(a[q], a[m])
      {
        if Less(a[j], a[m]) {
          m := j;
        }
      }
      a[i], a[m] := a[m], a[i];
    }
  }

  /** A string with a repeated character has a multiset count above one there. */
  lemma NotDistinctMultiset<T>(s: seq<T>, i: nat, j: nat)
    requires i < j < |s| && s[i] == s[j]
    ensures multiset(s)[s[i]] >= 2
  {
    assert s == s[..j] + [s[j]] + s[j + 1..];
    assert s[i] in multiset(s[..j]);
  }

  lemma {:induction false} DistinctMultiset<T>(s: seq<T>, x: T)
    requires forall i, j :: 0 <= i < j < |s| ==> s[i] != s[j]
    ensures multiset(s)[x] <= 1
  {
    if s != [] {
      var p := s[..|s| - 1];
      DistinctMultiset(p, x);
      assert s == p + [s[|s| - 1]];
      if x == s[|s| - 1] {
        assert x !in p;
      }
    }
  }

  /** Sorted rows of the frequency table, one per letter of the URL, spell
      the ranking. */
  lemma SortedRowsSpellRanking(url: string, rows: seq<CharFreq>, table: seq<CharFreq>)
    requires Sorted(rows) && multiset(rows) == multiset(table)
    requires Distinct(Chars(table))
    requires forall k :: 0 <= k < |table| ==> table[k].freq == Freq(url, table[k].ch)
    requires forall c :: c in Chars(table) <==> Occurs(url, c)
    ensures Chars(rows) == Ranking(url)
  {
    var r := Chars(rows);
    forall x | x in rows ensures x in table && x.freq == Freq(url, x.ch) {
      assert x in multiset(table);
      var k :| 0 <= k < |table| && table[k] == x;
    }
    forall i, j | 0 <= i < j < |rows| ensures rows[i] != rows[j] {
      if rows[i] == rows[j] {
        NotDistinctMultiset(rows, i, j);
        forall p, q | 0 <= p < q < |table| ensures table[p] != table[q] {
          assert Chars(table)[p] != Chars(table)[q];
        }
        DistinctMultiset(table, rows[i]);
      }
    }
    forall i, j | 0 <= i < j < |r| ensures Before(url, r[i], r[j]) {
      assert rows[i] in rows && rows[j] in rows;
    }
    forall c ensures c in r <==> Occurs(url, c) {
      if c in r {
        var k :| 0 <= k < |r| && r[k] == c;
        assert rows[k] in table;
        var m :| 0 <= m < |table| && table[m] == rows[k];
        assert Chars(table)[m] == c;
      }
      if Occurs(url, c) {
        var m :| 0 <= m < |table| && Chars(table)[m] == c;
        assert table[m] in multiset(rows);
        var k :| 0 <= k < |rows| && rows[k] == table[m];
        assert r[k] == c;
      }
    }
    RankingCharacterized(url, r);
  }

  /** The frequency table of random.go:24-32: every letter of the
      lower-cased URL mapped to its count; letters absent are not keys. */
  method CountFrequencies(lowerLink: string) returns (frequency: map<char, nat>)
    ensures forall c :: c in frequency <==> IsLetter(c) && Count(lowerLink, c) > 0
    ensures forall c :: c in frequency ==> frequency[c] == Count(lowerLink, c)
  {
    frequency := map[];
    for i := 0 to |lowerLink|
      invariant forall c :: c in frequency <==> IsLetter(c) && Count(lowerLink[..i], c) > 0
      invariant forall c :: c in frequency ==> frequency[c] == Count(lowerLink[..i], c)
    {
      var ch := lowerLink[i];
      assert lowerLink[..i + 1][..i] == lowerLink[..i];
      if IsLetter(ch) {
        frequency := frequency[ch := if ch in frequency then frequency[ch] + 1 else 1];
      }
    }
    assert lowerLink[..|lowerLink|] == lowerLink;
  }

  /** The rows of the table in whatever order the map yields them
      (random.go:34-37: Go leaves map iteration order unspecified). */
  method FrequencyRows(frequency: map<char, nat>) returns (charFreqs: seq<CharFreq>)
    ensures forall k :: 0 <= k < |charFreqs| ==> charFreqs[k].ch in frequency && charFreqs[k].freq == frequency[charFreqs[k].ch]
    ensures forall c :: c in Chars(charFreqs) <==> c in frequency
    ensures Distinct(Chars(charFreqs))
  {
    charFreqs := [];
    var rest := frequency.Keys;
    while rest != {}
      invariant rest <= frequency.Keys
      invariant forall k :: 0 <= k < |charFreqs| ==> charFreqs[k].ch in frequency && charFreqs[k].freq == frequency[charFreqs[k].ch]
      invariant forall c :: c in Chars(charFreqs) <==> c in frequency && c !in rest
      invariant Distinct(Chars(charFreqs))
      decreases |rest|
    {
      var c :| c in rest;
      assert Chars(charFreqs + [CharFreq(c, frequency[c])]) == Chars(charFreqs) + [c];
      charFreqs := charFreqs + [CharFreq(c, frequency[c])];
      rest := rest - {c};
    }
  }

  /** parceTheLink: counts the letters of the lower-cased URL, sorts the
      table's rows and keeps the first six letters. The result does not
      depend on the order the map yields its rows in. */
  method ParceTheLink(url: string) returns (result: string)
    ensures result == TopLetters(url)
    ensures |result| <= MaxRanked && Distinct(result)
    ensures forall c :: c in result ==> IsLetter(c) && c in ToLower(url)
  {
    var lowerLink := ToLower(url);
    var frequency := CountFrequencies(lowerLink);
    var charFreqs := FrequencyRows(frequency);

    var a := new CharFreq[|charFreqs|](k requires 0 <= k < |charFreqs| => charFreqs[k]);
    assert a[..] == charFreqs;
    SortCharFreqs(a);
    SortedRowsSpellRanking(url, a[..], charFreqs);

    result := [];
    var i := 0;
    while i < a.Length && i < MaxRanked
      invariant 0 <= i <= a.Length && i <= MaxRanked
      invariant result == Chars(a[..])[..i]
    {
      result := result + [a[i].ch];
      i := i + 1;
    }
    TopLettersShape(url);
  }
}
