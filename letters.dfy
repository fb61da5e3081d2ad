/** Lower-case ASCII letters and small facts about sequences of characters,
    shared by the ranking, the pool and the resolver. */
module Letters {

  /** One of the 26 letters 'a'..'z' that the alias generator works with. */
  predicate IsLetter(c: char) {
    'a' <= c <= 'z'
  }

  predicate IsUpper(c: char) {
    'A' <= c <= 'Z'
  }

  /** ASCII lower-casing of one character; everything else is left alone. */
  function Lower(c: char): char {
    if IsUpper(c) then (c as int + 32) as char else c
  }

  /** The upper-case form of a letter. */
  function Upper(c: char): char
    requires IsLetter(c)
  {
    (c as int - 32) as char
  }

  /** Lower-casing of a whole string, character by character. */
  function ToLower(s: string): string {
    seq(|s|, i requires 0 <= i < |s| => Lower(s[i]))
  }

  lemma LowerOfUpper(c: char)
    requires IsLetter(c)
    ensures IsUpper(Upper(c)) && Lower(Upper(c)) == c
  {
  }

  lemma ToLowerAppend(a: string, b: string)
    ensures ToLower(a + b) == ToLower(a) + ToLower(b)
  {
  }

  /** Lower-casing twice is lower-casing once. */
  lemma ToLowerIdempotent(s: string)
    ensures ToLower(ToLower(s)) == ToLower(s)
  {
  }

  /** No character occurs twice. */
  predicate Distinct(s: string) {
    forall i, j :: 0 <= i < j < |s| ==> s[i] != s[j]
  }

  function Elems(s: string): set<char> {
    set x | x in s
  }

  /** The alphabet 'a'..'z' in ascending order. */
  function Alphabet(): string {
    seq(26, i requires 0 <= i < 26 => ('a' as int + i) as char)
  }

  lemma AlphabetShape()
    ensures |Alphabet()| == 26 && Distinct(Alphabet())
    ensures forall c :: c in Alphabet() <==> IsLetter(c)
  {
    var a := Alphabet();
    forall c | IsLetter(c) ensures c in a {
      assert a[c as int - 'a' as int] == c;
    }
  }

  /** A repeat-free string has as many elements as characters. */
  lemma {:induction false} DistinctCard(s: string)
    requires Distinct(s)
    ensures |Elems(s)| == |s|
  {
    if s != [] {
      var p := s[..|s| - 1];
      DistinctCard(p);
      assert Elems(s) == Elems(p) + {s[|s| - 1]};
      assert s[|s| - 1] !in Elems(p);
    }
  }

  /** Two repeat-free strings with the same elements have the same length. */
  lemma DistinctSameLength(s: string, t: string)
    requires Distinct(s) && Distinct(t)
    requires forall x :: x in s <==> x in t
    ensures |s| == |t|
  {
    DistinctCard(s);
    DistinctCard(t);
    assert Elems(s) == Elems(t);
  }
}
