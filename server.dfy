/** The plain utilities behind the tools of `server.py`: counting letters
    of a word without regard to case, and the iterative Fibonacci number.
    Lower-casing is restricted to the ASCII letters A-Z. */
module Server {

  /* ---------------------------------------------------------------- */
  /* Letter counting                                                   */
  /* ---------------------------------------------------------------- */

  /** `c.lower()` for an ASCII upper-case letter; every other character is
      its own lower case. */
  function LowerChar(c: char): (l: char)
    ensures 'A' <= c <= 'Z' ==> 'a' <= l <= 'z' && l as int - c as int == 32
    ensures !('A' <= c <= 'Z') ==> l == c
  {
    if 'A' <= c <= 'Z' then (c as int + 32) as char else c
  }

  /** `s.lower()`, character by character. */
  function Lower(s: string): (t: string)
    ensures |t| == |s|
    ensures forall i :: 0 <= i < |s| ==> t[i] == LowerChar(s[i])
  {
    if s == [] then [] else [LowerChar(s[0])] + Lower(s[1..])
  }

  /** `s.count(c)` for a one-character `c`: the number of positions holding
      `c`. */
  function Count(s: string, c: char): (n: nat)
    ensures n <= |s|
  {
    if s == [] then 0 else (if s[0] == c then 1 else 0) + Count(s[1..], c)
  }

  /** The number of occurrences of `c` is its multiplicity in the word. */
  lemma {:induction false} CountIsMultiplicity(s: string, c: char)
    ensures Count(s, c) == multiset(s)[c]
  {
    if s != [] {
      assert s == [s[0]] + s[1..];
      CountIsMultiplicity(s[1..], c);
    }
  }

  /** Counting a lower-case letter after lower-casing counts both of its
      cases in the original word. */
  lemma {:induction false} CountLower(s: string, c: char)
    requires 'a' <= c <= 'z'
    ensures Count(Lower(s), c) == Count(s, c) + Count(s, (c as int - 32) as char)
  {
    if s != [] {
      var t := Lower(s);
      assert t[0] == LowerChar(s[0]) && t[1..] == Lower(s[1..]);
      CountLower(s[1..], c);
    }
  }

  /** Both cases of a lower-case letter, counted in the original word. */
  ghost function Cased(s: string, c: char): nat
    requires 'a' <= c <= 'z'
  {
    multiset(s)[c] + multiset(s)[(c as int - 32) as char]
  }

  lemma CountLowerIsCased(s: string, c: char)
    requires 'a' <= c <= 'z'
    ensures Count(Lower(s), c) == Cased(s, c)
  {
    CountLower(s, c);
    CountIsMultiplicity(s, c);
    CountIsMultiplicity(s, (c as int - 32) as char);
  }

  /** `count_r`: the count of `r` in the lower-cased word. */
  function CountR(word: string): (n: nat)
    ensures n <= |word|
  {
    Count(Lower(word), 'r')
  }

  /** `count_r` counts the letters r and R of the word. */
  lemma CountRSpec(word: string)
    ensures CountR(word) == multiset(word)['r'] + multiset(word)['R']
  {
    CountLowerIsCased(word, 'r');
  }

  /** `count_vowels`: the sum of the counts of a, e, i, o and u in the
      lower-cased word. */
  function CountVowels(word: string): nat
  {
    var l := Lower(word);
    Count(l, 'a') + Count(l, 'e') + Count(l, 'i') + Count(l, 'o') + Count(l, 'u')
  }

  predicate IsVowel(c: char)
  {
    c in {'a', 'e', 'i', 'o', 'u', 'A', 'E', 'I', 'O', 'U'}
  }

  /** `count_vowels` counts both cases of every vowel of the word. */
  lemma CountVowelsSpec(word: string)
    ensures CountVowels(word)
         == Cased(word, 'a') + Cased(word, 'e') + Cased(word, 'i') + Cased(word, 'o') + Cased(word, 'u')
  {
    CountLowerIsCased(word, 'a');
    CountLowerIsCased(word, 'e');
    CountLowerIsCased(word, 'i');
    CountLowerIsCased(word, 'o');
    CountLowerIsCased(word, 'u');
  }

  /** Each character adds at most one to the vowel count, and exactly one
      when it is a vowel of either case, so the count never exceeds the
      length of the word. */
  lemma {:induction false} CountVowelsStep(word: string)
    requires word != []
    ensures CountVowels(word) == (if IsVowel(word[0]) then 1 else 0) + CountVowels(word[1..])
  {
    var l := Lower(word);
    assert l[0] == LowerChar(word[0]) && l[1..] == Lower(word[1..]);
  }

  lemma {:induction false} CountVowelsBound(word: string)
    ensures CountVowels(word) <= |word|
  {
    if word != [] {
      CountVowelsStep(word);
      CountVowelsBound(word[1..]);
    }
  }

  /* ---------------------------------------------------------------- */
  /* Fibonacci                                                         */
  /* ---------------------------------------------------------------- */

  /** The Fibonacci numbers, F(0) = 0, F(1) = 1. */
  function Fib(n: nat): nat
  {
    if n < 2 then n else Fib(n - 1) + Fib(n - 2)
  }

  /** What `fibonacci(n)` returns: `n` itself for `n <= 1` (negative
      arguments included), the Fibonacci number otherwise. */
  function FibonacciValue(n: int): int
  {
    if n <= 1 then n else Fib(n)
  }

  /** `fibonacci`: for `n >= 2` the loop over `range(2, n + 1)` keeps the
      two latest Fibonacci numbers in `prev1` and `prev2`. */
  method Fibonacci(n: int) returns (r: int)
    ensures n <= 1 ==> r == n
    ensures n >= 2 ==> r == Fib(n)
  {
    if n <= 1 {
      return n;
    }
    var curr, prev1, prev2 := 0, 1, 0;
    for i := 2 to n + 1
      invariant prev1 == Fib(i - 1) && prev2 == Fib(i - 2)
      invariant i > 2 ==> curr == prev1
    {
      curr := prev1 + prev2;
      prev2 := prev1;
      prev1 := curr;
    }
    r := curr;
  }

  /** The values `fibonacci` returns obey the recurrence from 2 on, the
      first step drawing on both small cases. */
  lemma FibonacciRecurrence(n: int)
    requires n >= 2
    ensures FibonacciValue(n) == FibonacciValue(n - 1) + FibonacciValue(n - 2)
  {}
}
