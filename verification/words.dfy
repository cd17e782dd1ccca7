/**
 The word-list classifier of the data package (packages/data/words/main.py).

 A raw list of words fetched from a dictionary service is filtered three ways,
 each filter keeping the order of its input:
 - the valid words: longer than one character and made only of letters;
 - the palindromes among the valid words: words equal to their reversal;
 - the emordnilaps among the valid words: words whose reversal is a different
   word of the raw list.
 The fetching, the JSON decoding and the writing of the two result files are
 I/O and are not part of this module.
 */
module Words {

  type Word = string

  // -------------------------------------------------------------------------
  // Sequence helpers
  // -------------------------------------------------------------------------

  /** `a` is obtained from `b` by deleting elements, keeping the order of the rest. */
  predicate IsSubsequence<T(==)>(a: seq<T>, b: seq<T>)
    decreases |b|
  {
    || |a| == 0
    || (&& |b| > 0
        && (|| (a[0] == b[0] && IsSubsequence(a[1..], b[1..]))
            || IsSubsequence(a, b[1..])))
  }

  /** Python's `[x for x in s if p(x)]`: the elements of `s` satisfying `p`, in order. */
  function Filter<T(==,!new)>(s: seq<T>, p: T -> bool): (r: seq<T>)
    ensures |r| <= |s|
    ensures IsSubsequence(r, s)
    ensures forall i :: 0 <= i < |r| ==> p(r[i])
    ensures forall x :: x in r <==> x in s && p(x)
  {
    if |s| == 0 then []
    else
      var rest := Filter(s[1..], p);
      assert s == [s[0]] + s[1..];
      if p(s[0]) then
        var r := [s[0]] + rest;
        assert r[1..] == rest;
        r
      else
        rest
  }

  /** Filtering keeps every element meeting the condition as often as it occurs, and no other. */
  lemma {:induction false} FilterKeepsCounts<T(!new)>(s: seq<T>, p: T -> bool)
    ensures forall x :: multiset(Filter(s, p))[x] == if p(x) then multiset(s)[x] else 0
  {
    if |s| > 0 {
      FilterKeepsCounts(s[1..], p);
      assert s == [s[0]] + s[1..];
    }
  }

  /** Subsequence is transitive: a subsequence of a subsequence of `c` is one of `c`. */
  lemma {:induction false} SubsequenceTransitive<T>(a: seq<T>, b: seq<T>, c: seq<T>)
    requires IsSubsequence(a, b)
    requires IsSubsequence(b, c)
    ensures IsSubsequence(a, c)
    decreases |c|
  {
    if |a| == 0 {
    } else if IsSubsequence(b, c[1..]) {
      SubsequenceTransitive(a, b, c[1..]);
    } else {
      assert b[0] == c[0] && IsSubsequence(b[1..], c[1..]);
      if a[0] == b[0] && IsSubsequence(a[1..], b[1..]) {
        SubsequenceTransitive(a[1..], b[1..], c[1..]);
      } else {
        SubsequenceTransitive(a, b[1..], c[1..]);
      }
    }
  }

  /** Filtering twice is filtering once by the conjunction of the two conditions. */
  lemma {:induction false} FilterFusion<T(!new)>(s: seq<T>, p: T -> bool, q: T -> bool, pq: T -> bool)
    requires forall x :: pq(x) == (p(x) && q(x))
    ensures Filter(Filter(s, p), q) == Filter(s, pq)
  {
    if |s| > 0 {
      FilterFusion(s[1..], p, q, pq);
      if p(s[0]) {
        assert ([s[0]] + Filter(s[1..], p))[1..] == Filter(s[1..], p);
      }
    }
  }

  // -------------------------------------------------------------------------
  // Word predicates
  // -------------------------------------------------------------------------

  /**
   The letter class behind Python's `str.isalpha`, restricted to the ASCII
   letters (the Unicode letter categories are not modelled).
   */
  predicate IsLetter(c: char) {
    'a' <= c <= 'z' || 'A' <= c <= 'Z'
  }

  /** Python's `str.isalpha`: at least one character, and every character a letter. */
  predicate IsAlpha(w: Word) {
    |w| > 0 && forall i :: 0 <= i < |w| ==> IsLetter(w[i])
  }

  /** Python's `w[::-1]`: the characters of `w` in reverse order. */
  function Reverse(w: Word): (r: Word)
    ensures |r| == |w|
    ensures forall i :: 0 <= i < |w| ==> r[i] == w[|w| - 1 - i]
  {
    if |w| == 0 then [] else Reverse(w[1..]) + [w[0]]
  }

  /** Reversal is an involution. */
  lemma ReverseInvolution(w: Word)
    ensures Reverse(Reverse(w)) == w
  {
    var rr := Reverse(Reverse(w));
    assert forall i :: 0 <= i < |w| ==> rr[i] == w[i];
  }

  /** A word kept by the first filter: more than one character, letters only. */
  predicate IsValidWord(w: Word) {
    |w| > 1 && IsAlpha(w)
  }

  /** A word is valid exactly when it has two or more characters, all letters. */
  lemma ValidWordCharacterization(w: Word)
    ensures IsValidWord(w) <==> |w| >= 2 && forall i :: 0 <= i < |w| ==> IsLetter(w[i])
  {
  }

  /** A word equal to its reversal. */
  predicate IsPalindrome(w: Word) {
    w == Reverse(w)
  }

  /** A palindrome is a word whose every character equals its mirror character. */
  lemma PalindromeCharacterization(w: Word)
    ensures IsPalindrome(w) <==> forall i :: 0 <= i < |w| ==> w[i] == w[|w| - 1 - i]
  {
    if forall i :: 0 <= i < |w| ==> w[i] == w[|w| - 1 - i] {
      assert Reverse(w) == w;
    }
  }

  /** A word whose reversal is a different word of `wordSet`. */
  predicate IsEmordnilap(w: Word, wordSet: set<Word>) {
    var reversed := Reverse(w);
    reversed in wordSet && reversed != w
  }

  /** An emordnilap is a word that is not a palindrome and whose reversal is in the set. */
  lemma EmordnilapCharacterization(w: Word, wordSet: set<Word>)
    ensures IsEmordnilap(w, wordSet) <==> Reverse(w) in wordSet && !IsPalindrome(w)
  {
  }

  /** No word is both a palindrome and an emordnilap, whatever the word set. */
  lemma PalindromeNotEmordnilap(w: Word, wordSet: set<Word>)
    ensures !(IsPalindrome(w) && IsEmordnilap(w, wordSet))
  {
  }

  /** Validity does not depend on the direction a word is read in. */
  lemma ValidityReversalInvariant(w: Word)
    ensures IsValidWord(Reverse(w)) == IsValidWord(w)
  {
    var r := Reverse(w);
    if IsValidWord(w) {
      assert forall i :: 0 <= i < |r| ==> IsLetter(r[i]) by {
        forall i | 0 <= i < |r| ensures IsLetter(r[i]) {
          assert r[i] == w[|w| - 1 - i];
        }
      }
    }
    if IsValidWord(r) {
      assert forall i :: 0 <= i < |w| ==> IsLetter(w[i]) by {
        forall i | 0 <= i < |w| ensures IsLetter(w[i]) {
          assert r[|w| - 1 - i] == w[i];
        }
      }
    }
  }

  // -------------------------------------------------------------------------
  // The three filters
  // -------------------------------------------------------------------------

  /** Python's `set(words)`: the distinct words of the raw list, no more of them than words in the list. */
  function WordSet(words: seq<Word>): (ws: set<Word>)
    ensures forall w :: w in ws <==> w in words
    ensures |ws| <= |words|
  {
    DistinctWordsBound(words);
    set w | w in words
  }

  /** A list holds at most as many distinct words as it has entries. */
  lemma {:induction false} DistinctWordsBound(words: seq<Word>)
    ensures |set w | w in words| <= |words|
  {
    if |words| > 0 {
      DistinctWordsBound(words[1..]);
      assert (set w | w in words) == {words[0]} + (set w | w in words[1..]);
    }
  }

  /** The valid words of the raw list, in order, duplicates kept. */
  function FilteredWords(words: seq<Word>): (r: seq<Word>)
    ensures |r| <= |words|
    ensures IsSubsequence(r, words)
    ensures forall w :: multiset(r)[w] == if IsValidWord(w) then multiset(words)[w] else 0
  {
    FilterKeepsCounts(words, IsValidWord);
    Filter(words, IsValidWord)
  }

  /** The palindromes among the valid words, in order. */
  function PalindromeWords(words: seq<Word>): (r: seq<Word>)
    ensures IsSubsequence(r, FilteredWords(words))
    ensures forall i :: 0 <= i < |r| ==> IsValidWord(r[i]) && Reverse(r[i]) == r[i]
    ensures forall w :: w in r <==> w in words && IsValidWord(w) && IsPalindrome(w)
  {
    Filter(FilteredWords(words), IsPalindrome)
  }

  /** The emordnilaps among the valid words, in order. */
  function EmordnilapWords(words: seq<Word>): (r: seq<Word>)
    ensures IsSubsequence(r, FilteredWords(words))
    ensures forall i :: 0 <= i < |r| ==>
              && IsValidWord(r[i])
              && Reverse(r[i]) in words
              && Reverse(r[i]) != r[i]
    ensures forall w :: w in r <==> w in words && IsValidWord(w) && IsEmordnilap(w, WordSet(words))
  {
    var wordSet := WordSet(words);
    Filter(FilteredWords(words), w => IsEmordnilap(w, wordSet))
  }

  /** Each valid palindrome appears in the palindrome list as often as in the raw list. */
  lemma PalindromeWordsKeepCounts(words: seq<Word>)
    ensures forall w :: multiset(PalindromeWords(words))[w] ==
              if IsValidWord(w) && IsPalindrome(w) then multiset(words)[w] else 0
  {
    var filtered := FilteredWords(words);
    FilterKeepsCounts(filtered, IsPalindrome);
    forall w ensures multiset(PalindromeWords(words))[w] ==
                     if IsValidWord(w) && IsPalindrome(w) then multiset(words)[w] else 0 {
      assert multiset(filtered)[w] == if IsValidWord(w) then multiset(words)[w] else 0;
    }
  }

  /** Each emordnilap appears in the emordnilap list as often as in the raw list. */
  lemma EmordnilapWordsKeepCounts(words: seq<Word>)
    ensures forall w :: multiset(EmordnilapWords(words))[w] ==
              if IsValidWord(w) && IsEmordnilap(w, WordSet(words)) then multiset(words)[w] else 0
  {
    var filtered := FilteredWords(words);
    var wordSet := WordSet(words);
    var p := w => IsEmordnilap(w, wordSet);
    FilterKeepsCounts(filtered, p);
    assert EmordnilapWords(words) == Filter(filtered, p);
    forall w ensures multiset(EmordnilapWords(words))[w] ==
                     if IsValidWord(w) && IsEmordnilap(w, wordSet) then multiset(words)[w] else 0 {
      assert multiset(filtered)[w] == if IsValidWord(w) then multiset(words)[w] else 0;
    }
  }

  /** A valid palindrome: the condition the two filters apply one after the other. */
  predicate IsValidPalindrome(w: Word) {
    IsValidWord(w) && IsPalindrome(w)
  }

  /** The palindrome list is one filter of the raw list, so it is a subsequence of it. */
  lemma PalindromeWordsOfRawList(words: seq<Word>)
    ensures PalindromeWords(words) == Filter(words, IsValidPalindrome)
    ensures IsSubsequence(PalindromeWords(words), words)
  {
    FilterFusion(words, IsValidWord, IsPalindrome, IsValidPalindrome);
    SubsequenceTransitive(PalindromeWords(words), FilteredWords(words), words);
  }

  /** The emordnilap list is a subsequence of the raw list. */
  lemma EmordnilapWordsOfRawList(words: seq<Word>)
    ensures IsSubsequence(EmordnilapWords(words), words)
  {
    SubsequenceTransitive(EmordnilapWords(words), FilteredWords(words), words);
  }

  /** The two published lists share no word. */
  lemma ClassifiedListsDisjoint(words: seq<Word>)
    ensures forall w :: w in PalindromeWords(words) ==> w !in EmordnilapWords(words)
  {
    forall w | w in PalindromeWords(words) ensures w !in EmordnilapWords(words) {
      PalindromeNotEmordnilap(w, WordSet(words));
    }
  }

  /** The emordnilap list is closed under reversal: each word's reversal is in it too. */
  lemma EmordnilapsClosedUnderReversal(words: seq<Word>)
    ensures forall w :: w in EmordnilapWords(words) ==> Reverse(w) in EmordnilapWords(words)
  {
    var ws := WordSet(words);
    forall w | w in EmordnilapWords(words) ensures Reverse(w) in EmordnilapWords(words) {
      var r := Reverse(w);
      ValidityReversalInvariant(w);
      ReverseInvolution(w);
      assert r in words;
      assert Reverse(r) == w && w in ws;
      assert IsEmordnilap(r, ws);
    }
  }
}
