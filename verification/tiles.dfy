/**
 The row of letter tiles drawn for the shown word
 (packages/app/src/pages/index.tsx).

 Each letter is a tile 4rem wide, tiles are 1rem apart, and the tile at the
 centre index is highlighted. Rotating turns the whole row by 180 degrees
 about the middle of the row while each tile turns back by 180 degrees, so
 the letters stay upright and only their order changes. Widths are kept in
 whole rem; positions inside the row are doubled so that the middle of the
 row, half the total width, stays an integer.
 */
module Tiles {
  import Words
  import Navigation

  /** Width of one tile, in rem. */
  const LetterWidth: int := 4
  /** Gap between two neighbouring tiles, in rem. */
  const Gap: int := 1

  /** What the page derives from the shown word before drawing it. */
  datatype Layout = Layout(letters: seq<char>, centerIndex: int, totalWidth: int)

  /** `split('')`, `Math.floor(letters.length / 2)` and the row width for one word. */
  function TileLayout(word: Words.Word): (l: Layout)
    ensures l.letters == word
    ensures 2 * l.centerIndex <= |word| < 2 * l.centerIndex + 2
    ensures |word| >= 1 ==> 0 <= l.centerIndex < |word|
    ensures l.totalWidth == 5 * |word| - 1
    ensures |word| >= 1 ==> 0 < l.totalWidth
  {
    var letters := word;
    var n := |letters|;
    Layout(letters, n / 2, LetterWidth * n + (n - 1) * Gap)
  }

  /** Twice the distance from the row's left edge to the middle of tile `k`. */
  function DoubledTileMiddle(k: int): int {
    2 * k * (LetterWidth + Gap) + LetterWidth
  }

  /**
   Turning the row about its middle (`transformOrigin` at half the total
   width) puts the middle of tile `k` where the middle of tile `n - 1 - k`
   was, so a rotated row of `n` tiles shows them in reverse order.
   */
  lemma RotationMirrorsTiles(word: Words.Word, k: int)
    requires 0 <= k < |word|
    ensures var l := TileLayout(word);
            2 * l.totalWidth - DoubledTileMiddle(k) == DoubledTileMiddle(|word| - 1 - k)
  {
  }

  /** On a word of odd length the highlighted tile is the one the rotation keeps in place. */
  lemma CenterTileStaysUnderRotation(word: Words.Word)
    requires |word| % 2 == 1
    ensures var l := TileLayout(word);
            |word| - 1 - l.centerIndex == l.centerIndex
  {
  }

  /** The letters as read left to right on screen. */
  function ShownLetters(word: Words.Word, rotated: bool): (r: seq<char>)
    ensures |r| == |word|
    ensures forall j :: 0 <= j < |word| ==> r[j] == if rotated then word[|word| - 1 - j] else word[j]
  {
    if rotated then Words.Reverse(word) else word
  }

  /** A rotated palindrome reads as the same word. */
  lemma RotatedPalindromeReadsSame(word: Words.Word)
    requires Words.IsPalindrome(word)
    ensures ShownLetters(word, true) == word
  {
  }

  /**
   A rotated emordnilap of the classifier's output reads as a different word
   of the raw list, and that word is in the emordnilap list too.
   */
  lemma RotatedEmordnilapReadsAnotherWord(words: seq<Words.Word>, word: Words.Word)
    requires word in Words.EmordnilapWords(words)
    ensures ShownLetters(word, true) != word
    ensures ShownLetters(word, true) in words
    ensures ShownLetters(word, true) in Words.EmordnilapWords(words)
  {
    Words.EmordnilapsClosedUnderReversal(words);
  }

  /**
   The outcome of rendering a state: a row of letters in reading order, or a
   crash, which is what `word.split('')` does when `word` is `undefined`.
   */
  datatype Render = Crashed | Row(letters: seq<char>)

  /** What the page draws in a state. */
  function Screen(lists: Navigation.WordLists, s: Navigation.NavState): (r: Render)
    ensures r.Crashed? <==> !Navigation.InBounds(lists, s)
    ensures r.Row? ==>
              var word := Navigation.ActiveWords(lists, s.activeTab)[s.wordIndex];
              (if s.rotated then Words.Reverse(r.letters) else r.letters) == word
  {
    match Navigation.CurrentWord(lists, s)
    case Some(word) =>
      Words.ReverseInvolution(word);
      Row(ShownLetters(TileLayout(word).letters, s.rotated))
    case None => Crashed
  }

  /** Two clicks on the word show the same letters in the same order again. */
  lemma DoubleToggleRestoresScreen(lists: Navigation.WordLists, s: Navigation.NavState)
    ensures Screen(lists, Navigation.ToggleRotation(Navigation.ToggleRotation(s))) == Screen(lists, s)
  {
  }

  /** On the palindrome tab of a page loaded from the classifier, rotating never changes what is read. */
  lemma RotationInvisibleOnPalindromes(words: seq<Words.Word>, emordnilapFile: seq<Words.Word>, s: Navigation.NavState)
    requires s.activeTab == Navigation.Palindromes
    ensures var lists := Navigation.LoadLists(Words.PalindromeWords(words), emordnilapFile);
            Screen(lists, Navigation.ToggleRotation(s)) == Screen(lists, s)
  {
    var lists := Navigation.LoadLists(Words.PalindromeWords(words), emordnilapFile);
    var toggled := Navigation.ToggleRotation(s);
    var cw := Navigation.CurrentWord(lists, s);
    assert Navigation.CurrentWord(lists, toggled) == cw;
    if cw.Some? {
      var word := cw.value;
      assert word in lists.palindromes;
      Navigation.LoadedPalindromesArePalindromes(words, emordnilapFile);
      RotatedPalindromeReadsSame(word);
      assert ShownLetters(word, true) == ShownLetters(word, false);
    }
  }
}
