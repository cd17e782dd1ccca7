/**
 The navigation state of the home page (packages/app/src/pages/index.tsx).

 The page shows one word of one of two lists. Its state is the active tab,
 the index of the shown word in that tab's list, and whether the word is
 rotated. A key press, a tab click or a click on the word is one atomic
 transition of that state; listener registration and React's batching of
 state updates are not modelled.
 */
module Navigation {
  import opened Wrappers
  import Words

  /** The two tabs of the page. */
  datatype Tab = Palindromes | Emordnilaps

  /** The component's three pieces of state. */
  datatype NavState = NavState(activeTab: Tab, wordIndex: int, rotated: bool)

  /** The two lists the page imports, as they stand after module load. */
  datatype WordLists = WordLists(palindromes: seq<Words.Word>, emordnilaps: seq<Words.Word>)

  /** The events the page reacts to. */
  datatype Event =
    | KeyDown(key: string)  // a `keydown` event, with its `event.key`
    | TabClick(tab: Tab)    // a click on one of the two tabs
    | WordClick             // a click on the row of letter tiles

  const ArrowLeftKey: string := "ArrowLeft"
  const ArrowRightKey: string := "ArrowRight"
  const SpaceKey: string := " "

  /** The word put in front of the palindrome list when the page module loads. */
  const ExtraPalindrome: Words.Word := "ekitike"

  /** The state the component starts in. */
  const Initial: NavState := NavState(Palindromes, 0, false)

  // -------------------------------------------------------------------------
  // Loading the lists
  // -------------------------------------------------------------------------

  /** `palindromeWords.unshift('ekitike')`: the extra word first, the old list shifted by one. */
  function PrependExtra(ps: seq<Words.Word>): (r: seq<Words.Word>)
    ensures |r| == |ps| + 1
    ensures r[0] == ExtraPalindrome
    ensures forall i :: 0 <= i < |ps| ==> r[i + 1] == ps[i]
  {
    [ExtraPalindrome] + ps
  }

  /** The lists as the page sees them, from the two generated files. */
  function LoadLists(palindromeFile: seq<Words.Word>, emordnilapFile: seq<Words.Word>): (lists: WordLists)
    ensures |lists.palindromes| > 0
    ensures lists.palindromes[1..] == palindromeFile
    ensures lists.emordnilaps == emordnilapFile
  {
    WordLists(PrependExtra(palindromeFile), emordnilapFile)
  }

  /** The extra word is a palindrome made of letters. */
  lemma ExtraIsValidPalindrome()
    ensures Words.IsValidWord(ExtraPalindrome)
    ensures Words.IsPalindrome(ExtraPalindrome)
  {
  }

  /**
   When the palindrome file was produced by the classifier from a raw word
   list, every word of the page's palindrome list is a valid palindrome.
   */
  lemma LoadedPalindromesArePalindromes(words: seq<Words.Word>, emordnilapFile: seq<Words.Word>)
    ensures forall w :: w in LoadLists(Words.PalindromeWords(words), emordnilapFile).palindromes ==>
              Words.IsValidWord(w) && Words.IsPalindrome(w)
  {
    var ps := LoadLists(Words.PalindromeWords(words), emordnilapFile).palindromes;
    ExtraIsValidPalindrome();
    forall w | w in ps ensures Words.IsValidWord(w) && Words.IsPalindrome(w) {
      if w != ExtraPalindrome {
        assert w in ps[1..];
      }
    }
  }

  // -------------------------------------------------------------------------
  // Transitions
  // -------------------------------------------------------------------------

  /** The list shown under a tab. */
  function ActiveWords(lists: WordLists, tab: Tab): seq<Words.Word> {
    match tab
    case Palindromes => lists.palindromes
    case Emordnilaps => lists.emordnilaps
  }

  /** The index after ArrowLeft in a list of `n` words: one back, wrapping to the last. */
  function PreviousIndex(i: int, n: int): (j: int)
    ensures 0 < i ==> j == i - 1
    ensures i <= 0 ==> j == n - 1
    ensures 0 <= i < n ==> 0 <= j < n && j == (i - 1 + n) % n
  {
    if i > 0 then i - 1 else n - 1
  }

  /** The index after ArrowRight in a list of `n` words: one on, wrapping to the first. */
  function NextIndex(i: int, n: int): (j: int)
    ensures i < n - 1 ==> j == i + 1
    ensures n - 1 <= i ==> j == 0
    ensures 0 <= i < n ==> 0 <= j < n && j == (i + 1) % n
  {
    if i < n - 1 then i + 1 else 0
  }

  /** Space, or a click on the word: flip the rotation, nothing else. */
  function ToggleRotation(s: NavState): (t: NavState)
    ensures t.rotated != s.rotated
    ensures t.activeTab == s.activeTab && t.wordIndex == s.wordIndex
  {
    s.(rotated := !s.rotated)
  }

  /** A tab click: show that tab's list from its first word; rotation is kept. */
  function SelectTab(s: NavState, tab: Tab): (t: NavState)
    ensures t.activeTab == tab && t.wordIndex == 0 && t.rotated == s.rotated
  {
    s.(wordIndex := 0, activeTab := tab)
  }

  /** The keydown handler; `n` is the length of the list under the active tab. */
  function HandleKeyDown(s: NavState, key: string, n: int): (t: NavState)
    ensures t.activeTab == s.activeTab
    ensures t.rotated == if key == SpaceKey then !s.rotated else s.rotated
    ensures key != ArrowLeftKey && key != ArrowRightKey ==> t.wordIndex == s.wordIndex
    ensures 0 <= s.wordIndex < n && key == ArrowRightKey ==> t.wordIndex == (s.wordIndex + 1) % n
    ensures 0 <= s.wordIndex < n && key == ArrowLeftKey ==> t.wordIndex == (s.wordIndex - 1 + n) % n
  {
    if key == ArrowLeftKey then
      s.(wordIndex := PreviousIndex(s.wordIndex, n))
    else if key == ArrowRightKey then
      s.(wordIndex := NextIndex(s.wordIndex, n))
    else if key == SpaceKey then
      ToggleRotation(s)
    else
      s
  }

  /** One event applied to the state. */
  function Step(lists: WordLists, s: NavState, e: Event): (t: NavState)
    ensures t.activeTab == if e.TabClick? then e.tab else s.activeTab
    ensures e.TabClick? ==> t.wordIndex == 0 && t.rotated == s.rotated
    ensures e.WordClick? ==> t.wordIndex == s.wordIndex
    ensures t.rotated != s.rotated <==> e.WordClick? || e == KeyDown(SpaceKey)
    ensures e.KeyDown? && InBounds(lists, s) ==> InBounds(lists, t)
  {
    match e
    case KeyDown(key) => HandleKeyDown(s, key, |ActiveWords(lists, s.activeTab)|)
    case TabClick(tab) => SelectTab(s, tab)
    case WordClick => ToggleRotation(s)
  }

  /** A sequence of events applied in order. */
  function Run(lists: WordLists, s: NavState, events: seq<Event>): NavState
    decreases |events|
  {
    if |events| == 0 then s else Run(lists, Step(lists, s, events[0]), events[1..])
  }

  // -------------------------------------------------------------------------
  // The shown word
  // -------------------------------------------------------------------------

  /** The index points into the list under the active tab. */
  predicate InBounds(lists: WordLists, s: NavState) {
    0 <= s.wordIndex < |ActiveWords(lists, s.activeTab)|
  }

  /** `words[wordIndex]`: the shown word, or None where JavaScript yields `undefined`. */
  function CurrentWord(lists: WordLists, s: NavState): (r: Option<Words.Word>)
    ensures r.Some? <==> InBounds(lists, s)
    ensures r.Some? ==> r.value == ActiveWords(lists, s.activeTab)[s.wordIndex]
  {
    var words := ActiveWords(lists, s.activeTab);
    if 0 <= s.wordIndex < |words| then Some(words[s.wordIndex]) else None
  }

  // -------------------------------------------------------------------------
  // Properties of the transitions
  // -------------------------------------------------------------------------

  /** ArrowLeft undoes ArrowRight, and ArrowRight undoes ArrowLeft, on in-range indices. */
  lemma PreviousNextInverse(i: int, n: int)
    requires 0 <= i < n
    ensures PreviousIndex(NextIndex(i, n), n) == i
    ensures NextIndex(PreviousIndex(i, n), n) == i
  {
  }

  /** ArrowRight pressed `k` times. */
  function NextIndexTimes(i: int, n: int, k: nat): int
    decreases k
  {
    if k == 0 then i else NextIndex(NextIndexTimes(i, n, k - 1), n)
  }

  /** ArrowLeft pressed `k` times. */
  function PreviousIndexTimes(i: int, n: int, k: nat): int
    decreases k
  {
    if k == 0 then i else PreviousIndex(PreviousIndexTimes(i, n, k - 1), n)
  }

  /** Within one cycle, `k` presses of ArrowRight advance the index by `k`, wrapping once past the end. */
  lemma {:induction false} NextIndexTimesWithinCycle(i: int, n: int, k: nat)
    requires 0 <= i < n && k <= n
    ensures NextIndexTimes(i, n, k) == if i + k < n then i + k else i + k - n
  {
    if k > 0 {
      NextIndexTimesWithinCycle(i, n, k - 1);
    }
  }

  /** Within one cycle, `k` presses of ArrowLeft move the index back by `k`, wrapping once past the start. */
  lemma {:induction false} PreviousIndexTimesWithinCycle(i: int, n: int, k: nat)
    requires 0 <= i < n && k <= n
    ensures PreviousIndexTimes(i, n, k) == if k <= i then i - k else i - k + n
  {
    if k > 0 {
      PreviousIndexTimesWithinCycle(i, n, k - 1);
    }
  }

  /** Pressing ArrowRight `a` then `b` times is pressing it `a + b` times. */
  lemma {:induction false} NextIndexTimesCompose(i: int, n: int, a: nat, b: nat)
    ensures NextIndexTimes(i, n, a + b) == NextIndexTimes(NextIndexTimes(i, n, a), n, b)
    decreases b
  {
    if b > 0 {
      NextIndexTimesCompose(i, n, a, b - 1);
    }
  }

  /**
   The cycle of ArrowRight has length exactly `n`: `n` presses show the
   starting word again, fewer do not, and ArrowLeft cycles back likewise.
   */
  lemma FullCycleReturns(i: int, n: int)
    requires 0 <= i < n
    ensures NextIndexTimes(i, n, n) == i
    ensures PreviousIndexTimes(i, n, n) == i
    ensures forall k :: 0 < k < n ==> NextIndexTimes(i, n, k) != i
  {
    NextIndexTimesWithinCycle(i, n, n);
    PreviousIndexTimesWithinCycle(i, n, n);
    forall k | 0 < k < n ensures NextIndexTimes(i, n, k) != i {
      NextIndexTimesWithinCycle(i, n, k);
    }
  }

  /** The index after `k` presses of ArrowRight depends on `k` only modulo `n`. */
  lemma NextIndexTimesPeriodic(i: int, n: int, k: nat)
    requires 0 <= i < n
    ensures NextIndexTimes(i, n, n + k) == NextIndexTimes(i, n, k)
  {
    NextIndexTimesCompose(i, n, n, k);
    FullCycleReturns(i, n);
  }

  /** Two rotations restore the state. */
  lemma ToggleInvolution(s: NavState)
    ensures ToggleRotation(ToggleRotation(s)) == s
  {
  }

  /** One event keeps the index in range, provided a clicked tab's list is not empty. */
  lemma StepKeepsInBounds(lists: WordLists, s: NavState, e: Event)
    requires InBounds(lists, s)
    requires e.TabClick? ==> |ActiveWords(lists, e.tab)| > 0
    ensures InBounds(lists, Step(lists, s, e))
    ensures Step(lists, s, e).activeTab == if e.TabClick? then e.tab else s.activeTab
  {
  }

  /** No event of the sequence clicks a tab whose list is empty. */
  predicate ClicksOnlyNonEmptyTabs(lists: WordLists, events: seq<Event>) {
    forall i :: 0 <= i < |events| && events[i].TabClick? ==> |ActiveWords(lists, events[i].tab)| > 0
  }

  /** With an empty emordnilap list and a non-empty palindrome list, only a click on the Emordnilaps tab is a click on an empty tab. */
  lemma EmptyListClicks(lists: WordLists, events: seq<Event>)
    requires |lists.palindromes| > 0 && |lists.emordnilaps| == 0
    ensures ClicksOnlyNonEmptyTabs(lists, events) <==>
            forall i :: 0 <= i < |events| ==> events[i] != TabClick(Emordnilaps)
  {
  }

  /**
   Any sequence of events keeps the index in range, provided no event clicks
   a tab whose list is empty; key presses and clicks on the word may come in
   any number and order.
   */
  lemma {:induction false} RunKeepsInBounds(lists: WordLists, s: NavState, events: seq<Event>)
    requires InBounds(lists, s)
    requires ClicksOnlyNonEmptyTabs(lists, events)
    ensures InBounds(lists, Run(lists, s, events))
    ensures CurrentWord(lists, Run(lists, s, events)).Some?
    decreases |events|
  {
    if |events| > 0 {
      StepKeepsInBounds(lists, s, events[0]);
      forall i | 0 <= i < |events[1..]| && events[1..][i].TabClick?
        ensures |ActiveWords(lists, events[1..][i].tab)| > 0
      {
        assert events[1..][i] == events[i + 1];
      }
      RunKeepsInBounds(lists, Step(lists, s, events[0]), events[1..]);
    }
  }

  /** With both lists non-empty, every sequence of events keeps the index in range. */
  lemma {:induction false} BothListsNonEmptyKeepInBounds(lists: WordLists, s: NavState, events: seq<Event>)
    requires InBounds(lists, s)
    requires |lists.palindromes| > 0 && |lists.emordnilaps| > 0
    ensures InBounds(lists, Run(lists, s, events))
  {
    assert ClicksOnlyNonEmptyTabs(lists, events);
    RunKeepsInBounds(lists, s, events);
  }

  /** Arrow keys alone keep the index in range in a non-empty list, with no tab clicked at all. */
  lemma {:induction false} ArrowsKeepInBounds(lists: WordLists, s: NavState, events: seq<Event>)
    requires InBounds(lists, s)
    requires forall i :: 0 <= i < |events| ==> events[i] == KeyDown(ArrowLeftKey) || events[i] == KeyDown(ArrowRightKey)
    ensures InBounds(lists, Run(lists, s, events))
    ensures Run(lists, s, events).activeTab == s.activeTab
    decreases |events|
  {
    if |events| > 0 {
      forall i | 0 <= i < |events[1..]|
        ensures events[1..][i] == KeyDown(ArrowLeftKey) || events[1..][i] == KeyDown(ArrowRightKey)
      {
        assert events[1..][i] == events[i + 1];
      }
      ArrowsKeepInBounds(lists, Step(lists, s, events[0]), events[1..]);
    }
  }

  /** Two palindromes under the first tab: ArrowRight shows the second, a second press wraps to the first. */
  lemma WrapAroundExample()
    ensures var lists := WordLists(["level", "radar"], []);
            && CurrentWord(lists, Run(lists, Initial, [KeyDown(ArrowRightKey)])) == Some("radar")
            && CurrentWord(lists, Run(lists, Initial, [KeyDown(ArrowRightKey), KeyDown(ArrowRightKey)])) == Some("level")
  {
    var lists := WordLists(["level", "radar"], []);
    var right := KeyDown(ArrowRightKey);
    var once := Step(lists, Initial, right);
    assert once.wordIndex == 1;
    assert [right, right][1..] == [right];
    assert Run(lists, Initial, [right, right]) == Run(lists, once, [right]);
  }
}
