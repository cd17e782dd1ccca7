# Palindrome: word classifier and navigation model

A Dafny model of the two pieces of logic in the palindrome repository.

- **Word-list classifier** (`packages/data/words/main.py`). It takes a raw list of dictionary words and builds three lists:
  - the valid words: longer than one character, letters only;
  - the palindromes among the valid words;
  - the emordnilaps among the valid words. An emordnilap is a word whose reversal is a different word of the raw list.

  Module `Words` (`words.dfy`) models the three predicates and the three order-preserving list comprehensions. It proves:
  - each output is a subsequence of its input;
  - each output keeps exactly the qualifying words of the raw list, each as many times as it occurs there;
  - palindromes and emordnilaps are disjoint;
  - the emordnilap list is closed under reversal.
- **Navigation state machine** (`packages/app/src/pages/index.tsx`). The page state is the active tab, the index of the shown word and the rotation flag.
  - Module `Navigation` (`navigation.dfy`) models the keydown handler, the tab clicks, the click on the word and the `'ekitike'` prepend. It proves that the index stays in range, that ArrowLeft and ArrowRight are inverses, that the ArrowRight cycle has length exactly `n`, and that the rotation toggle is an involution.
  - Module `Tiles` (`tiles.dfy`) models the integer layout arithmetic (`letters`, `centerIndex`, `totalWidth`). It also models the order in which the letters read once the row is rotated about its middle: reversed. This is why a rotated palindrome reads the same, and a rotated emordnilap reads as another listed word.
  - Module `Page` (`page.dfy`) models the page as a whole. Every event updates the state, then the page renders again. A render that throws tears the page down, and a torn-down page handles no further events.
- Module `Wrappers` (`wrappers.dfy`) holds the `Option` type. It stands for JavaScript's `undefined` when `words[wordIndex]` is read out of range.

Each event is one atomic, pure transition `Step(lists, state, event)`. A run of events is `Run`.

Notes on the code's behaviour:
- The code never checks that a word list is non-empty.
  - The palindrome list cannot be empty, because `'ekitike'` is prepended to it at line 6. The model keeps this prepend for that reason.
  - The emordnilap list can be empty. Then a click on the Emordnilaps tab sets the index to 0 and `words[0]` is `undefined` (line 19). `word.split('')` at line 21 then throws during render, and the page is torn down. `Page.EmptyEmordnilapTabCrashesPage` states this case. `Page.PageCrashesIffEmptyTabClicked` gives the exact condition: the page tears down iff some event clicks a tab whose list is empty. So the page stays live when the emordnilap list is empty, as long as the Emordnilaps tab is never clicked.
- ArrowRight and ArrowLeft compare the index with the ends of the list rather than using a remainder. On in-range indices they equal `(i + 1) mod n` and `(i - 1 + n) mod n`, which `Navigation.NextIndex` and `Navigation.PreviousIndex` state. Outside the range the comparisons are modelled as written: ArrowLeft with an empty list yields `-1`.

## Model

| member | source | states |
|---|---|---|
| Words.Filter | packages/data/words/main.py:81-88 | A list comprehension's result is no longer than its input and is a subsequence of it. Every element meets the condition. An element is in it iff it is in the input and meets the condition. |
| Words.FilterKeepsCounts | packages/data/words/main.py:81-88 | A list comprehension keeps each element that meets the condition as many times as it occurs in the input, and drops every other element. |
| Words.SubsequenceTransitive | packages/data/words/main.py:81-88 | A filter of a filter is a subsequence of the original list. |
| Words.FilterFusion | packages/data/words/main.py:81-84 | Filtering by `p` then by `q` equals filtering once by `p and q`. |
| Words.Reverse | packages/data/words/main.py:66 | `w[::-1]` has the same length as `w`, and position `i` holds `w[len-1-i]`. |
| Words.ReverseInvolution | packages/data/words/main.py:64-66 | Reversing twice gives back the word. |
| Words.ValidWordCharacterization | packages/data/words/main.py:59-61 | A word is valid iff it has at least two characters and all of them are letters. So the empty word and one-letter words are rejected. |
| Words.PalindromeCharacterization | packages/data/words/main.py:64-66 | A word equals its reversal iff each character equals its mirror character. |
| Words.EmordnilapCharacterization | packages/data/words/main.py:69-72 | A word is an emordnilap iff its reversal is in the word set and the word is not a palindrome. |
| Words.PalindromeNotEmordnilap | packages/data/words/main.py:64-72 | No word is both a palindrome and an emordnilap, for any word set. |
| Words.ValidityReversalInvariant | packages/data/words/main.py:59-61 | A word is valid iff its reversal is valid. |
| Words.WordSet | packages/data/words/main.py:79 | `set(words)` holds exactly the words of the raw list, and has no more elements than the list has entries. |
| Words.FilteredWords | packages/data/words/main.py:81 | The valid-word list is an order-preserving subsequence of the raw list, no longer than it. Each valid word keeps its count and each invalid word has count zero. |
| Words.PalindromeWords | packages/data/words/main.py:84 | The palindrome list is a subsequence of the valid list. Each element is valid and equals its reversal. A word is in it iff it is a valid palindrome of the raw list. |
| Words.EmordnilapWords | packages/data/words/main.py:79-88 | The emordnilap list is a subsequence of the valid list. Each element is valid, its reversal is in the raw list, and it differs from its reversal. |
| Words.PalindromeWordsKeepCounts | packages/data/words/main.py:81-84 | Each valid palindrome occurs in the palindrome list as often as in the raw list. Every other word occurs zero times. |
| Words.EmordnilapWordsKeepCounts | packages/data/words/main.py:79-88 | Each valid emordnilap occurs in the emordnilap list as often as in the raw list. Every other word occurs zero times. |
| Words.PalindromeWordsOfRawList | packages/data/words/main.py:81-84 | The palindrome list is one filter of the raw list by "valid and palindrome", so it is a subsequence of the raw list. |
| Words.EmordnilapWordsOfRawList | packages/data/words/main.py:81-88 | The emordnilap list is a subsequence of the raw list. |
| Words.ClassifiedListsDisjoint | packages/data/words/main.py:84-88 | No word is in both the palindrome list and the emordnilap list. |
| Words.EmordnilapsClosedUnderReversal | packages/data/words/main.py:69-88 | If a word is in the emordnilap list, so is its reversal. |
| Navigation.PrependExtra | packages/app/src/pages/index.tsx:6 | The prepend makes the list one longer, puts `'ekitike'` first and shifts the old elements by one. |
| Navigation.LoadLists | packages/app/src/pages/index.tsx:1-6 | After loading, the palindrome list is non-empty and ends with the file's list. The emordnilap list is the file's list unchanged. |
| Navigation.ExtraIsValidPalindrome | packages/app/src/pages/index.tsx:6 | `'ekitike'` is a valid word and a palindrome. |
| Navigation.LoadedPalindromesArePalindromes | packages/app/src/pages/index.tsx:2-6 | If the palindrome file is the classifier's output, every word of the page's palindrome list is a valid palindrome. |
| Navigation.PreviousIndex | packages/app/src/pages/index.tsx:34-38 | ArrowLeft maps `i > 0` to `i-1` and `i <= 0` to `n-1`. On `[0, n)` it stays in `[0, n)` and equals `(i - 1 + n) mod n`. |
| Navigation.NextIndex | packages/app/src/pages/index.tsx:39-43 | ArrowRight maps `i < n-1` to `i+1` and `i >= n-1` to `0`. On `[0, n)` it stays in `[0, n)` and equals `(i + 1) mod n`. |
| Navigation.ToggleRotation | packages/app/src/pages/index.tsx:44-47 | Space flips `rotated` and leaves the tab and the index alone. |
| Navigation.SelectTab | packages/app/src/pages/index.tsx:73-88 | A tab click sets that tab active and the index to 0. It leaves `rotated` unchanged. |
| Navigation.HandleKeyDown | packages/app/src/pages/index.tsx:32-50 | A key never changes the tab. Only Space flips the rotation. Only the two arrows move the index: on an in-range index, ArrowRight gives `(i + 1) mod n` and ArrowLeft gives `(i - 1 + n) mod n`. Any other key leaves the state unchanged. |
| Navigation.Step | packages/app/src/pages/index.tsx:32-96 | Only a tab click changes the tab, and it resets the index to 0 and keeps the rotation. A word click keeps the index. The rotation flips exactly on a word click or Space. A key press keeps an in-range index in range. |
| Navigation.CurrentWord | packages/app/src/pages/index.tsx:16-19 | A word is shown iff the index is in range for the active list. The shown word is the word at the index of that list. |
| Navigation.PreviousNextInverse | packages/app/src/pages/index.tsx:34-43 | On in-range indices, Right then Left returns to the start, and so does Left then Right. |
| Navigation.NextIndexTimesWithinCycle | packages/app/src/pages/index.tsx:39-43 | Within one cycle, `k` ArrowRight presses land on `i+k`, or on `i+k-n` once past the end. |
| Navigation.PreviousIndexTimesWithinCycle | packages/app/src/pages/index.tsx:34-38 | Within one cycle, `k` ArrowLeft presses land on `i-k`, or on `i-k+n` once past the start. |
| Navigation.NextIndexTimesCompose | packages/app/src/pages/index.tsx:39-43 | `a` presses of ArrowRight followed by `b` presses equal `a+b` presses. |
| Navigation.FullCycleReturns | packages/app/src/pages/index.tsx:34-43 | `n` ArrowRight presses return to the start, and so do `n` ArrowLeft presses. No smaller positive number of ArrowRight presses does. |
| Navigation.NextIndexTimesPeriodic | packages/app/src/pages/index.tsx:39-43 | `n+k` ArrowRight presses land where `k` presses do. |
| Navigation.ToggleInvolution | packages/app/src/pages/index.tsx:44-47 | Two toggles restore the state. |
| Navigation.StepKeepsInBounds | packages/app/src/pages/index.tsx:32-88 | Any single event keeps the index in range, provided a clicked tab's list is non-empty. Only a tab click changes the active tab. |
| Navigation.RunKeepsInBounds | packages/app/src/pages/index.tsx:16-88 | From an in-range state, every sequence of events that never clicks a tab with an empty list keeps the index in range, and a word is shown. |
| Navigation.BothListsNonEmptyKeepInBounds | packages/app/src/pages/index.tsx:16-88 | With both lists non-empty, every sequence of events keeps the index in range. |
| Navigation.ArrowsKeepInBounds | packages/app/src/pages/index.tsx:32-43 | From an in-range index, any sequence of ArrowLeft and ArrowRight presses keeps the index in range and the tab unchanged. |
| Navigation.WrapAroundExample | packages/app/src/pages/index.tsx:39-43 | With `["level", "radar"]`, one ArrowRight shows `"radar"` and a second wraps back to `"level"`. |
| Tiles.TileLayout | packages/app/src/pages/index.tsx:21-27 | `letters` is the word. `centerIndex` is the floor of half the length and lies in `[0, n)` for `n >= 1`. `totalWidth` is `5n - 1`. |
| Tiles.RotationMirrorsTiles | packages/app/src/pages/index.tsx:27-29 | Mirroring about half the total width takes the middle of tile `k` to the middle of tile `n-1-k`. |
| Tiles.CenterTileStaysUnderRotation | packages/app/src/pages/index.tsx:22 | On odd-length words the highlighted centre tile is its own mirror. |
| Tiles.ShownLetters | packages/app/src/pages/index.tsx:92-106 | Unrotated, position `j` shows letter `j`. Rotated, it shows letter `n-1-j`. |
| Tiles.RotatedPalindromeReadsSame | packages/app/src/pages/index.tsx:92-106 | A rotated palindrome reads as itself. |
| Tiles.RotatedEmordnilapReadsAnotherWord | packages/app/src/pages/index.tsx:92-106 | A rotated emordnilap reads as a different word that is in the raw list and in the emordnilap list. |
| Tiles.Screen | packages/app/src/pages/index.tsx:16-21 | Rendering crashes exactly when the index is out of range for the active list. Otherwise the row shows the current word, read reversed when rotated. |
| Tiles.DoubleToggleRestoresScreen | packages/app/src/pages/index.tsx:96 | Two clicks on the word show the same letters again. |
| Tiles.RotationInvisibleOnPalindromes | packages/app/src/pages/index.tsx:93-103 | On the palindrome tab of a page loaded from the classifier's output, toggling rotation does not change what is read. |
| Page.Show | packages/app/src/pages/index.tsx:16-21 | Rendering a state keeps the page live with that state exactly when the index is in range. Otherwise the render throws and the page is torn down. |
| Page.Mount | packages/app/src/pages/index.tsx:6-21 | The first render succeeds exactly when the palindrome list is non-empty. |
| Page.Dispatch | packages/app/src/pages/index.tsx:16-96 | A torn-down page stays torn down. A live page takes the state machine's step and stays live exactly when the new index is in range. |
| Page.TornDownIsFinal | packages/app/src/pages/index.tsx:19-21 | Once the page is torn down, no sequence of events brings it back. |
| Page.LivePageFollowsRun | packages/app/src/pages/index.tsx:16-96 | If no event clicks a tab with an empty list, the page stays live and shows the state machine's final state. |
| Page.PageCrashesIffEmptyTabClicked | packages/app/src/pages/index.tsx:16-96 | From a live page, a sequence of events tears the page down iff one of its events clicks a tab whose list is empty. |
| Page.PageAlwaysShowsAWord | packages/app/src/pages/index.tsx:6-21 | The loaded page, mounted and driven by any events, stays live as long as the emordnilap file is non-empty. |
| Page.EmptyEmordnilapPageLivesIffTabNeverClicked | packages/app/src/pages/index.tsx:6-85 | With an empty emordnilap file, the mounted page stays live iff no event clicks the Emordnilaps tab. |
| Page.EmptyEmordnilapTabCrashesPage | packages/app/src/pages/index.tsx:16-21 | With an empty emordnilap file, a click on the Emordnilaps tab makes the render throw, and the page stays torn down through any later events. |

## Left out

- The HTTP request, status check, JSON decoding, logging and file writes of `main.py` (lines 1-53 and 91-112). These are I/O against a foreign service. The raw word list is a parameter instead.
- Words.IsLetter: models Python's `str.isalpha` with ASCII letters only. The Unicode letter categories and non-BMP code points are not modelled. All properties of the classifier hold for any letter class decided character by character. `Navigation.ExtraIsValidPalindrome`, and the lemmas built on it, also use the fact that 'e', 'k', 'i' and 't' are ASCII letters.
- Tiles.TileLayout: `split('')` splits into UTF-16 code units. The model treats a word as its sequence of characters.
- JSX, CSS class strings and the fractional `transformOrigin` string. Tiles uses doubled integer positions for the middle of the row instead.
- Registering and removing the keydown listener (`addEventListener`, `useCallback`, `useEffect`). This includes the listener being added on every render, which may run several handlers for one key press.
- React's error handling: a render that throws is modelled as a page that reacts to nothing more. Error reporting and recovery by reloading are not modelled.
- Stale closures and React's batching of `setState` calls. Each handler is one atomic transition on the current state. The keydown handler is given the length of the active list.
