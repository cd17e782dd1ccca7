/**
 The home page as a whole (packages/app/src/pages/index.tsx): every event
 updates the navigation state and the page renders again. A render that
 throws tears the page down, and a torn-down page reacts to nothing.
 */
module Page {
  import Words
  import Navigation
  import Tiles

  /** A mounted page showing a state, or one whose render has thrown. */
  datatype PageState = Live(state: Navigation.NavState) | TornDown

  /** Render a state: keep it when it draws, tear the page down when it throws. */
  function Show(lists: Navigation.WordLists, s: Navigation.NavState): (p: PageState)
    ensures p.Live? <==> Navigation.InBounds(lists, s)
    ensures p.Live? ==> p.state == s
  {
    match Tiles.Screen(lists, s)
    case Row(_) => Live(s)
    case Crashed => TornDown
  }

  /** The page as first rendered. */
  function Mount(lists: Navigation.WordLists): (p: PageState)
    ensures p.Live? <==> |lists.palindromes| > 0
  {
    Show(lists, Navigation.Initial)
  }

  /** One event: update the state, then render it. */
  function Dispatch(lists: Navigation.WordLists, p: PageState, e: Navigation.Event): (q: PageState)
    ensures p.TornDown? ==> q.TornDown?
    ensures p.Live? ==> (q.Live? <==> Navigation.InBounds(lists, Navigation.Step(lists, p.state, e)))
    ensures q.Live? ==> q.state == Navigation.Step(lists, p.state, e)
  {
    match p
    case TornDown => TornDown
    case Live(s) => Show(lists, Navigation.Step(lists, s, e))
  }

  /** A sequence of events dispatched in order. */
  function RunPage(lists: Navigation.WordLists, p: PageState, events: seq<Navigation.Event>): PageState
    decreases |events|
  {
    if |events| == 0 then p else RunPage(lists, Dispatch(lists, p, events[0]), events[1..])
  }

  /** Once torn down, the page stays torn down whatever happens next. */
  lemma {:induction false} TornDownIsFinal(lists: Navigation.WordLists, events: seq<Navigation.Event>)
    ensures RunPage(lists, TornDown, events) == TornDown
    decreases |events|
  {
    if |events| > 0 {
      TornDownIsFinal(lists, events[1..]);
    }
  }

  /**
   As long as no event clicks a tab whose list is empty, the page never
   tears down and follows the state machine.
   */
  lemma {:induction false} LivePageFollowsRun(lists: Navigation.WordLists, s: Navigation.NavState, events: seq<Navigation.Event>)
    requires Navigation.InBounds(lists, s)
    requires Navigation.ClicksOnlyNonEmptyTabs(lists, events)
    ensures RunPage(lists, Live(s), events) == Live(Navigation.Run(lists, s, events))
    decreases |events|
  {
    if |events| > 0 {
      Navigation.StepKeepsInBounds(lists, s, events[0]);
      assert Navigation.ClicksOnlyNonEmptyTabs(lists, events[1..]) by {
        forall i | 0 <= i < |events[1..]| && events[1..][i].TabClick?
          ensures |Navigation.ActiveWords(lists, events[1..][i].tab)| > 0
        {
          assert events[1..][i] == events[i + 1];
        }
      }
      LivePageFollowsRun(lists, Navigation.Step(lists, s, events[0]), events[1..]);
    }
  }

  /**
   From a live page, a sequence of events tears the page down exactly when
   one of them clicks a tab whose list is empty.
   */
  lemma {:induction false} PageCrashesIffEmptyTabClicked(lists: Navigation.WordLists, s: Navigation.NavState, events: seq<Navigation.Event>)
    requires Navigation.InBounds(lists, s)
    ensures RunPage(lists, Live(s), events).TornDown? <==> !Navigation.ClicksOnlyNonEmptyTabs(lists, events)
    decreases |events|
  {
    if Navigation.ClicksOnlyNonEmptyTabs(lists, events) {
      LivePageFollowsRun(lists, s, events);
    } else {
      var e := events[0];
      if e.TabClick? && |Navigation.ActiveWords(lists, e.tab)| == 0 {
        assert Dispatch(lists, Live(s), e) == TornDown;
        TornDownIsFinal(lists, events[1..]);
      } else {
        Navigation.StepKeepsInBounds(lists, s, e);
        assert !Navigation.ClicksOnlyNonEmptyTabs(lists, events[1..]) by {
          var i :| 0 <= i < |events| && events[i].TabClick? && |Navigation.ActiveWords(lists, events[i].tab)| == 0;
          assert events[1..][i - 1] == events[i];
        }
        PageCrashesIffEmptyTabClicked(lists, Navigation.Step(lists, s, e), events[1..]);
      }
    }
  }

  /**
   The loaded page, mounted and then driven by any events, always shows a
   word, as long as the emordnilap file is not empty (the palindrome list
   never is).
   */
  lemma PageAlwaysShowsAWord(palindromeFile: seq<Words.Word>, emordnilapFile: seq<Words.Word>, events: seq<Navigation.Event>)
    requires |emordnilapFile| > 0
    ensures var lists := Navigation.LoadLists(palindromeFile, emordnilapFile);
            RunPage(lists, Mount(lists), events).Live?
  {
    var lists := Navigation.LoadLists(palindromeFile, emordnilapFile);
    assert Navigation.ClicksOnlyNonEmptyTabs(lists, events);
    LivePageFollowsRun(lists, Navigation.Initial, events);
  }

  /**
   With an empty emordnilap file, the mounted page stays live exactly as long
   as no event clicks the Emordnilaps tab.
   */
  lemma {:induction false} EmptyEmordnilapPageLivesIffTabNeverClicked(palindromeFile: seq<Words.Word>, events: seq<Navigation.Event>)
    ensures var lists := Navigation.LoadLists(palindromeFile, []);
            RunPage(lists, Mount(lists), events).Live? <==>
            forall i :: 0 <= i < |events| ==> events[i] != Navigation.TabClick(Navigation.Emordnilaps)
  {
    var lists := Navigation.LoadLists(palindromeFile, []);
    assert Mount(lists) == Live(Navigation.Initial);
    Navigation.EmptyListClicks(lists, events);
    PageCrashesIffEmptyTabClicked(lists, Navigation.Initial, events);
  }

  /**
   With an empty emordnilap file, clicking the Emordnilaps tab makes the
   render throw, and the page handles no event after that.
   */
  lemma EmptyEmordnilapTabCrashesPage(palindromeFile: seq<Words.Word>, s: Navigation.NavState, events: seq<Navigation.Event>)
    ensures var lists := Navigation.LoadLists(palindromeFile, []);
            && Dispatch(lists, Live(s), Navigation.TabClick(Navigation.Emordnilaps)) == TornDown
            && RunPage(lists, Live(s), [Navigation.TabClick(Navigation.Emordnilaps)] + events) == TornDown
  {
    var lists := Navigation.LoadLists(palindromeFile, []);
    var click := Navigation.TabClick(Navigation.Emordnilaps);
    assert ([click] + events)[1..] == events;
    TornDownIsFinal(lists, events);
  }
}
