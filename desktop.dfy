/**
 * Finding top-level windows among the root's children: the first window
 * passing a test, a test repeated over polls (`wait_sns_window`,
 * `_find_sns_window`), the exact-then-fuzzy main window search of the demo
 * scripts and the scored main window search of the probe scripts, and the
 * fallback of `click_tab_moments`.
 */
module Desktop {
  import opened Text
  import opened UiTree

  const MainWindowClass := "mmui::MainWindow"
  const SnsWindowClass := "mmui::SNSWindow"
  const SnsWindowAid := "SNSWindow"
  const WeChatTitle := "微信"
  const WeChatLatin := "WeChat"
  const MomentsTitle := "朋友圈"

  /** Index of the first of `ws` that passes `test`. */
  function FirstMatch<A>(t: Tree, test: (Tree, A, nat) -> bool, arg: A, ws: seq<nat>): (r: Option<nat>)
    ensures r.Some? ==> r.value < |ws| && test(t, arg, ws[r.value])
                        && forall j :: 0 <= j < r.value ==> !test(t, arg, ws[j])
    ensures r.None? ==> forall j :: 0 <= j < |ws| ==> !test(t, arg, ws[j])
  {
    if ws == [] then None
    else if test(t, arg, ws[0]) then Some(0)
    else
      match FirstMatch(t, test, arg, ws[1..])
      case None => None
      case Some(i) => Some(i + 1)
  }

  /** `for w in ws: if test(w): return w` */
  method FindWindow<A>(t: Tree, test: (Tree, A, nat) -> bool, arg: A, ws: seq<nat>) returns (r: Option<nat>)
    ensures r.Some? <==> FirstMatch(t, test, arg, ws).Some?
    ensures r.Some? ==> r.value == ws[FirstMatch(t, test, arg, ws).value]
  {
    var i := 0;
    while i < |ws|
      invariant i <= |ws|
      invariant forall j :: 0 <= j < i ==> !test(t, arg, ws[j])
    {
      if test(t, arg, ws[i]) {
        return Some(ws[i]);
      }
      i := i + 1;
    }
    return None;
  }

  /** The window a test picks on one screen. */
  function Pick<A>(s: Screen, test: (Tree, A, nat) -> bool, arg: A): Option<nat> {
    match FirstMatch(s.tree, test, arg, s.windows)
    case None => None
    case Some(i) => Some(s.windows[i])
  }

  /** The window picked on the first poll that has one; None when the polls run out. */
  function FirstPoll<A>(polls: seq<Screen>, test: (Tree, A, nat) -> bool, arg: A): (r: Option<nat>)
    ensures r.None? <==> forall i :: 0 <= i < |polls| ==> Pick(polls[i], test, arg).None?
    ensures r.Some? ==> exists i :: 0 <= i < |polls| && Pick(polls[i], test, arg) == r
                                    && forall j :: 0 <= j < i ==> Pick(polls[j], test, arg).None?
  {
    if polls == [] then None
    else if Pick(polls[0], test, arg).Some? then Pick(polls[0], test, arg)
    else
      var r := FirstPoll(polls[1..], test, arg);
      assert forall i :: 1 <= i < |polls| ==> polls[i] == polls[1..][i - 1];
      r
  }

  /** A polling loop: test the root's children on each poll until one passes. */
  method WaitWindow<A>(polls: seq<Screen>, test: (Tree, A, nat) -> bool, arg: A) returns (r: Option<nat>)
    ensures r == FirstPoll(polls, test, arg)
  {
    var i := 0;
    while i < |polls|
      invariant i <= |polls|
      invariant FirstPoll(polls[i..], test, arg) == FirstPoll(polls, test, arg)
    {
      assert polls[i..][1..] == polls[i + 1..];
      r := FindWindow(polls[i].tree, test, arg, polls[i].windows);
      if r.Some? {
        return;
      }
      i := i + 1;
    }
    return None;
  }

  /** The moments window: a window whose class, automation id or title says so. */
  predicate IsSnsWindow(t: Tree, title: string, w: nat) {
    KindOf(t, w) == WindowControl
    && (ClassOf(t, w) == SnsWindowClass || AidOf(t, w) == SnsWindowAid || NameOf(t, w) == title)
  }

  /** A window of the main class titled 微信. */
  predicate IsExactMain(t: Tree, u: (), w: nat) {
    KindOf(t, w) == WindowControl && ClassOf(t, w) == MainWindowClass && NameOf(t, w) == WeChatTitle
  }

  /** A window whose title contains 微信 or WeChat. */
  predicate IsFuzzyMain(t: Tree, u: (), w: nat) {
    KindOf(t, w) == WindowControl && (Contains(NameOf(t, w), WeChatTitle) || Contains(NameOf(t, w), WeChatLatin))
  }

  /**
   * `find_wechat_main` of the demo scripts: an exact main window first, then,
   * when `fuzzy`, the first window whose title mentions WeChat.
   */
  method FindMainExact(s: Screen, fuzzy: bool) returns (r: Option<nat>)
    ensures Pick(s, IsExactMain, ()).Some? ==> r == Pick(s, IsExactMain, ())
    ensures Pick(s, IsExactMain, ()).None? ==> r == if fuzzy then Pick(s, IsFuzzyMain, ()) else None
  {
    r := FindWindow(s.tree, IsExactMain, (), s.windows);
    if r.None? && fuzzy {
      r := FindWindow(s.tree, IsFuzzyMain, (), s.windows);
    }
  }

  /** The additive score of a main window candidate: +10 for the main class, +5 for the title 微信, +3 for a title containing WeChat. */
  function MainScore(t: Tree, w: nat): (score: nat)
    ensures score <= 18
    ensures ClassOf(t, w) == MainWindowClass ==> score >= 10
  {
    (if ClassOf(t, w) == MainWindowClass then 10 else 0)
    + (if NameOf(t, w) == WeChatTitle then 5 else 0)
    + (if Contains(NameOf(t, w), WeChatLatin) then 3 else 0)
  }

  /** A candidate for the scored search; `windowsOnly` is the control-type check one copy makes and the other does not. */
  predicate Candidate(t: Tree, windowsOnly: bool, w: nat) {
    (!windowsOnly || KindOf(t, w) == WindowControl)
    && (ClassOf(t, w) == MainWindowClass || NameOf(t, w) == WeChatTitle || Contains(NameOf(t, w), WeChatLatin))
  }

  /**
   * The `best` / `best_score` pair after the items `xs`: a candidate
   * replaces the best one only with a strictly higher score; the score
   * starts at -1 and scores are not negative.
   */
  function BestOf<T>(xs: seq<T>, cand: T -> bool, score: T -> nat): (r: (Option<nat>, int))
    ensures r.0.None? <==> r.1 == -1
    ensures r.0.Some? ==> r.0.value < |xs| && r.1 == score(xs[r.0.value]) && cand(xs[r.0.value])
  {
    if xs == [] then (None, -1)
    else
      var prev := BestOf(xs[..|xs| - 1], cand, score);
      var x := xs[|xs| - 1];
      if cand(x) && score(x) > prev.1 then (Some(|xs| - 1), score(x)) else prev
  }

  /**
   * The scored search picks the candidate with the highest score, the
   * earliest among equal scores, and finds nothing only when there is no
   * candidate.
   */
  lemma {:induction false} BestOfIsFirstMax<T>(xs: seq<T>, cand: T -> bool, score: T -> nat)
    ensures var r := BestOf(xs, cand, score);
            (r.0.None? <==> forall j :: 0 <= j < |xs| ==> !cand(xs[j]))
            && (r.0.Some? ==> forall j :: 0 <= j < |xs| && cand(xs[j]) ==> score(xs[j]) <= r.1)
            && (r.0.Some? ==> forall j :: 0 <= j < r.0.value && cand(xs[j]) ==> score(xs[j]) < r.1)
  {
    if xs != [] {
      var init := xs[..|xs| - 1];
      BestOfIsFirstMax(init, cand, score);
      assert forall j :: 0 <= j < |init| ==> xs[j] == init[j];
    }
  }

  function IsCandidate(t: Tree, windowsOnly: bool): nat -> bool { (w: nat) => Candidate(t, windowsOnly, w) }

  function ScoreIn(t: Tree): nat -> nat { (w: nat) => MainScore(t, w) }

  /** `find_wechat_main` of the probe scripts: the loop over the root's children keeping the best-scored candidate. */
  method FindMainScored(s: Screen, windowsOnly: bool) returns (r: Option<nat>)
    ensures r.None? <==> BestOf(s.windows, IsCandidate(s.tree, windowsOnly), ScoreIn(s.tree)).0.None?
    ensures r.Some? ==> r.value == s.windows[BestOf(s.windows, IsCandidate(s.tree, windowsOnly), ScoreIn(s.tree)).0.value]
  {
    var ws, cand, scoreOf := s.windows, IsCandidate(s.tree, windowsOnly), ScoreIn(s.tree);
    r := None;
    var bestScore: int := -1;
    var i := 0;
    while i < |ws|
      invariant i <= |ws|
      invariant var b := BestOf(ws[..i], cand, scoreOf);
                bestScore == b.1 && (r.None? <==> b.0.None?) && (r.Some? ==> r.value == ws[b.0.value])
    {
      assert ws[..i + 1][..i] == ws[..i];
      var w := ws[i];
      if cand(w) {
        var score := scoreOf(w);
        if score > bestScore {
          r, bestScore := Some(w), score;
        }
      }
      i := i + 1;
    }
    assert ws[..i] == ws;
  }

  /**
   * `click_tab_moments`: the tab found by the library's own search
   * (`ButtonControl(Name="朋友圈")`, outside this model, given as
   * `searchHit`) or else, where the file has the fallback, the first child
   * of the main window that is a button whose name contains 朋友圈. The
   * fallback enumerates the main window's children outside any `try`, so a
   * failed enumeration raises out of the script.
   */
  function TabToClick(t: Tree, main: nat, searchHit: Option<nat>, fallback: bool): (r: Call<Option<nat>>)
    ensures searchHit.Some? ==> r == Returned(searchHit)
    ensures searchHit.None? && !fallback ==> r == Returned(None)
    ensures searchHit.None? && fallback ==> (r.Raised? <==> ChildrenOf(t, main).None?)
    ensures searchHit.None? && fallback && ChildrenOf(t, main).Some? ==>
              var cs := ChildrenOf(t, main).value;
              (r == Returned(None) <==> forall j :: 0 <= j < |cs| ==> !IsTabButton(t, (), cs[j]))
              && (r.Returned? && r.value.Some? ==>
                    exists i :: 0 <= i < |cs| && r.value.value == cs[i]
                                && KindOf(t, cs[i]) == ButtonControl && Contains(NameOf(t, cs[i]), MomentsTitle)
                                && forall j :: 0 <= j < i ==> !IsTabButton(t, (), cs[j]))
  {
    if searchHit.Some? then Returned(searchHit)
    else if !fallback then Returned(None)
    else
      match ChildrenOf(t, main)
      case None => Raised
      case Some(cs) =>
        match FirstMatch(t, IsTabButton, (), cs)
        case None => Returned(None)
        case Some(i) => Returned(Some(cs[i]))
  }

  /** `click_tab_moments` returned True: a tab was found and clicked. */
  predicate TabClicked(r: Call<Option<nat>>) { r.Returned? && r.value.Some? }

  predicate IsTabButton(t: Tree, u: (), c: nat) {
    KindOf(t, c) == ButtonControl && Contains(NameOf(t, c), MomentsTitle)
  }
}
