/**
 * The script `wxauto4/test_moments_like.py`: like the first posts of the
 * moments feed inside the main window. It picks the feed as the best-scored
 * list control, opens each post's action menu through one of its buttons,
 * finds the like panel as a separate window (or, failing that, inside the
 * main window), and clicks the like button there.
 */
module FeedLike {
  import opened Text
  import opened UiTree
  import opened Bfs
  import opened Sorting
  import opened Desktop

  const ListMaxNodes := 25000
  const ListMaxHits := 200
  const ChildBonusCap := 50
  const MenuMaxNodes := 4000
  const MenuFallbackHits := 20
  const ScopeMaxNodes := 6000
  const ScopeMaxHits := 80
  const PanelMaxNodes := 8000

  const Like := "赞"
  const Cancel := "取消"
  const Comment := "评论"

  // ---------------------------------------------------------------------------
  // find_moments_feed_list
  // ---------------------------------------------------------------------------

  predicate IsList(t: Tree, u: (), c: nat) {
    KindOf(t, c) == ListControl || KindOf(t, c) == TableControl
  }

  /** The chat lists the feed search skips, by automation id or name. */
  predicate Excluded(t: Tree, c: nat) {
    AidOf(t, c) in ["chat_message_list", "session_list"] || NameOf(t, c) in ["消息", "会话"]
  }

  function Min(a: int, b: int): int { if a <= b then a else b }

  /**
   * The score of a list, in tenths of the source's points: 1 point for a
   * list-like class, 3 for a feed-like name, 1 for an automation id, and a
   * tenth of a point per child up to 50 children.
   */
  function FeedScore(t: Tree, c: nat): (score: nat)
    ensures score <= 100
    ensures score >= Min(|ChildrenOrEmpty(t, c)|, ChildBonusCap)
    ensures Contains(NameOf(t, c), "朋友圈") ==> score >= 30
  {
    var cls, name := ClassOf(t, c), NameOf(t, c);
    10 * ((if Contains(cls, "Recycler") || Contains(cls, "List") || Contains(cls, "Table") then 1 else 0)
          + (if Contains(name, "朋友圈") || Contains(name, "动态") || Contains(name, "时间线") then 3 else 0)
          + (if AidOf(t, c) != "" then 1 else 0))
    + Min(|ChildrenOrEmpty(t, c)|, ChildBonusCap)
  }

  /** The `(score, list)` candidates among the lists found, in the order found. */
  function FeedCands(t: Tree, lists: seq<nat>): (r: seq<(nat, nat)>)
    ensures |r| <= |lists|
  {
    if lists == [] then []
    else
      var c := lists[|lists| - 1];
      FeedCands(t, lists[..|lists| - 1]) + if Excluded(t, c) then [] else [(FeedScore(t, c), c)]
  }

  /** The lists the feed search looks at. */
  function ListsUnder(t: Tree, main: nat): seq<nat> {
    SearchAll(t, IsList, (), main, ListMaxNodes, ListMaxHits)
  }

  /** The list `find_moments_feed_list` returns: the head of the candidates sorted by descending score. */
  function FeedOf(t: Tree, main: nat): Option<nat> {
    var cands := FeedCands(t, ListsUnder(t, main));
    if cands == [] then None else Some(SortBy(cands, ScoreDescending)[0].1)
  }

  /** `find_moments_feed_list`: collect the lists, score those not excluded, sort by score, take the first. */
  method FindFeedList(t: Tree, main: nat) returns (r: Option<nat>)
    ensures r == FeedOf(t, main)
  {
    var lists := FindAll(t, IsList, (), main, ListMaxNodes, ListMaxHits);
    var cands := ScoreLists(t, lists);
    if cands == [] {
      return None;
    }
    var sorted := SortBy(cands, ScoreDescending);
    return Some(sorted[0].1);
  }

  /** The loop that scores every list found and not excluded. */
  method ScoreLists(t: Tree, lists: seq<nat>) returns (cands: seq<(nat, nat)>)
    ensures cands == FeedCands(t, lists)
  {
    cands := [];
    var i := 0;
    while i < |lists|
      invariant i <= |lists|
      invariant cands == FeedCands(t, lists[..i])
    {
      assert lists[..i + 1][..i] == lists[..i];
      var c := lists[i];
      if !Excluded(t, c) {
        cands := cands + [(FeedScore(t, c), c)];
      }
      i := i + 1;
    }
    assert lists[..i] == lists;
  }

  /** Every candidate is a list found and not excluded, with its own score. */
  lemma {:induction false} FeedCandsSound(t: Tree, lists: seq<nat>)
    ensures forall c :: c in FeedCands(t, lists) ==> c.1 in lists && !Excluded(t, c.1) && c.0 == FeedScore(t, c.1)
  {
    if lists != [] {
      FeedCandsSound(t, lists[..|lists| - 1]);
    }
  }

  /** Every list found and not excluded is a candidate, at position `j`. */
  lemma {:induction false} FeedCandsComplete(t: Tree, lists: seq<nat>, i: nat) returns (j: nat)
    requires i < |lists| && !Excluded(t, lists[i])
    ensures j < |FeedCands(t, lists)| && FeedCands(t, lists)[j] == (FeedScore(t, lists[i]), lists[i])
    decreases |lists|
  {
    var init := lists[..|lists| - 1];
    if i < |lists| - 1 {
      j := FeedCandsComplete(t, init, i);
      assert FeedCands(t, init) == FeedCands(t, lists)[..|FeedCands(t, init)|];
    } else {
      j := |FeedCands(t, init)|;
    }
  }

  /**
   * The feed search finds nothing exactly when every list found is
   * excluded; otherwise it answers a list found, not excluded, whose score
   * is the highest of all lists found and not excluded.
   */
  lemma FeedIsBest(t: Tree, main: nat)
    ensures var lists := ListsUnder(t, main);
            FeedOf(t, main).None? <==> forall i :: 0 <= i < |lists| ==> Excluded(t, lists[i])
    ensures var lists := ListsUnder(t, main);
            FeedOf(t, main).Some? ==>
              var f := FeedOf(t, main).value;
              f in lists && IsList(t, (), f) && !Excluded(t, f)
              && forall i :: 0 <= i < |lists| && !Excluded(t, lists[i]) ==> FeedScore(t, lists[i]) <= FeedScore(t, f)
  {
    var lists := ListsUnder(t, main);
    var cands := FeedCands(t, lists);
    FeedCandsSound(t, lists);
    SearchAllBounds(t, IsList, (), main, ListMaxNodes, ListMaxHits);
    if cands == [] {
      forall i | 0 <= i < |lists| ensures Excluded(t, lists[i]) {
        if !Excluded(t, lists[i]) {
          var j := FeedCandsComplete(t, lists, i);
        }
      }
    } else {
      SortByHead(cands, ScoreDescending);
      var m := FirstMinIndex(cands, ScoreDescending);
      assert FeedOf(t, main) == Some(cands[m].1);
      assert cands[m] in cands;
      var j0 :| 0 <= j0 < |lists| && lists[j0] == cands[m].1;
      assert IsList(t, (), lists[j0]);
      forall i | 0 <= i < |lists| && !Excluded(t, lists[i])
        ensures FeedScore(t, lists[i]) <= cands[m].0
      {
        var j := FeedCandsComplete(t, lists, i);
        assert ScoreDescending(cands[m]) <= ScoreDescending(cands[j]);
      }
    }
  }

  // ---------------------------------------------------------------------------
  // open_action_menu_for_item
  // ---------------------------------------------------------------------------

  predicate IsButton(t: Tree, u: (), c: nat) { KindOf(t, c) == ButtonControl }

  /** A button whose name mentions more, an ellipsis, operations or a menu. */
  predicate IsMenuByName(t: Tree, u: (), c: nat) {
    var n := NameOf(t, c);
    KindOf(t, c) == ButtonControl
    && (Contains(n, "更多") || Contains(n, "…") || Contains(n, "...") || Contains(n, "操作") || Contains(n, "菜单"))
  }

  /** A button whose lower-cased class mentions more, menu, operation or actions. */
  predicate IsMenuByClass(t: Tree, u: (), c: nat) {
    var k := Lower(ClassOf(t, c));
    KindOf(t, c) == ButtonControl
    && (Contains(k, "more") || Contains(k, "menu") || Contains(k, "operation") || Contains(k, "actions"))
  }

  /**
   * The choice of `open_action_menu_for_item` over two preferred kinds of
   * button: the first visited of the `first` kind, else of the `second`
   * kind, else the first button of the fallback search.
   */
  function TieredButton(t: Tree, first: (Tree, (), nat) -> bool, second: (Tree, (), nat) -> bool, item: nat): Option<nat> {
    var a := SearchFirst(t, first, (), item, MenuMaxNodes);
    if a.Some? then a
    else
      var b := SearchFirst(t, second, (), item, MenuMaxNodes);
      if b.Some? then b
      else
        var buttons := SearchAll(t, IsButton, (), item, MenuMaxNodes, MenuFallbackHits);
        if buttons == [] then None else Some(buttons[0])
  }

  /** The button `open_action_menu_for_item` clicks: by name, else by class, else the first button of the item. */
  function MenuButton(t: Tree, item: nat): Option<nat> {
    TieredButton(t, IsMenuByName, IsMenuByClass, item)
  }

  /** `open_action_menu_for_item`: the three searches in turn; None is the `False` answer. */
  method OpenActionMenu(t: Tree, item: nat) returns (r: Option<nat>)
    ensures r == MenuButton(t, item)
  {
    r := FindFirst(t, IsMenuByName, (), item, MenuMaxNodes);
    if r.Some? {
      return;
    }
    r := FindFirst(t, IsMenuByClass, (), item, MenuMaxNodes);
    if r.Some? {
      return;
    }
    var buttons := FindAll(t, IsButton, (), item, MenuMaxNodes, MenuFallbackHits);
    if buttons != [] {
      return Some(buttons[0]);
    }
    return None;
  }

  /** The last resort of the tiered choice, the head of a search capped at 20 hits, is the first button visited. */
  lemma FallbackIsFirstButton(t: Tree, item: nat)
    ensures var all := SearchAll(t, IsButton, (), item, MenuMaxNodes, MenuFallbackHits);
            SearchFirst(t, IsButton, (), item, MenuMaxNodes) == if all == [] then None else Some(all[0])
  {
    var hs := Hits(t, IsButton, (), Dequeued(t, [item], MenuMaxNodes));
    var all := SearchAll(t, IsButton, (), item, MenuMaxNodes, MenuFallbackHits);
    assert all == Take(hs, MenuFallbackHits);
    if hs != [] {
      assert all[0] == hs[0];
    }
  }

  /** A first-hit search from `item` finds something exactly when a visited element qualifies, and what it finds qualifies. */
  lemma FirstHit(t: Tree, pred: (Tree, (), nat) -> bool, item: nat)
    ensures var d := Dequeued(t, [item], MenuMaxNodes);
            var r := SearchFirst(t, pred, (), item, MenuMaxNodes);
            (r.Some? <==> exists k :: 0 <= k < |d| && pred(t, (), d[k])) && (r.Some? ==> pred(t, (), r.value))
  {
    SearchFirstIff(t, pred, (), Dequeued(t, [item], MenuMaxNodes));
  }

  /** The tiered choice, for any two kinds of button. */
  lemma TieredButtonSpec(t: Tree, first: (Tree, (), nat) -> bool, second: (Tree, (), nat) -> bool, item: nat)
    requires forall c :: first(t, (), c) ==> IsButton(t, (), c)
    requires forall c :: second(t, (), c) ==> IsButton(t, (), c)
    ensures var d := Dequeued(t, [item], MenuMaxNodes);
            var r := TieredButton(t, first, second, item);
            (r.Some? <==> exists k :: 0 <= k < |d| && IsButton(t, (), d[k]))
            && (r.Some? ==> IsButton(t, (), r.value))
            && ((exists k :: 0 <= k < |d| && first(t, (), d[k])) ==> r.Some? && first(t, (), r.value))
            && ((exists k :: 0 <= k < |d| && second(t, (), d[k])) ==> r.Some? && (first(t, (), r.value) || second(t, (), r.value)))
            && (r.Some? && !first(t, (), r.value) && !second(t, (), r.value) ==> r == SearchFirst(t, IsButton, (), item, MenuMaxNodes))
  {
    FirstHit(t, first, item);
    FirstHit(t, second, item);
    FirstHit(t, IsButton, item);
    FallbackIsFirstButton(t, item);
  }

  /**
   * The menu opens exactly when the item's first 4000 elements hold a
   * button; what is clicked is a button; a button named like a menu is
   * preferred, then one with a menu-like class, and the last resort is the
   * first button visited.
   */
  lemma MenuButtonSpec(t: Tree, item: nat)
    ensures var d := Dequeued(t, [item], MenuMaxNodes);
            var r := MenuButton(t, item);
            (r.Some? <==> exists k :: 0 <= k < |d| && IsButton(t, (), d[k]))
            && (r.Some? ==> KindOf(t, r.value) == ButtonControl)
            && ((exists k :: 0 <= k < |d| && IsMenuByName(t, (), d[k])) ==> r.Some? && IsMenuByName(t, (), r.value))
            && ((exists k :: 0 <= k < |d| && IsMenuByClass(t, (), d[k])) ==> r.Some? && (IsMenuByName(t, (), r.value) || IsMenuByClass(t, (), r.value)))
            && (r.Some? && !IsMenuByName(t, (), r.value) && !IsMenuByClass(t, (), r.value) ==> r == SearchFirst(t, IsButton, (), item, MenuMaxNodes))
  {
    TieredButtonSpec(t, IsMenuByName, IsMenuByClass, item);
  }

  // ---------------------------------------------------------------------------
  // find_like_window_or_panel
  // ---------------------------------------------------------------------------

  /** A name `has_like_buttons` accepts: like, cancel or comment, or one containing like or comment. */
  predicate IsLikeMark(n: string) {
    n in [Like, Cancel, Comment] || Contains(n, Like) || Contains(n, Comment)
  }

  /** The buttons `has_like_buttons` looks through. */
  function ScopeButtons(t: Tree, scope: nat): seq<nat> {
    SearchAll(t, IsButton, (), scope, ScopeMaxNodes, ScopeMaxHits)
  }

  /** One of the buttons `bs` carries a like mark. */
  predicate AnyLikeMark(t: Tree, bs: seq<nat>) {
    exists i :: 0 <= i < |bs| && IsLikeMark(NameOf(t, bs[i]))
  }

  /** `has_like_buttons(scope)`: one of the buttons looked through carries a like mark. */
  predicate HasLikeButtons(t: Tree, scope: nat) {
    AnyLikeMark(t, ScopeButtons(t, scope))
  }

  /** `has_like_buttons`: the bounded button search, then the loop over the buttons found. */
  method ScopeHasLikeButtons(t: Tree, scope: nat) returns (b: bool)
    ensures b == HasLikeButtons(t, scope)
  {
    var buttons := FindAll(t, IsButton, (), scope, ScopeMaxNodes, ScopeMaxHits);
    b := MarkAmong(t, buttons);
  }

  /** The loop over the buttons found, stopping at the first with a like mark. */
  method MarkAmong(t: Tree, buttons: seq<nat>) returns (b: bool)
    ensures b == AnyLikeMark(t, buttons)
  {
    var i := 0;
    while i < |buttons|
      invariant i <= |buttons|
      invariant forall j :: 0 <= j < i ==> !IsLikeMark(NameOf(t, buttons[j]))
    {
      if IsLikeMark(NameOf(t, buttons[i])) {
        return true;
      }
      i := i + 1;
    }
    return false;
  }

  /** A window that is not of the main class and shows like buttons. */
  predicate IsLikeWindow(t: Tree, u: (), w: nat) {
    KindOf(t, w) == WindowControl && ClassOf(t, w) != MainWindowClass && HasLikeButtons(t, w)
  }

  /**
   * Where the loop over the root's children stops: at a like window, or at
   * a window that has vanished, whose `ControlTypeName` read raises
   * (`getattr` with a default catches only a missing attribute).
   */
  predicate StopsPoll(t: Tree, u: (), w: nat) { !Exists(t, w) || IsLikeWindow(t, (), w) }

  /** One poll of `find_like_window_or_panel`: the like window found, nothing, or the raise of a vanished window. */
  function Look(s: Screen): (r: Call<Option<nat>>)
    ensures r == Returned(None) <==> forall j :: 0 <= j < |s.windows| ==> Exists(s.tree, s.windows[j]) && !IsLikeWindow(s.tree, (), s.windows[j])
    ensures r.Raised? ==> exists i :: 0 <= i < |s.windows| && !Exists(s.tree, s.windows[i])
                                      && forall j :: 0 <= j < i ==> Exists(s.tree, s.windows[j]) && !IsLikeWindow(s.tree, (), s.windows[j])
    ensures r.Returned? && r.value.Some? ==>
              exists i :: 0 <= i < |s.windows| && s.windows[i] == r.value.value && IsLikeWindow(s.tree, (), s.windows[i])
                          && forall j :: 0 <= j < i ==> Exists(s.tree, s.windows[j]) && !IsLikeWindow(s.tree, (), s.windows[j])
  {
    match FirstMatch(s.tree, StopsPoll, (), s.windows)
    case None => Returned(None)
    case Some(i) => if Exists(s.tree, s.windows[i]) then Returned(Some(s.windows[i])) else Raised
  }

  /** The first poll that finds a like window or raises decides; otherwise nothing is found. */
  function PollLikeWindow(polls: seq<Screen>): (r: Call<Option<nat>>)
    ensures r == Returned(None) <==> forall i :: 0 <= i < |polls| ==> Look(polls[i]) == Returned(None)
  {
    if polls == [] then Returned(None)
    else if Look(polls[0]) != Returned(None) then Look(polls[0])
    else
      var r := PollLikeWindow(polls[1..]);
      assert forall i :: 1 <= i < |polls| ==> polls[i] == polls[1..][i - 1];
      r
  }

  /** When some poll stops early, the answer is that of the first poll `i` that does. */
  lemma {:induction false} PollLikeWindowFirst(polls: seq<Screen>) returns (i: nat)
    requires PollLikeWindow(polls) != Returned(None)
    ensures i < |polls| && PollLikeWindow(polls) == Look(polls[i])
    ensures forall j :: 0 <= j < i ==> Look(polls[j]) == Returned(None)
  {
    if Look(polls[0]) != Returned(None) {
      i := 0;
    } else {
      var i' := PollLikeWindowFirst(polls[1..]);
      i := i' + 1;
      assert polls[i] == polls[1..][i'];
      forall j | 0 <= j < i
        ensures Look(polls[j]) == Returned(None)
      {
        if j > 0 {
          assert polls[j] == polls[1..][j - 1];
        }
      }
    }
  }

  /**
   * The scope `find_like_window_or_panel` returns: the like window of the
   * first poll that has one, else the main window itself when it shows like
   * buttons once the polls ran out, else None; a vanished window met before
   * any like window raises.
   */
  function LikeScope(polls: seq<Screen>, after: Tree, main: nat): Call<Option<nat>> {
    var w := PollLikeWindow(polls);
    if w != Returned(None) then w
    else if HasLikeButtons(after, main) then Returned(Some(main))
    else Returned(None)
  }

  /** The loop over the root's children on one poll. */
  method LookOnce(s: Screen) returns (r: Call<Option<nat>>)
    ensures r == Look(s)
  {
    var w := FindWindow(s.tree, StopsPoll, (), s.windows);
    if w.None? {
      return Returned(None);
    }
    if !Exists(s.tree, w.value) {
      return Raised;
    }
    return Returned(w);
  }

  /** `find_like_window_or_panel`: poll the top-level windows, then fall back to the main window. */
  method FindLikeWindowOrPanel(polls: seq<Screen>, after: Tree, main: nat) returns (r: Call<Option<nat>>)
    ensures r == LikeScope(polls, after, main)
  {
    var i := 0;
    while i < |polls|
      invariant i <= |polls|
      invariant PollLikeWindow(polls[i..]) == PollLikeWindow(polls)
    {
      assert polls[i..][1..] == polls[i + 1..];
      r := LookOnce(polls[i]);
      if r != Returned(None) {
        return;
      }
      i := i + 1;
    }
    var inMain := ScopeHasLikeButtons(after, main);
    r := if inMain then Returned(Some(main)) else Returned(None);
  }

  /** Every element a bounded button search returns is a button at some position of the visit order. */
  lemma ButtonVisited(t: Tree, scope: nat, i: nat)
    requires i < |ScopeButtons(t, scope)|
    ensures var d := Dequeued(t, [scope], ScopeMaxNodes);
            exists k :: 0 <= k < |d| && d[k] == ScopeButtons(t, scope)[i] && KindOf(t, d[k]) == ButtonControl
  {
    SearchAllBounds(t, IsButton, (), scope, ScopeMaxNodes, ScopeMaxHits);
    var bs := ScopeButtons(t, scope);
    var d := Dequeued(t, [scope], ScopeMaxNodes);
    assert bs[i] in d && IsButton(t, (), bs[i]);
    var k :| 0 <= k < |d| && d[k] == bs[i];
    assert KindOf(t, d[k]) == ButtonControl;
    assert 0 <= k < |Dequeued(t, [scope], ScopeMaxNodes)|;
    assert Dequeued(t, [scope], ScopeMaxNodes)[k] == ScopeButtons(t, scope)[i];
  }

  /** A like mark found means a button among the scope's first 6000 elements carries it. */
  lemma HasLikeButtonsSound(t: Tree, scope: nat)
    requires HasLikeButtons(t, scope)
    ensures var d := Dequeued(t, [scope], ScopeMaxNodes);
            exists k :: 0 <= k < |d| && KindOf(t, d[k]) == ButtonControl && IsLikeMark(NameOf(t, d[k]))
  {
    var bs := ScopeButtons(t, scope);
    var i :| 0 <= i < |bs| && IsLikeMark(NameOf(t, bs[i]));
    ButtonVisited(t, scope, i);
  }

  /**
   * When no poll stops early, the main window is answered exactly when it
   * shows like buttons, and nothing is answered otherwise.
   */
  lemma LikeScopeFallback(polls: seq<Screen>, after: Tree, main: nat)
    ensures var r := LikeScope(polls, after, main);
            (r == Returned(None) <==> PollLikeWindow(polls) == Returned(None) && !HasLikeButtons(after, main))
            && (PollLikeWindow(polls) == Returned(None) ==> (r == Returned(Some(main)) <==> HasLikeButtons(after, main)))
  {
  }

  /**
   * A window answered from a poll is a window of that poll, not of the
   * main class, that shows like buttons, and every window before it in
   * that poll exists and is not one; every earlier poll had none.
   */
  lemma LikeScopeFromPoll(polls: seq<Screen>, after: Tree, main: nat) returns (i: nat, k: nat)
    requires PollLikeWindow(polls).Returned? && PollLikeWindow(polls).value.Some?
    ensures i < |polls| && k < |polls[i].windows| && (forall j :: 0 <= j < i ==> Look(polls[j]) == Returned(None))
    ensures LikeScope(polls, after, main) == Returned(Some(polls[i].windows[k]))
    ensures KindOf(polls[i].tree, polls[i].windows[k]) == WindowControl
            && ClassOf(polls[i].tree, polls[i].windows[k]) != MainWindowClass
            && HasLikeButtons(polls[i].tree, polls[i].windows[k])
    ensures forall j :: 0 <= j < k ==> Exists(polls[i].tree, polls[i].windows[j]) && !IsLikeWindow(polls[i].tree, (), polls[i].windows[j])
  {
    var w := PollLikeWindow(polls);
    i := PollLikeWindowFirst(polls);
    var s := polls[i];
    k :| 0 <= k < |s.windows| && s.windows[k] == w.value.value && IsLikeWindow(s.tree, (), s.windows[k])
         && forall j :: 0 <= j < k ==> Exists(s.tree, s.windows[j]) && !IsLikeWindow(s.tree, (), s.windows[j]);
  }

  /**
   * The search raises only when, on the first poll that stops early, a
   * vanished window comes before any like window.
   */
  lemma LikeScopeRaised(polls: seq<Screen>, after: Tree, main: nat) returns (i: nat, k: nat)
    requires LikeScope(polls, after, main).Raised?
    ensures i < |polls| && k < |polls[i].windows| && (forall j :: 0 <= j < i ==> Look(polls[j]) == Returned(None))
    ensures !Exists(polls[i].tree, polls[i].windows[k])
    ensures forall j :: 0 <= j < k ==> Exists(polls[i].tree, polls[i].windows[j]) && !IsLikeWindow(polls[i].tree, (), polls[i].windows[j])
  {
    var w := PollLikeWindow(polls);
    i := PollLikeWindowFirst(polls);
    var s := polls[i];
    k :| 0 <= k < |s.windows| && !Exists(s.tree, s.windows[k])
         && forall j :: 0 <= j < k ==> Exists(s.tree, s.windows[j]) && !IsLikeWindow(s.tree, (), s.windows[j]);
  }

  // ---------------------------------------------------------------------------
  // click_like_in_panel
  // ---------------------------------------------------------------------------

  predicate IsNamedButton(t: Tree, name: string, c: nat) {
    KindOf(t, c) == ButtonControl && NameOf(t, c) == name
  }

  /** The outcome of `click_like_in_panel`. */
  datatype PanelClick = Clicked(ctrl: nat) | AlreadyLiked | NotFound

  function Target(cancel: bool): string { if cancel then Cancel else Like }

  /** `click_like_in_panel`: the button with the target name, else "already liked" when liking and a cancel button is there, else "not found". */
  function ClickInPanel(t: Tree, panel: nat, cancel: bool): PanelClick {
    match SearchFirst(t, IsNamedButton, Target(cancel), panel, PanelMaxNodes)
    case Some(b) => Clicked(b)
    case None =>
      if !cancel && SearchFirst(t, IsNamedButton, Cancel, panel, PanelMaxNodes).Some? then AlreadyLiked else NotFound
  }

  method ClickLikeInPanel(t: Tree, panel: nat, cancel: bool) returns (r: PanelClick)
    ensures r == ClickInPanel(t, panel, cancel)
  {
    var btn := FindFirst(t, IsNamedButton, Target(cancel), panel, PanelMaxNodes);
    if btn.Some? {
      return Clicked(btn.value);
    }
    if !cancel {
      var btn2 := FindFirst(t, IsNamedButton, Cancel, panel, PanelMaxNodes);
      if btn2.Some? {
        return AlreadyLiked;
      }
    }
    return NotFound;
  }

  /**
   * A click happens exactly when a button with the target name is among
   * the panel's first 8000 elements, and it is the first such button
   * visited; "already liked" is answered exactly when liking, no like
   * button is there and a cancel button is.
   */
  lemma ClickInPanelSpec(t: Tree, panel: nat, cancel: bool)
    ensures var d := Dequeued(t, [panel], PanelMaxNodes);
            var r := ClickInPanel(t, panel, cancel);
            (r.Clicked? <==> exists k :: 0 <= k < |d| && IsNamedButton(t, Target(cancel), d[k]))
            && (r.Clicked? ==> exists k :: 0 <= k < |d| && d[k] == r.ctrl && IsNamedButton(t, Target(cancel), r.ctrl)
                                           && forall j :: 0 <= j < k ==> !IsNamedButton(t, Target(cancel), d[j]))
            && (r.AlreadyLiked? <==> !cancel && !r.Clicked? && exists k :: 0 <= k < |d| && IsNamedButton(t, Cancel, d[k]))
  {
    var d := Dequeued(t, [panel], PanelMaxNodes);
    SearchFirstIff(t, IsNamedButton, Target(cancel), d);
    SearchFirstIff(t, IsNamedButton, Cancel, d);
  }

  // ---------------------------------------------------------------------------
  // like_first_n_posts
  // ---------------------------------------------------------------------------

  /** A child of the feed that looks like a post: it has a class or a name. */
  predicate LooksLikePost(t: Tree, c: nat) { ClassOf(t, c) != "" || NameOf(t, c) != "" }

  /** `[it for it in items if looks_like_post(it)]` */
  function PostItems(t: Tree, items: seq<nat>): (r: seq<nat>)
    ensures |r| <= |items|
    ensures forall c :: c in r <==> c in items && LooksLikePost(t, c)
  {
    if items == [] then []
    else
      var last := items[|items| - 1];
      var init := items[..|items| - 1];
      var r := PostItems(t, init) + if LooksLikePost(t, last) then [last] else [];
      assert forall c :: c in items <==> c in init || c == last by { assert items == init + [last]; }
      r
  }

  /**
   * What the script reads: the screen it finds the main window on, the tab
   * search, the snapshot it finds the feed and its posts in, and per post
   * `k` the snapshot of the menu search, the polls for the like window, the
   * snapshot of the fallback search in the main window, and the snapshot of
   * the click search.
   */
  datatype FeedWorld = FeedWorld(
    main: Screen,
    tabHit: Option<nat>,
    page: Tree,
    itemTree: nat -> Tree,
    panelPolls: nat -> seq<Screen>,
    fallbackTree: nat -> Tree,
    panelTree: nat -> Tree)

  /** What happened to one post; `PanelRaised` is the raise of the panel search, which ends the script. */
  datatype PostOutcome = NoMenu | NoPanel(menu: nat) | PanelRaised(menu: nat) | Tried(menu: nat, panel: nat, click: PanelClick)

  function PostOf(w: FeedWorld, main: nat, cancel: bool, k: nat, item: nat): PostOutcome {
    match MenuButton(w.itemTree(k), item)
    case None => NoMenu
    case Some(m) =>
      match LikeScope(w.panelPolls(k), w.fallbackTree(k), main)
      case Raised => PanelRaised(m)
      case Returned(None) => NoPanel(m)
      case Returned(Some(p)) => Tried(m, p, ClickInPanel(w.panelTree(k), p, cancel))
  }

  predicate PostLiked(w: FeedWorld, main: nat, cancel: bool, k: nat, item: nat) {
    var o := PostOf(w, main, cancel, k, item);
    o.Tried? && o.click.Clicked?
  }

  predicate PostRaises(w: FeedWorld, main: nat, cancel: bool, k: nat, item: nat) {
    PostOf(w, main, cancel, k, item).PanelRaised?
  }

  /** Whether handling `item` as post number `k` raises. */
  function Raises(w: FeedWorld, main: nat, cancel: bool): (nat, nat) -> bool {
    (k: nat, item: nat) => PostRaises(w, main, cancel, k, item)
  }

  /** Whether handling `item` as post number `k` ends in a click. */
  function Liked(w: FeedWorld, main: nat, cancel: bool): (nat, nat) -> bool {
    (k: nat, item: nat) => PostLiked(w, main, cancel, k, item)
  }

  /** The number of positions `k` of `items` with `liked(k, items[k])`. */
  function CountLiked(items: seq<nat>, liked: (nat, nat) -> bool): (r: nat)
    ensures r <= |items|
  {
    if items == [] then 0
    else
      var k := |items| - 1;
      CountLiked(items[..k], liked) + if liked(k, items[k]) then 1 else 0
  }

  /** The running count is the number of positions liked. */
  lemma {:induction false} CountLikedIsCount(items: seq<nat>, liked: (nat, nat) -> bool)
    ensures CountLiked(items, liked) == |set k | 0 <= k < |items| && liked(k, items[k])|
  {
    if items != [] {
      var m := |items| - 1;
      CountLikedIsCount(items[..m], liked);
      var prev := set k | 0 <= k < m && liked(k, items[..m][k]);
      var all := set k | 0 <= k < |items| && liked(k, items[k]);
      assert prev == set k | 0 <= k < m && liked(k, items[k]);
      if liked(m, items[m]) {
        assert all == prev + {m};
      } else {
        assert all == prev;
      }
    }
  }

  /** One iteration of the post loop: open the menu, find the panel, click. */
  method HandlePost(w: FeedWorld, main: nat, cancel: bool, k: nat, item: nat) returns (r: PostOutcome)
    ensures r == PostOf(w, main, cancel, k, item)
  {
    var m := OpenActionMenu(w.itemTree(k), item);
    if m.None? {
      return NoMenu;
    }
    var p := FindLikeWindowOrPanel(w.panelPolls(k), w.fallbackTree(k), main);
    match p {
      case Raised =>
        return PanelRaised(m.value);
      case Returned(None) =>
        return NoPanel(m.value);
      case Returned(Some(panel)) =>
        var c := ClickLikeInPanel(w.panelTree(k), panel, cancel);
        return Tried(m.value, panel, c);
    }
  }

  /**
   * Where `like_first_n_posts` stops: before the loop; with the exception of
   * the tab fallback or of the panel search of post `at` (after `done`
   * clicks); or after the loop with the clicks made and the posts handled.
   */
  datatype FeedOutcome = NoMain | NoTab | TabRaised | NoFeed | NoPosts | PostRaised(done: nat, at: nat) | Done(done: nat, handled: nat)

  /** The main window of the scored search (without a control-type check). */
  function ScoredMain(s: Screen): Option<nat> {
    match BestOf(s.windows, IsCandidate(s.tree, false), ScoreIn(s.tree)).0
    case None => None
    case Some(i) => Some(s.windows[i])
  }

  /** How many posts the loop handles: `post_items[:max(n, 1)]`. */
  function Batch(posts: int, n: int): nat
    requires posts >= 0
  {
    Min(posts, if n < 1 then 1 else n)
  }

  /** The posts of the feed list found in the main window `main`. */
  function PostsOf(w: FeedWorld, main: nat): seq<nat>
    requires FeedOf(w.page, main).Some?
  {
    PostItems(w.page, ChildrenOrEmpty(w.page, FeedOf(w.page, main).value))
  }

  /**
   * `like_first_n_posts(n, cancel)`: find the main window, click the
   * moments tab, find the feed and its posts, then handle the first
   * `max(n, 1)` posts, counting the clicks made, until one raises.
   */
  method LikeFirstNPosts(w: FeedWorld, n: int, cancel: bool) returns (o: FeedOutcome)
    ensures o == NoMain <==> ScoredMain(w.main).None?
    ensures o == TabRaised <==> ScoredMain(w.main).Some? && TabToClick(w.main.tree, ScoredMain(w.main).value, w.tabHit, true).Raised?
    ensures o == NoTab <==> ScoredMain(w.main).Some? && TabToClick(w.main.tree, ScoredMain(w.main).value, w.tabHit, true) == Returned(None)
    ensures o == NoFeed <==> (ScoredMain(w.main).Some? && TabClicked(TabToClick(w.main.tree, ScoredMain(w.main).value, w.tabHit, true))
                              && FeedOf(w.page, ScoredMain(w.main).value).None?)
    ensures o == NoPosts <==> (ScoredMain(w.main).Some? && TabClicked(TabToClick(w.main.tree, ScoredMain(w.main).value, w.tabHit, true))
                               && FeedOf(w.page, ScoredMain(w.main).value).Some? && PostsOf(w, ScoredMain(w.main).value) == [])
    ensures o.Done? || o.PostRaised? ==>
              ScoredMain(w.main).Some? && FeedOf(w.page, ScoredMain(w.main).value).Some? && PostsOf(w, ScoredMain(w.main).value) != []
    ensures o.Done? ==>
              var main := ScoredMain(w.main).value;
              var posts := PostsOf(w, main);
              o.handled == Batch(|posts|, n) && o.done == CountLiked(posts[..o.handled], Liked(w, main, cancel))
              && forall k :: 0 <= k < o.handled ==> !PostRaises(w, main, cancel, k, posts[k])
    ensures o.PostRaised? ==>
              var main := ScoredMain(w.main).value;
              var posts := PostsOf(w, main);
              o.at < Batch(|posts|, n) && PostRaises(w, main, cancel, o.at, posts[o.at])
              && (forall k :: 0 <= k < o.at ==> !PostRaises(w, main, cancel, k, posts[k]))
              && o.done == CountLiked(posts[..o.at], Liked(w, main, cancel))
    ensures o.Done? ==> 1 <= o.handled && o.done <= o.handled && (n >= 1 ==> o.handled <= n) && (n < 1 ==> o.handled == 1)
  {
    var main := FindMainScored(w.main, false);
    if main.None? {
      return NoMain;
    }
    var tab := TabToClick(w.main.tree, main.value, w.tabHit, true);
    if tab.Raised? {
      return TabRaised;
    }
    if tab.value.None? {
      return NoTab;
    }
    var feed := FindFeedList(w.page, main.value);
    if feed.None? {
      return NoFeed;
    }
    var items := ChildrenOrEmpty(w.page, feed.value);
    var posts := PostItems(w.page, items);
    if posts == [] {
      return NoPosts;
    }
    o := HandlePosts(w, main.value, n, cancel, posts, Liked(w, main.value, cancel), Raises(w, main.value, cancel));
  }

  /** The loop of `like_first_n_posts` over the first `max(n, 1)` posts, with the outcome it ends in. */
  method HandlePosts(w: FeedWorld, main: nat, n: int, cancel: bool, posts: seq<nat>, ghost liked: (nat, nat) -> bool, ghost raises: (nat, nat) -> bool)
    returns (o: FeedOutcome)
    requires posts != []
    requires forall k, item {:trigger PostLiked(w, main, cancel, k, item)} :: liked(k, item) == PostLiked(w, main, cancel, k, item)
    requires forall k, item {:trigger PostRaises(w, main, cancel, k, item)} :: raises(k, item) == PostRaises(w, main, cancel, k, item)
    ensures o.Done? || o.PostRaised?
    ensures o.Done? ==>
              o.handled == Batch(|posts|, n) && o.done == CountLiked(posts[..o.handled], liked)
              && forall k :: 0 <= k < o.handled ==> !raises(k, posts[k])
    ensures o.PostRaised? ==>
              o.at < Batch(|posts|, n) && raises(o.at, posts[o.at])
              && (forall k :: 0 <= k < o.at ==> !raises(k, posts[k]))
              && o.done == CountLiked(posts[..o.at], liked)
    ensures o.Done? ==> 1 <= o.handled && o.done <= o.handled && (n >= 1 ==> o.handled <= n) && (n < 1 ==> o.handled == 1)
  {
    var batch := posts[..Batch(|posts|, n)];
    var done, raisedAt := HandleBatch(w, main, cancel, batch, liked, raises);
    assert forall k :: 0 <= k < |batch| ==> batch[k] == posts[k];
    if raisedAt.Some? {
      assert posts[..raisedAt.value] == batch[..raisedAt.value];
      return PostRaised(done, raisedAt.value);
    }
    assert batch[..|batch|] == batch;
    return Done(done, |batch|);
  }

  /**
   * The post loop of `like_first_n_posts`; `liked` and `raises` stand for
   * the outcome of handling one post. The loop stops at the first post
   * that raises.
   */
  method HandleBatch(w: FeedWorld, main: nat, cancel: bool, batch: seq<nat>, ghost liked: (nat, nat) -> bool, ghost raises: (nat, nat) -> bool)
    returns (done: nat, raisedAt: Option<nat>)
    requires forall k, item {:trigger PostLiked(w, main, cancel, k, item)} :: liked(k, item) == PostLiked(w, main, cancel, k, item)
    requires forall k, item {:trigger PostRaises(w, main, cancel, k, item)} :: raises(k, item) == PostRaises(w, main, cancel, k, item)
    ensures raisedAt.Some? ==> raisedAt.value < |batch| && raises(raisedAt.value, batch[raisedAt.value])
    ensures var stop := if raisedAt.Some? then raisedAt.value else |batch|;
            stop <= |batch| && (forall k :: 0 <= k < stop ==> !raises(k, batch[k])) && done == CountLiked(batch[..stop], liked)
  {
    done := 0;
    var idx := 0;
    while idx < |batch|
      invariant idx <= |batch|
      invariant forall k :: 0 <= k < idx ==> !raises(k, batch[k])
      invariant done == CountLiked(batch[..idx], liked)
    {
      assert batch[..idx + 1][..idx] == batch[..idx];
      var ok, raised := TryPost(w, main, cancel, idx, batch[idx], liked, raises);
      if raised {
        return done, Some(idx);
      }
      if ok {
        done := done + 1;
      }
      idx := idx + 1;
    }
    assert batch[..idx] == batch;
    raisedAt := None;
  }

  /** One post, reporting whether a click was made and whether it raised. */
  method TryPost(w: FeedWorld, main: nat, cancel: bool, k: nat, item: nat, ghost liked: (nat, nat) -> bool, ghost raises: (nat, nat) -> bool)
    returns (ok: bool, raised: bool)
    requires forall k, item {:trigger PostLiked(w, main, cancel, k, item)} :: liked(k, item) == PostLiked(w, main, cancel, k, item)
    requires forall k, item {:trigger PostRaises(w, main, cancel, k, item)} :: raises(k, item) == PostRaises(w, main, cancel, k, item)
    ensures ok == liked(k, item) && raised == raises(k, item)
  {
    var r := HandlePost(w, main, cancel, k, item);
    ok := r.Tried? && r.click.Clicked?;
    raised := r.PanelRaised?;
    assert PostLiked(w, main, cancel, k, item) == ok;
    assert PostRaises(w, main, cancel, k, item) == raised;
  }
}
