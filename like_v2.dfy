/**
 * The script `test/test_moments_like_v2.py`: like the first `n` posts by
 * clicking above each separator and looking for the like panel as a
 * separate top-level window, nudging the click 40 pixels to the left once
 * when no panel shows up. Its separator filter only skips a missing
 * rectangle (no validity check); separators are at least 300 wide.
 */
module LikeV2 {
  import opened Text
  import opened Geometry
  import opened UiTree
  import opened Bfs
  import opened Anchors
  import opened Paging
  import opened Desktop

  const Rule := SepRule(None, 300, 3)
  const SepMaxNodes := 120000
  const SepMaxHits := 600
  const RatioPercent := 92
  const OffsetUp := 16
  const NudgeLeft := 40
  const MaxPages := 8
  const PanelProbeNodes := 18000
  const ClickSearchNodes := 22000

  const Like := "赞"
  const Cancel := "取消"
  const Comment := "评论"
  const Reply := "回复"

  // ---------------------------------------------------------------------------
  // find_like_panel
  // ---------------------------------------------------------------------------

  /** A button or text that marks the like panel: named like, cancel, comment or reply, or with like or comment in its name. */
  predicate IsPanelMark(t: Tree, u: (), c: nat) {
    (KindOf(t, c) == ButtonControl || KindOf(t, c) == TextControl)
    && (NameOf(t, c) in [Like, Cancel, Comment, Reply] || Contains(NameOf(t, c), Like) || Contains(NameOf(t, c), Comment))
  }

  /** A top-level window of neither the main nor the moments class with a panel mark among the first 18000 elements of its subtree. */
  predicate IsLikePanel(t: Tree, u: (), w: nat) {
    KindOf(t, w) == WindowControl
    && ClassOf(t, w) != MainWindowClass && ClassOf(t, w) != SnsWindowClass
    && SearchFirst(t, IsPanelMark, (), w, PanelProbeNodes).Some?
  }

  /** A window of neither the main nor the moments class, with a panel mark among the elements the probe visits. */
  predicate PanelShape(t: Tree, w: nat) {
    KindOf(t, w) == WindowControl
    && ClassOf(t, w) != MainWindowClass && ClassOf(t, w) != SnsWindowClass
    && exists k :: 0 <= k < |Dequeued(t, [w], PanelProbeNodes)| && IsPanelMark(t, (), Dequeued(t, [w], PanelProbeNodes)[k])
  }

  /** The probe of `find_like_panel` accepts a window exactly when it has that shape. */
  lemma LikePanelIff(t: Tree, w: nat)
    ensures IsLikePanel(t, (), w) <==> PanelShape(t, w)
  {
    SearchFirstIff(t, IsPanelMark, (), Dequeued(t, [w], PanelProbeNodes));
  }

  /**
   * `find_like_panel`: on each poll, the first top-level window that is the
   * like panel. The windows it returns are never of the main or moments
   * class, and hold a panel mark.
   */
  lemma LikePanelSpec(polls: seq<Screen>)
    ensures var r := FirstPoll(polls, IsLikePanel, ());
            r.Some? ==> exists i :: 0 <= i < |polls| && Pick(polls[i], IsLikePanel, ()) == r && PanelShape(polls[i].tree, r.value)
  {
    var r := FirstPoll(polls, IsLikePanel, ());
    if r.Some? {
      var i :| 0 <= i < |polls| && Pick(polls[i], IsLikePanel, ()) == r
               && forall j :: 0 <= j < i ==> Pick(polls[j], IsLikePanel, ()).None?;
      var s := polls[i];
      assert IsLikePanel(s.tree, (), r.value);
      SearchFirstIff(s.tree, IsPanelMark, (), Dequeued(s.tree, [r.value], PanelProbeNodes));
      assert PanelShape(s.tree, r.value);
    }
  }

  // ---------------------------------------------------------------------------
  // click_like
  // ---------------------------------------------------------------------------

  /** What a first-hit search of `click_like` looks for: buttons and/or texts with an exact name. */
  datatype Want = Want(button: bool, text: bool, name: string)

  predicate Wanted(t: Tree, a: Want, c: nat) {
    ((a.button && KindOf(t, c) == ButtonControl) || (a.text && KindOf(t, c) == TextControl)) && NameOf(t, c) == a.name
  }

  /** The outcome of `click_like`. */
  datatype ClickOutcome = ClickedButton(ctrl: nat) | ClickedText(ctrl: nat) | AlreadyLiked | NotFound

  function Target(cancel: bool): string { if cancel then Cancel else Like }

  /**
   * `click_like(panel, cancel)`: a button with the target name, else a text
   * with the target name (whose click may raise, `textRaises`, and then
   * falls through), else "already liked" when liking and a cancel button or
   * text is there, else "not found".
   */
  function ClickLike(t: Tree, panel: nat, cancel: bool, textRaises: bool): ClickOutcome {
    match SearchFirst(t, Wanted, Want(true, false, Target(cancel)), panel, ClickSearchNodes)
    case Some(b) => ClickedButton(b)
    case None =>
      var txt := SearchFirst(t, Wanted, Want(false, true, Target(cancel)), panel, ClickSearchNodes);
      if txt.Some? && !textRaises then ClickedText(txt.value)
      else if !cancel && SearchFirst(t, Wanted, Want(true, true, Cancel), panel, ClickSearchNodes).Some? then AlreadyLiked
      else NotFound
  }

  /** `click_like`, with its three first-hit searches. */
  method ClickLikeIn(t: Tree, panel: nat, cancel: bool, textRaises: bool) returns (r: ClickOutcome)
    ensures r == ClickLike(t, panel, cancel, textRaises)
  {
    var btn := FindFirst(t, Wanted, Want(true, false, Target(cancel)), panel, ClickSearchNodes);
    if btn.Some? {
      return ClickedButton(btn.value);
    }
    var txt := FindFirst(t, Wanted, Want(false, true, Target(cancel)), panel, ClickSearchNodes);
    if txt.Some? && !textRaises {
      return ClickedText(txt.value);
    }
    if !cancel {
      var c := FindFirst(t, Wanted, Want(true, true, Cancel), panel, ClickSearchNodes);
      if c.Some? {
        return AlreadyLiked;
      }
    }
    return NotFound;
  }

  /** Whether some element among the first `n` of the panel's subtree satisfies `want`. */
  predicate Seen(t: Tree, panel: nat, want: Want) {
    exists k :: 0 <= k < |Dequeued(t, [panel], ClickSearchNodes)| && Wanted(t, want, Dequeued(t, [panel], ClickSearchNodes)[k])
  }

  /**
   * A button with the target name is clicked in preference to a text; the
   * text is clicked only when there is no such button; "already liked" is
   * answered only when liking, nothing was clicked, and a cancel button or
   * text is there; and whatever is clicked carries the target name.
   */
  lemma ClickLikeSpec(t: Tree, panel: nat, cancel: bool, textRaises: bool)
    ensures var r := ClickLike(t, panel, cancel, textRaises);
            (r.ClickedButton? <==> Seen(t, panel, Want(true, false, Target(cancel))))
            && (r.ClickedButton? ==> KindOf(t, r.ctrl) == ButtonControl && NameOf(t, r.ctrl) == Target(cancel))
            && (r.ClickedText? <==> !Seen(t, panel, Want(true, false, Target(cancel))) && Seen(t, panel, Want(false, true, Target(cancel))) && !textRaises)
            && (r.ClickedText? ==> KindOf(t, r.ctrl) == TextControl && NameOf(t, r.ctrl) == Target(cancel))
            && (r.AlreadyLiked? <==> !cancel && !r.ClickedButton? && !r.ClickedText? && Seen(t, panel, Want(true, true, Cancel)))
  {
    SearchFirstIff(t, Wanted, Want(true, false, Target(cancel)), Dequeued(t, [panel], ClickSearchNodes));
    SearchFirstIff(t, Wanted, Want(false, true, Target(cancel)), Dequeued(t, [panel], ClickSearchNodes));
    SearchFirstIff(t, Wanted, Want(true, true, Cancel), Dequeued(t, [panel], ClickSearchNodes));
  }

  // ---------------------------------------------------------------------------
  // One separator of like_first_n
  // ---------------------------------------------------------------------------

  /**
   * What the desktop shows to attempt `k`: the polls after the "..." click,
   * the polls after the nudge click, the snapshot `click_like` reads, and
   * whether clicking a text raises.
   */
  datatype AttemptWorld = AttemptWorld(
    firstPolls: nat -> seq<Screen>,
    nudgePolls: nat -> seq<Screen>,
    panelTree: nat -> Tree,
    textRaises: nat -> bool)

  /** The clicks made on one separator, the panel found, and the outcome of `click_like` when a panel was found. */
  datatype AttemptTrace = AttemptTrace(clicks: seq<Point>, panel: Option<nat>, click: Option<ClickOutcome>)

  function AttemptOf(w: AttemptWorld, cancel: bool, k: nat, s: Sep): AttemptTrace {
    var p := Hotspot(s, RatioPercent, OffsetUp);
    var first := FirstPoll(w.firstPolls(k), IsLikePanel, ());
    var clicks := if first.Some? then [p] else [p, Point(p.x - NudgeLeft, p.y)];
    var panel := if first.Some? then first else FirstPoll(w.nudgePolls(k), IsLikePanel, ());
    if panel.None? then AttemptTrace(clicks, None, None)
    else AttemptTrace(clicks, panel, Some(ClickLike(w.panelTree(k), panel.value, cancel, w.textRaises(k))))
  }

  /**
   * The body of the separator loop of `like_first_n`: click the hotspot,
   * wait for the panel, nudge left and wait again when none appeared, then
   * click like in the panel.
   */
  method TryPanel(w: AttemptWorld, cancel: bool, k: nat, s: Sep) returns (r: AttemptTrace)
    ensures r == AttemptOf(w, cancel, k, s)
  {
    var p := Hotspot(s, RatioPercent, OffsetUp);
    var clicks := [p];
    var panel := WaitWindow(w.firstPolls(k), IsLikePanel, ());
    if panel.None? {
      clicks := clicks + [Point(p.x - NudgeLeft, p.y)];
      panel := WaitWindow(w.nudgePolls(k), IsLikePanel, ());
    }
    if panel.None? {
      return AttemptTrace(clicks, None, None);
    }
    var c := ClickLikeIn(w.panelTree(k), panel.value, cancel, w.textRaises(k));
    return AttemptTrace(clicks, panel, Some(c));
  }

  /**
   * The first click is the hotspot; a second click, 40 pixels to its left
   * at the same height, happens exactly when the first wait found no panel,
   * and only then is the panel taken from the second wait.
   */
  lemma NudgeSpec(w: AttemptWorld, cancel: bool, k: nat, s: Sep)
    ensures var r := AttemptOf(w, cancel, k, s);
            var p := Hotspot(s, RatioPercent, OffsetUp);
            var first := FirstPoll(w.firstPolls(k), IsLikePanel, ());
            1 <= |r.clicks| <= 2 && r.clicks[0] == p
            && (|r.clicks| == 2 <==> first.None?)
            && (|r.clicks| == 2 ==> r.clicks[1] == Point(p.x - NudgeLeft, p.y)
                                    && r.panel == FirstPoll(w.nudgePolls(k), IsLikePanel, ()))
            && (first.Some? ==> r.panel == first)
            && (r.click.Some? <==> r.panel.Some?)
  {
  }

  predicate Clicked(w: AttemptWorld, cancel: bool, k: nat, s: Sep) {
    var r := AttemptOf(w, cancel, k, s);
    r.click.Some? && (r.click.value.ClickedButton? || r.click.value.ClickedText?)
  }

  function Attempt(w: AttemptWorld, cancel: bool): (nat, Sep) -> bool {
    (k: nat, s: Sep) => Clicked(w, cancel, k, s)
  }

  // ---------------------------------------------------------------------------
  // like_first_n
  // ---------------------------------------------------------------------------

  /** What the script reads: the screen it finds the main window on, the tab search, the polls for the moments window, each page's snapshot and each attempt's world. */
  datatype V2World = V2World(
    main: Screen,
    tabHit: Option<nat>,
    snsPolls: seq<Screen>,
    pageTree: nat -> Tree,
    attempts: AttemptWorld)

  function PageSeps(w: V2World, sns: nat): nat -> seq<Sep> {
    (p: nat) => SeparatorRows(w.pageTree(p), Rule, sns, SepMaxNodes, SepMaxHits)
  }

  /**
   * Where `like_first_n` stops: no main window, no moments tab, the
   * exception of the tab fallback, no moments window, or after the page
   * loop with its counters.
   */
  datatype V2Outcome = NoMain | NoTab | TabRaised | NoSns | Done(done: nat, tried: nat)

  /** The main window `find_wechat_main` returns: an exact match, else a window whose title mentions WeChat. */
  function MainOf(s: Screen): Option<nat> {
    if Pick(s, IsExactMain, ()).Some? then Pick(s, IsExactMain, ()) else Pick(s, IsFuzzyMain, ())
  }

  /**
   * `like_first_n(n, cancel)`: find the main window, click the moments tab
   * (with the fallback over the main window's children), wait for the
   * moments window, then work through the separators of at most eight
   * pages until `n` clicks were made.
   */
  method LikeFirstN(w: V2World, n: int, cancel: bool) returns (o: V2Outcome)
    ensures o == NoMain <==> MainOf(w.main).None?
    ensures o == TabRaised <==> MainOf(w.main).Some? && TabToClick(w.main.tree, MainOf(w.main).value, w.tabHit, true).Raised?
    ensures o == NoTab <==> MainOf(w.main).Some? && TabToClick(w.main.tree, MainOf(w.main).value, w.tabHit, true) == Returned(None)
    ensures o == NoSns <==> MainOf(w.main).Some? && TabClicked(TabToClick(w.main.tree, MainOf(w.main).value, w.tabHit, true))
                            && FirstPoll(w.snsPolls, IsSnsWindow, MomentsTitle).None?
    ensures o.Done? ==> MainOf(w.main).Some? && TabClicked(TabToClick(w.main.tree, MainOf(w.main).value, w.tabHit, true))
                        && FirstPoll(w.snsPolls, IsSnsWindow, MomentsTitle).Some?
    ensures o.Done? ==>
              var sns := FirstPoll(w.snsPolls, IsSnsWindow, MomentsTitle).value;
              var r := Run(MaxPages, n, PageSeps(w, sns), Attempt(w.attempts, cancel));
              o.done == r.success && o.tried == r.tried
    ensures o.Done? ==> o.done <= Max0(n) && o.done <= o.tried
  {
    var main := FindMainExact(w.main, true);
    if main.None? {
      return NoMain;
    }
    var tab := TabToClick(w.main.tree, main.value, w.tabHit, true);
    if tab.Raised? {
      return TabRaised;
    }
    if tab.value.None? {
      return NoTab;
    }
    var sns := WaitWindow(w.snsPolls, IsSnsWindow, MomentsTitle);
    if sns.None? {
      return NoSns;
    }
    var done, tried := RunPages(w, sns.value, n, cancel, PageSeps(w, sns.value), Attempt(w.attempts, cancel));
    RunCounters(MaxPages, n, PageSeps(w, sns.value), Attempt(w.attempts, cancel));
    return Done(done, tried);
  }

  /**
   * The page loop of `like_first_n`. `sepsOf` and `attempt` stand for the
   * separator search of a page and the outcome of an attempt; the loop sees
   * them only through these names.
   */
  method RunPages(w: V2World, sns: nat, n: int, cancel: bool, ghost sepsOf: nat -> seq<Sep>, ghost attempt: (nat, Sep) -> bool)
    returns (done: nat, tried: nat)
    requires forall p {:trigger SeparatorRows(w.pageTree(p), Rule, sns, SepMaxNodes, SepMaxHits)} :: sepsOf(p) == SeparatorRows(w.pageTree(p), Rule, sns, SepMaxNodes, SepMaxHits)
    requires forall k, s {:trigger Clicked(w.attempts, cancel, k, s)} :: attempt(k, s) == Clicked(w.attempts, cancel, k, s)
    ensures var r := Run(MaxPages, n, sepsOf, attempt);
            done == r.success && tried == r.tried
  {
    ghost var goal := Run(MaxPages, n, sepsOf, attempt);
    done, tried := 0, 0;
    ghost var pages: nat, attempts: seq<Sep> := 0, [];
    var page: nat := 0;
    while page < MaxPages
      invariant PagesFrom(page, MaxPages, n, sepsOf, attempt, Tally(done, tried, pages, attempts)) == goal
      decreases MaxPages - page
    {
      PagesFromStep(page, MaxPages, n, sepsOf, attempt, Tally(done, tried, pages, attempts));
      var seps := ScanPage(w.pageTree, Rule, sns, SepMaxNodes, SepMaxHits, page, sepsOf);
      pages := pages + 1;
      if seps == [] {
        page := page + 1;
        continue;
      }
      done, tried, attempts := AttemptPage(w, n, cancel, seps, done, tried, pages, attempts, attempt);
      if done >= n {
        break;
      }
      page := page + 1;
    }
  }

  /** One separator, reporting whether a like (or cancel) click was made. */
  method TryOne(w: V2World, cancel: bool, k: nat, s: Sep, ghost attempt: (nat, Sep) -> bool) returns (ok: bool)
    requires forall k, s {:trigger Clicked(w.attempts, cancel, k, s)} :: attempt(k, s) == Clicked(w.attempts, cancel, k, s)
    ensures ok == attempt(k, s)
  {
    var r := TryPanel(w.attempts, cancel, k, s);
    ok := r.click.Some? && (r.click.value.ClickedButton? || r.click.value.ClickedText?);
    assert Clicked(w.attempts, cancel, k, s) == ok;
  }

  /** The separator loop of one page: attempt the separators in order while fewer than `n` clicks were made. */
  method AttemptPage(w: V2World, n: int, cancel: bool, seps: seq<Sep>,
                     done0: nat, tried0: nat, ghost pages: nat, ghost attempts0: seq<Sep>, ghost attempt: (nat, Sep) -> bool)
    returns (done: nat, tried: nat, ghost attempts: seq<Sep>)
    requires forall k, s {:trigger Clicked(w.attempts, cancel, k, s)} :: attempt(k, s) == Clicked(w.attempts, cancel, k, s)
    ensures Tally(done, tried, pages, attempts) == SepsFrom(seps, 0, n, attempt, Tally(done0, tried0, pages, attempts0))
  {
    done, tried, attempts := done0, tried0, attempts0;
    var i := 0;
    while i < |seps| && done < n
      invariant i <= |seps|
      invariant SepsFrom(seps, i, n, attempt, Tally(done, tried, pages, attempts))
             == SepsFrom(seps, 0, n, attempt, Tally(done0, tried0, pages, attempts0))
      decreases |seps| - i
    {
      var ok := TryOne(w, cancel, tried, seps[i], attempt);
      attempts := attempts + [seps[i]];
      if ok {
        done := done + 1;
      }
      tried := tried + 1;
      i := i + 1;
    }
  }
}
