/**
 * The probe script `test/test_moments_probe_after_more_v2.py`: after the
 * "..." click above a separator it looks for the like panel first as a small
 * top-level window near the click, then inside the moments window, and
 * optionally clicks like among the controls it found. Its rectangle bound is
 * 10000, its separators are at least 300 wide, and its in-window search uses
 * a radius of 300 and exact (unstripped) names.
 */
module ProbeAfterMore {
  import opened Text
  import opened Geometry
  import opened UiTree
  import opened Bfs
  import opened Sorting
  import opened Anchors
  import opened Paging
  import opened Desktop

  const Bound := 10000
  const Rule := SepRule(Some(10000), 300, 3)
  const SepMaxNodes := 200000
  const SepMaxHits := 1200
  const RatioPercent := 92
  const OffsetUp := 16

  const Like := "赞"
  const Cancel := "取消"
  const Comment := "评论"
  const PanelLabels: seq<string> := [Like, Comment, Cancel]

  /** Classes that are never the like panel: the main and moments windows, and browser windows. */
  const ExcludedClasses: seq<string> := [MainWindowClass, SnsWindowClass, "Chrome_WidgetWin_0", "Chrome_WidgetWin_1"]
  const MaxPanelWidth := 520
  const MaxPanelHeight := 280
  const PanelReach := 220
  const PanelProbeNodes := 20000

  const InnerMaxNodes := 30000
  const InnerMaxHits := 50
  const ScopeMaxNodes := 140000
  const ScopeMaxHits := 80
  const ScopeRadius := 300

  const DemoPages := 5

  /** A button or text named like, comment or cancel. */
  predicate IsPanelLabel(t: Tree, u: (), c: nat) {
    (KindOf(t, c) == ButtonControl || KindOf(t, c) == TextControl) && NameOf(t, c) in PanelLabels
  }

  // ---------------------------------------------------------------------------
  // The like panel as a top-level window
  // ---------------------------------------------------------------------------

  /**
   * `is_candidate_panel_window`, together with the distance the caller then
   * records: None when the window is rejected, otherwise the squared
   * distance from the click to its rectangle.
   */
  function PanelDistance(t: Tree, x: int, y: int, w: nat): Option<nat> {
    if KindOf(t, w) != WindowControl then None
    else if ClassOf(t, w) in ExcludedClasses then None
    else if !RectOk(RectOf(t, w), Bound) then None
    else
      var q := RectOf(t, w).value;
      if Width(q) > MaxPanelWidth || Height(q) > MaxPanelHeight then None
      else if SqDist(q, x, y) > PanelReach * PanelReach then None
      else if SearchFirst(t, IsPanelLabel, (), w, PanelProbeNodes).None? then None
      else Some(SqDist(q, x, y))
  }

  /**
   * A window is a candidate exactly when it is a window of no excluded
   * class, with a valid rectangle at most 520 by 280, within 220 of the
   * click, and one of the first 20000 elements of its subtree is a labelled
   * button or text; its recorded distance is the distance to the click.
   */
  lemma CandidatePanelIff(t: Tree, x: int, y: int, w: nat)
    ensures PanelDistance(t, x, y, w).Some? <==>
              KindOf(t, w) == WindowControl && ClassOf(t, w) !in ExcludedClasses
              && RectOk(RectOf(t, w), Bound)
              && Width(RectOf(t, w).value) <= MaxPanelWidth && Height(RectOf(t, w).value) <= MaxPanelHeight
              && Within(RectOf(t, w).value, x, y, PanelReach)
              && exists k :: 0 <= k < |Dequeued(t, [w], PanelProbeNodes)|
                             && IsPanelLabel(t, (), Dequeued(t, [w], PanelProbeNodes)[k])
    ensures PanelDistance(t, x, y, w).Some? ==> PanelDistance(t, x, y, w).value == SqDist(RectOf(t, w).value, x, y)
  {
    SearchFirstIff(t, IsPanelLabel, (), Dequeued(t, [w], PanelProbeNodes));
  }

  /** `is_candidate_panel_window`, with the subtree probe as the bounded first-hit search. */
  method CheckPanel(t: Tree, x: int, y: int, w: nat) returns (d: Option<nat>)
    ensures d == PanelDistance(t, x, y, w)
  {
    if KindOf(t, w) != WindowControl || ClassOf(t, w) in ExcludedClasses || !RectOk(RectOf(t, w), Bound) {
      return None;
    }
    var q := RectOf(t, w).value;
    if Width(q) > MaxPanelWidth || Height(q) > MaxPanelHeight || SqDist(q, x, y) > PanelReach * PanelReach {
      return None;
    }
    var hit := FindFirst(t, IsPanelLabel, (), w, PanelProbeNodes);
    if hit.None? {
      return None;
    }
    return Some(SqDist(q, x, y));
  }

  /** The `(distance, window)` pairs of one poll, in child order. */
  function Cands(t: Tree, x: int, y: int, ws: seq<nat>): (r: seq<(nat, nat)>)
    ensures |r| <= |ws|
  {
    if ws == [] then []
    else
      var w := ws[|ws| - 1];
      Cands(t, x, y, ws[..|ws| - 1])
      + match PanelDistance(t, x, y, w) case None => [] case Some(d) => [(d, w)]
  }

  function DistKey(c: (nat, nat)): int { c.0 }

  /** The window one poll answers: the head of the candidates sorted by distance. */
  function PanelOn(s: Screen, x: int, y: int): Option<nat> {
    var cands := Cands(s.tree, x, y, s.windows);
    if cands == [] then None else Some(SortBy(cands, DistKey)[0].1)
  }

  /** One poll of `find_like_panel_near_click`: collect the candidates, sort them by distance, take the first. */
  method PanelOnScreen(s: Screen, x: int, y: int) returns (r: Option<nat>)
    ensures r == PanelOn(s, x, y)
  {
    var cands: seq<(nat, nat)> := [];
    var i := 0;
    while i < |s.windows|
      invariant i <= |s.windows|
      invariant cands == Cands(s.tree, x, y, s.windows[..i])
    {
      assert s.windows[..i + 1][..i] == s.windows[..i];
      var d := CheckPanel(s.tree, x, y, s.windows[i]);
      if d.Some? {
        cands := cands + [(d.value, s.windows[i])];
      }
      i := i + 1;
    }
    assert s.windows[..i] == s.windows;
    if cands == [] {
      return None;
    }
    var sorted := SortBy(cands, DistKey);
    return Some(sorted[0].1);
  }

  /** Every candidate pair records a candidate window of the list and its distance. */
  lemma {:induction false} CandsSound(t: Tree, x: int, y: int, ws: seq<nat>)
    ensures forall c :: c in Cands(t, x, y, ws) ==> c.1 in ws && PanelDistance(t, x, y, c.1) == Some(c.0)
  {
    if ws != [] {
      CandsSound(t, x, y, ws[..|ws| - 1]);
    }
  }

  /** Every candidate window of the list has its pair, at position `j`. */
  lemma {:induction false} CandsComplete(t: Tree, x: int, y: int, ws: seq<nat>, i: nat) returns (j: nat)
    requires i < |ws| && PanelDistance(t, x, y, ws[i]).Some?
    ensures j < |Cands(t, x, y, ws)| && Cands(t, x, y, ws)[j] == (PanelDistance(t, x, y, ws[i]).value, ws[i])
    decreases |ws|
  {
    var init := ws[..|ws| - 1];
    if i < |ws| - 1 {
      j := CandsComplete(t, x, y, init, i);
      assert Cands(t, x, y, init) == Cands(t, x, y, ws)[..|Cands(t, x, y, init)|];
    } else {
      j := |Cands(t, x, y, init)|;
    }
  }

  /**
   * A poll answers None exactly when none of its windows is a candidate;
   * otherwise it answers a candidate window whose distance to the click is
   * the smallest of all candidates.
   */
  lemma PanelOnIsNearest(s: Screen, x: int, y: int)
    ensures PanelOn(s, x, y).None? <==> forall i :: 0 <= i < |s.windows| ==> PanelDistance(s.tree, x, y, s.windows[i]).None?
    ensures PanelOn(s, x, y).Some? ==>
              var w := PanelOn(s, x, y).value;
              w in s.windows && PanelDistance(s.tree, x, y, w).Some?
              && forall i :: 0 <= i < |s.windows| && PanelDistance(s.tree, x, y, s.windows[i]).Some? ==>
                   PanelDistance(s.tree, x, y, w).value <= PanelDistance(s.tree, x, y, s.windows[i]).value
  {
    var cands := Cands(s.tree, x, y, s.windows);
    CandsSound(s.tree, x, y, s.windows);
    if cands == [] {
      forall i | 0 <= i < |s.windows| ensures PanelDistance(s.tree, x, y, s.windows[i]).None? {
        if PanelDistance(s.tree, x, y, s.windows[i]).Some? {
          var j := CandsComplete(s.tree, x, y, s.windows, i);
        }
      }
    } else {
      SortByHead(cands, DistKey);
      var m := FirstMinIndex(cands, DistKey);
      assert PanelOn(s, x, y) == Some(cands[m].1);
      assert cands[m] in cands;
      forall i | 0 <= i < |s.windows| && PanelDistance(s.tree, x, y, s.windows[i]).Some?
        ensures cands[m].0 <= PanelDistance(s.tree, x, y, s.windows[i]).value
      {
        var j := CandsComplete(s.tree, x, y, s.windows, i);
        assert DistKey(cands[m]) <= DistKey(cands[j]);
      }
    }
  }

  /** `find_like_panel_near_click`: the answer of the first poll that has a candidate. */
  function NearestPanel(polls: seq<Screen>, x: int, y: int): (r: Option<nat>)
    ensures r.None? <==> forall i :: 0 <= i < |polls| ==> PanelOn(polls[i], x, y).None?
    ensures r.Some? ==> exists i :: 0 <= i < |polls| && PanelOn(polls[i], x, y) == r
  {
    if polls == [] then None
    else if PanelOn(polls[0], x, y).Some? then PanelOn(polls[0], x, y)
    else
      var r := NearestPanel(polls[1..], x, y);
      assert forall i :: 1 <= i < |polls| ==> polls[i] == polls[1..][i - 1];
      r
  }

  /** `find_like_panel_near_click`: poll until one poll has a candidate. */
  method FindPanelNearClick(polls: seq<Screen>, x: int, y: int) returns (r: Option<nat>)
    ensures r == NearestPanel(polls, x, y)
  {
    var i := 0;
    while i < |polls|
      invariant i <= |polls|
      invariant NearestPanel(polls[i..], x, y) == NearestPanel(polls, x, y)
    {
      assert polls[i..][1..] == polls[i + 1..];
      r := PanelOnScreen(polls[i], x, y);
      if r.Some? {
        return;
      }
      i := i + 1;
    }
    return None;
  }

  // ---------------------------------------------------------------------------
  // Clicking among the controls found
  // ---------------------------------------------------------------------------

  /**
   * What `click_like_from_controls` did: clicked a control through the
   * provider, clicked the centre of its rectangle after that raised, or
   * clicked nothing.
   */
  datatype ClickStatus = Clicked(ctrl: nat) | ClickedCenter(ctrl: nat, at: Point) | AlreadyLiked | NotFound

  function Target(cancel: bool): string { if cancel then Cancel else Like }

  /** A control the loop stops at: named the target, and either its click does not raise or its rectangle is valid. */
  predicate Clickable(t: Tree, target: string, raises: nat -> bool, c: nat) {
    NameOf(t, c) == target && (!raises(c) || RectOk(RectOf(t, c), Bound))
  }

  function FirstClickable(t: Tree, ctrls: seq<nat>, target: string, raises: nat -> bool): (r: Option<nat>)
    ensures r.Some? ==> r.value < |ctrls| && Clickable(t, target, raises, ctrls[r.value])
                        && forall j :: 0 <= j < r.value ==> !Clickable(t, target, raises, ctrls[j])
    ensures r.None? ==> forall j :: 0 <= j < |ctrls| ==> !Clickable(t, target, raises, ctrls[j])
  {
    if ctrls == [] then None
    else if Clickable(t, target, raises, ctrls[0]) then Some(0)
    else
      match FirstClickable(t, ctrls[1..], target, raises)
      case None => None
      case Some(i) => Some(i + 1)
  }

  /**
   * `click_like_from_controls(ctrls, cancel)`. Whether the provider's
   * `Click()` raises for a control is the parameter `raises`; a control
   * whose click raises and whose rectangle is invalid is passed over.
   */
  function ClickFromControls(t: Tree, ctrls: seq<nat>, cancel: bool, raises: nat -> bool): ClickStatus {
    match FirstClickable(t, ctrls, Target(cancel), raises)
    case Some(i) =>
      if raises(ctrls[i]) then ClickedCenter(ctrls[i], Center(RectOf(t, ctrls[i]).value)) else Clicked(ctrls[i])
    case None =>
      if !cancel && exists k :: 0 <= k < |ctrls| && NameOf(t, ctrls[k]) == Cancel then AlreadyLiked else NotFound
  }

  /**
   * Whatever is clicked is named the target; a centre click happens only
   * after the provider's click raised, at the centre of a valid rectangle.
   * With no control named the target nothing is clicked, and the answer is
   * "already liked" exactly when liking and a cancel control is present.
   */
  lemma ClickFromControlsSpec(t: Tree, ctrls: seq<nat>, cancel: bool, raises: nat -> bool)
    ensures var r := ClickFromControls(t, ctrls, cancel, raises);
            (r.Clicked? ==> r.ctrl in ctrls && NameOf(t, r.ctrl) == Target(cancel) && !raises(r.ctrl))
            && (r.ClickedCenter? ==> r.ctrl in ctrls && NameOf(t, r.ctrl) == Target(cancel) && raises(r.ctrl)
                                     && RectOk(RectOf(t, r.ctrl), Bound) && r.at == Center(RectOf(t, r.ctrl).value))
            && ((forall k :: 0 <= k < |ctrls| ==> NameOf(t, ctrls[k]) != Target(cancel)) ==>
                  (r.AlreadyLiked? || r.NotFound?)
                  && (r.AlreadyLiked? <==> !cancel && exists k :: 0 <= k < |ctrls| && NameOf(t, ctrls[k]) == Cancel))
  {
  }

  /** The first control named the target whose click does not raise is the one clicked, when no earlier one was clickable. */
  lemma FirstTargetClicked(t: Tree, ctrls: seq<nat>, cancel: bool, raises: nat -> bool, i: nat)
    requires i < |ctrls| && NameOf(t, ctrls[i]) == Target(cancel) && !raises(ctrls[i])
    requires forall j :: 0 <= j < i ==> NameOf(t, ctrls[j]) != Target(cancel)
    ensures ClickFromControls(t, ctrls, cancel, raises) == Clicked(ctrls[i])
  {
    assert FirstClickable(t, ctrls, Target(cancel), raises) == Some(i);
  }

  // ---------------------------------------------------------------------------
  // open_more_and_probe and the demo loop
  // ---------------------------------------------------------------------------

  /**
   * What the desktop shows to attempt `k` of a run: the polls after the
   * "..." click, the snapshot the follow-up search reads, and which
   * controls' `Click()` raises.
   */
  datatype ProbeWorld = ProbeWorld(panelPolls: nat -> seq<Screen>, probeTree: nat -> Tree, raises: nat -> nat -> bool)

  /**
   * The answer of `open_more_and_probe`: the panel window and the labelled
   * controls inside it, or the labelled controls near the click inside the
   * moments window, or nothing; with the auto-click outcome when asked for.
   */
  datatype Probe =
    | ViaPanel(panel: nat, inner: seq<nat>, click: Option<ClickStatus>)
    | ViaScope(ctrls: seq<nat>, click: Option<ClickStatus>)
    | NoPanel

  function ScopeArg(p: Point): Near { Near(PanelLabels, false, Bound, p.x, p.y, ScopeRadius) }

  /** `open_more_and_probe` as a function of what attempt `k` sees. */
  function ProbeOf(w: ProbeWorld, sns: nat, auto: bool, k: nat, s: Sep): Probe {
    var p := Hotspot(s, RatioPercent, OffsetUp);
    var t := w.probeTree(k);
    match NearestPanel(w.panelPolls(k), p.x, p.y)
    case Some(panel) =>
      var inner := SearchAll(t, IsPanelLabel, (), panel, InnerMaxNodes, InnerMaxHits);
      ViaPanel(panel, inner, if auto then Some(ClickFromControls(t, inner, false, w.raises(k))) else None)
    case None =>
      var ctrls := SearchAll(t, NearLabel, ScopeArg(p), sns, ScopeMaxNodes, ScopeMaxHits);
      if ctrls == [] then NoPanel
      else ViaScope(ctrls, if auto then Some(ClickFromControls(t, ctrls, false, w.raises(k))) else None)
  }

  /**
   * `open_more_and_probe`: click the hotspot above the separator, look for a
   * panel window, and only when there is none search the moments window
   * near the click.
   */
  method OpenMoreAndProbe(w: ProbeWorld, sns: nat, auto: bool, k: nat, s: Sep) returns (r: Probe)
    ensures r == ProbeOf(w, sns, auto, k, s)
  {
    var p := Hotspot(s, RatioPercent, OffsetUp);
    var t := w.probeTree(k);
    var panel := FindPanelNearClick(w.panelPolls(k), p.x, p.y);
    if panel.Some? {
      var inner := FindAll(t, IsPanelLabel, (), panel.value, InnerMaxNodes, InnerMaxHits);
      var click := if auto then Some(ClickFromControls(t, inner, false, w.raises(k))) else None;
      return ViaPanel(panel.value, inner, click);
    }
    var ctrls := ControlsNear(t, sns, ScopeArg(p), ScopeMaxNodes, ScopeMaxHits);
    if ctrls == [] {
      return NoPanel;
    }
    var click := if auto then Some(ClickFromControls(t, ctrls, false, w.raises(k))) else None;
    return ViaScope(ctrls, click);
  }

  /**
   * The moments window is searched only when no panel window was found, and
   * the probe reports failure exactly when both searches came back empty.
   * Every control found in the moments window carries a label, has a valid
   * rectangle and lies within 300 of the click.
   */
  lemma ProbeOfSpec(w: ProbeWorld, sns: nat, auto: bool, k: nat, s: Sep)
    ensures var p := Hotspot(s, RatioPercent, OffsetUp);
            var r := ProbeOf(w, sns, auto, k, s);
            (r.ViaPanel? <==> NearestPanel(w.panelPolls(k), p.x, p.y).Some?)
            && (r.NoPanel? <==> NearestPanel(w.panelPolls(k), p.x, p.y).None?
                                && SearchAll(w.probeTree(k), NearLabel, ScopeArg(p), sns, ScopeMaxNodes, ScopeMaxHits) == [])
            && (r.ViaScope? ==> |r.ctrls| <= ScopeMaxHits
                                && forall j :: 0 <= j < |r.ctrls| ==>
                                     NameOf(w.probeTree(k), r.ctrls[j]) in PanelLabels
                                     && RectOk(RectOf(w.probeTree(k), r.ctrls[j]), Bound)
                                     && Within(RectOf(w.probeTree(k), r.ctrls[j]).value, p.x, p.y, ScopeRadius))
            && (!r.NoPanel? ==> (r.click.Some? <==> auto))
  {
    var p := Hotspot(s, RatioPercent, OffsetUp);
    SearchAllBounds(w.probeTree(k), NearLabel, ScopeArg(p), sns, ScopeMaxNodes, ScopeMaxHits);
  }

  predicate ProbeFound(w: ProbeWorld, sns: nat, auto: bool, k: nat, s: Sep) {
    !ProbeOf(w, sns, auto, k, s).NoPanel?
  }

  function ProbeAttempt(w: ProbeWorld, sns: nat, auto: bool): (nat, Sep) -> bool {
    (k: nat, s: Sep) => ProbeFound(w, sns, auto, k, s)
  }

  /** What the demo reads: the screen it finds the main window on, the tab search, the polls for the moments window, each page's snapshot and each probe's world. */
  datatype DemoWorld = DemoWorld(
    main: Screen,
    tabHit: Option<nat>,
    snsPolls: seq<Screen>,
    pageTree: nat -> Tree,
    probes: ProbeWorld)

  function PageSeps(w: DemoWorld, sns: nat): nat -> seq<Sep> {
    (p: nat) => SeparatorRows(w.pageTree(p), Rule, sns, SepMaxNodes, SepMaxHits)
  }

  /**
   * Where `demo` stops: no main window, no moments tab, the exception of
   * the tab fallback, no moments window, or after the page loop with the
   * count of probes that found something.
   */
  datatype DemoOutcome = NoMain | NoTab | TabRaised | NoSns | Handled(count: nat)

  /**
   * `demo(n, auto_click_like)`: find the main window (exact match only),
   * click the moments tab, wait for the moments window, then probe the
   * separators of at most five pages until `n` probes found something.
   */
  method Demo(w: DemoWorld, n: int, auto: bool) returns (o: DemoOutcome)
    ensures o == NoMain <==> Pick(w.main, IsExactMain, ()).None?
    ensures o == TabRaised <==> Pick(w.main, IsExactMain, ()).Some?
                                && TabToClick(w.main.tree, Pick(w.main, IsExactMain, ()).value, w.tabHit, true).Raised?
    ensures o == NoTab <==> Pick(w.main, IsExactMain, ()).Some?
                            && TabToClick(w.main.tree, Pick(w.main, IsExactMain, ()).value, w.tabHit, true) == Returned(None)
    ensures o == NoSns <==> Pick(w.main, IsExactMain, ()).Some?
                            && TabClicked(TabToClick(w.main.tree, Pick(w.main, IsExactMain, ()).value, w.tabHit, true))
                            && FirstPoll(w.snsPolls, IsSnsWindow, MomentsTitle).None?
    ensures o.Handled? ==> Pick(w.main, IsExactMain, ()).Some?
                           && TabClicked(TabToClick(w.main.tree, Pick(w.main, IsExactMain, ()).value, w.tabHit, true))
                           && FirstPoll(w.snsPolls, IsSnsWindow, MomentsTitle).Some?
    ensures o.Handled? ==>
              var sns := FirstPoll(w.snsPolls, IsSnsWindow, MomentsTitle).value;
              o.count == Run(DemoPages, n, PageSeps(w, sns), ProbeAttempt(w.probes, sns, auto)).success
              && o.count <= Max0(n)
  {
    var main := FindMainExact(w.main, false);
    if main.None? {
      return NoMain;
    }
    var tab := TabToClick(w.main.tree, main.value, w.tabHit, true);
    if tab.Raised? {
      return TabRaised;
    }
    if tab.value.None? {
      return NoTab;
    }
    var sns := WaitWindow(w.snsPolls, IsSnsWindow, MomentsTitle);
    if sns.None? {
      return NoSns;
    }
    var handled := HandlePages(w, sns.value, n, auto, PageSeps(w, sns.value), ProbeAttempt(w.probes, sns.value, auto));
    RunCounters(DemoPages, n, PageSeps(w, sns.value), ProbeAttempt(w.probes, sns.value, auto));
    return Handled(handled);
  }

  /**
   * The page loop of `demo`. `sepsOf` and `attempt` stand for the separator
   * search of a page and the outcome of a probe; the loop sees them only
   * through these names.
   */
  method HandlePages(w: DemoWorld, sns: nat, n: int, auto: bool, ghost sepsOf: nat -> seq<Sep>, ghost attempt: (nat, Sep) -> bool)
    returns (handled: nat)
    requires forall p {:trigger SeparatorRows(w.pageTree(p), Rule, sns, SepMaxNodes, SepMaxHits)} :: sepsOf(p) == SeparatorRows(w.pageTree(p), Rule, sns, SepMaxNodes, SepMaxHits)
    requires forall k, s {:trigger ProbeFound(w.probes, sns, auto, k, s)} :: attempt(k, s) == ProbeFound(w.probes, sns, auto, k, s)
    ensures handled == Run(DemoPages, n, sepsOf, attempt).success
  {
    ghost var goal := Run(DemoPages, n, sepsOf, attempt);
    handled := 0;
    var tried: nat := 0;  // the attempt number, which selects what the desktop shows
    ghost var pages: nat, attempts: seq<Sep> := 0, [];
    var page: nat := 0;
    while page < DemoPages
      invariant PagesFrom(page, DemoPages, n, sepsOf, attempt, Tally(handled, tried, pages, attempts)) == goal
      decreases DemoPages - page
    {
      PagesFromStep(page, DemoPages, n, sepsOf, attempt, Tally(handled, tried, pages, attempts));
      var seps := ScanPage(w.pageTree, Rule, sns, SepMaxNodes, SepMaxHits, page, sepsOf);
      pages := pages + 1;
      if seps == [] {
        page := page + 1;
        continue;
      }
      handled, tried, attempts := ProbePage(w, sns, n, auto, seps, handled, tried, pages, attempts, attempt);
      if handled >= n {
        break;
      }
      page := page + 1;
    }
  }

  /** `open_more_and_probe` on separator `s`, reporting whether it found something. */
  method ProbeOne(w: DemoWorld, sns: nat, auto: bool, k: nat, s: Sep, ghost attempt: (nat, Sep) -> bool) returns (ok: bool)
    requires forall k, s {:trigger ProbeFound(w.probes, sns, auto, k, s)} :: attempt(k, s) == ProbeFound(w.probes, sns, auto, k, s)
    ensures ok == attempt(k, s)
  {
    var r := OpenMoreAndProbe(w.probes, sns, auto, k, s);
    assert r == ProbeOf(w.probes, sns, auto, k, s);
    assert ProbeFound(w.probes, sns, auto, k, s) == !r.NoPanel?;
    ok := !r.NoPanel?;
  }

  /** The separator loop of one page: probe the separators in order while fewer than `n` probes found something. */
  method ProbePage(w: DemoWorld, sns: nat, n: int, auto: bool, seps: seq<Sep>,
                   handled0: nat, tried0: nat, ghost pages: nat, ghost attempts0: seq<Sep>, ghost attempt: (nat, Sep) -> bool)
    returns (handled: nat, tried: nat, ghost attempts: seq<Sep>)
    requires forall k, s {:trigger ProbeFound(w.probes, sns, auto, k, s)} :: attempt(k, s) == ProbeFound(w.probes, sns, auto, k, s)
    ensures Tally(handled, tried, pages, attempts) == SepsFrom(seps, 0, n, attempt, Tally(handled0, tried0, pages, attempts0))
  {
    handled, tried, attempts := handled0, tried0, attempts0;
    var i := 0;
    while i < |seps| && handled < n
      invariant i <= |seps|
      invariant SepsFrom(seps, i, n, attempt, Tally(handled, tried, pages, attempts))
             == SepsFrom(seps, 0, n, attempt, Tally(handled0, tried0, pages, attempts0))
      decreases |seps| - i
    {
      var ok := ProbeOne(w, sns, auto, tried, seps[i], attempt);
      attempts := attempts + [seps[i]];
      if ok {
        handled := handled + 1;
      }
      tried := tried + 1;
      i := i + 1;
    }
  }
}
