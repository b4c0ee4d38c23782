/**
 * The demo script `demo_Friend_3.py`: like the first `n` posts of the
 * moments window, using the separator cells as anchors. Its rectangle bound
 * is 10000, its separators are at least 300 wide, and the proximity search
 * and its verification use a radius of 340 and exact (unstripped) names.
 */
module DemoFriend {
  import opened Text
  import opened Geometry
  import opened UiTree
  import opened Bfs
  import opened Anchors
  import opened Paging
  import opened Desktop

  const Bound := 10000
  const Rule := SepRule(Some(10000), 300, 3)
  const SepMaxNodes := 260000
  const SepMaxHits := 1800
  const NearMaxNodes := 200000
  const NearMaxHits := 80
  const Radius := 340
  const RatioPercent := 92
  const OffsetUp := 16
  const MaxPages := 10

  const Like := "赞"
  const Cancel := "取消"
  const Comment := "评论"

  function NearArg(p: Point): Near { Near([Like, Cancel, Comment], false, Bound, p.x, p.y, Radius) }

  /** The status line of `like_one_by_separator`. */
  datatype LikeStatus =
    | NoLikeButton(hits: nat)    // panel_found_but_no_like_btn (hits=...)
    | RectInvalid                // like_btn_rect_invalid
    | Liked(why: Verdict)        // liked_ + reason
    | NotVerified(why: Verdict)  // clicked_but_not_verified_ + reason

  /** What the desktop shows to attempt `k`: the snapshot searched after the "..." click, and the snapshots the verification polls. */
  datatype AttemptWorld = AttemptWorld(panelTree: nat -> Tree, verifyPolls: nat -> seq<Tree>)

  /** `like_one_by_separator` as a function of what attempt `k` sees. */
  function LikeOne(w: AttemptWorld, sns: nat, k: nat, s: Sep): LikeStatus {
    var a := NearArg(Hotspot(s, RatioPercent, OffsetUp));
    var t := w.panelTree(k);
    var ctrls := SearchAll(t, NearLabel, a, sns, NearMaxNodes, NearMaxHits);
    match PickButton(t, ctrls, Like)
    case None => NoLikeButton(|ctrls|)
    case Some(b) =>
      if CenterClick(t, b, Bound).None? then RectInvalid
      else
        var v := FirstVerdict(w.verifyPolls(k), sns, a, NearMaxNodes, NearMaxHits, Like, Cancel);
        if v != VerifyTimeout then Liked(v) else NotVerified(v)
  }

  /**
   * `like_one_by_separator`: click the hotspot, search near it, pick the
   * like button, click its centre, verify.
   */
  method LikeOneBySeparator(w: AttemptWorld, sns: nat, k: nat, s: Sep) returns (ok: bool, status: LikeStatus)
    ensures status == LikeOne(w, sns, k, s)
    ensures ok <==> status.Liked?
  {
    var a := NearArg(Hotspot(s, RatioPercent, OffsetUp));
    var t := w.panelTree(k);
    var ctrls := ControlsNear(t, sns, a, NearMaxNodes, NearMaxHits);
    var btn := PickButton(t, ctrls, Like);
    if btn.None? {
      return false, NoLikeButton(|ctrls|);
    }
    if CenterClick(t, btn.value, Bound).None? {
      return false, RectInvalid;
    }
    var v := VerifyPolls(w.verifyPolls(k), sns, a, NearMaxNodes, NearMaxHits, Like, Cancel);
    ok := v != VerifyTimeout;
    status := if ok then Liked(v) else NotVerified(v);
  }

  /**
   * The two early answers come without a verification: no like button
   * among the controls found near the click, or a like button with an
   * invalid rectangle (then nothing is clicked). Otherwise the centre of the
   * like button was clicked and the status carries the verification's
   * reason: "liked" for a cancel label or a vanished like label, "not
   * verified" exactly for a timeout, which happens only when every poll
   * still showed like and no cancel.
   */
  lemma LikeOneSpec(w: AttemptWorld, sns: nat, k: nat, s: Sep)
    ensures var a := NearArg(Hotspot(s, RatioPercent, OffsetUp));
            var t := w.panelTree(k);
            var ctrls := SearchAll(t, NearLabel, a, sns, NearMaxNodes, NearMaxHits);
            var st := LikeOne(w, sns, k, s);
            (st.NoLikeButton? <==> forall j :: 0 <= j < |ctrls| ==> NameOf(t, ctrls[j]) != Like)
            && (st.NoLikeButton? ==> st.hits == |ctrls| && st.hits <= NearMaxHits)
            && (st.RectInvalid? ==> exists j :: 0 <= j < |ctrls| && NameOf(t, ctrls[j]) == Like && !RectOk(RectOf(t, ctrls[j]), Bound))
            && (st.Liked? ==> st.why != VerifyTimeout)
            && ((st.Liked? || st.NotVerified?) ==>
                  (st.NotVerified? <==> forall i :: 0 <= i < |w.verifyPolls(k)| ==>
                    var names := PollNames(w.verifyPolls(k)[i], sns, a, NearMaxNodes, NearMaxHits);
                    Like in names && Cancel !in names))
            && (st.NotVerified? ==> st.why == VerifyTimeout)
  {
    var a := NearArg(Hotspot(s, RatioPercent, OffsetUp));
    var t := w.panelTree(k);
    var ctrls := SearchAll(t, NearLabel, a, sns, NearMaxNodes, NearMaxHits);
    SearchAllBounds(t, NearLabel, a, sns, NearMaxNodes, NearMaxHits);
    TimeoutIffNoPollDecides(w.verifyPolls(k), sns, a, NearMaxNodes, NearMaxHits, Like, Cancel);
    var b := PickButton(t, ctrls, Like);
    if b.Some? {
      var j :| 0 <= j < |ctrls| && ctrls[j] == b.value;
    }
  }

  predicate LikeSucceeds(w: AttemptWorld, sns: nat, k: nat, s: Sep) {
    LikeOne(w, sns, k, s).Liked?
  }

  function Attempt(w: AttemptWorld, sns: nat): (nat, Sep) -> bool {
    (k: nat, s: Sep) => LikeSucceeds(w, sns, k, s)
  }

  /** What the script reads: the screen it finds the main window on, the tab search, the polls for the moments window, each page's snapshot and each attempt's world. */
  datatype DemoWorld = DemoWorld(
    main: Screen,
    tabHit: Option<nat>,
    snsPolls: seq<Screen>,
    pageTree: nat -> Tree,
    attempts: AttemptWorld)

  function PageSeps(w: DemoWorld, sns: nat): nat -> seq<Sep> {
    (p: nat) => SeparatorRows(w.pageTree(p), Rule, sns, SepMaxNodes, SepMaxHits)
  }

  /** Where `like_first_n_posts` stops: no main window, no moments tab, no moments window, or after the page loop with its counters. */
  datatype DemoOutcome = NoMain | NoTab | NoSns | Done(success: nat, tried: nat)

  /** The main window `find_wechat_main` returns: an exact match, else a window whose title mentions WeChat. */
  function MainOf(s: Screen): Option<nat> {
    if Pick(s, IsExactMain, ()).Some? then Pick(s, IsExactMain, ()) else Pick(s, IsFuzzyMain, ())
  }

  /**
   * `like_first_n_posts(n)`: find the main window, click the moments tab
   * (no fallback in this file), wait for the moments window, then attempt
   * the separators of at most ten pages until `n` attempts were verified.
   */
  method LikeFirstNPosts(w: DemoWorld, n: int) returns (o: DemoOutcome)
    ensures o == NoMain <==> MainOf(w.main).None?
    ensures o == NoTab <==> MainOf(w.main).Some? && w.tabHit.None?
    ensures o == NoSns <==> MainOf(w.main).Some? && w.tabHit.Some? && FirstPoll(w.snsPolls, IsSnsWindow, MomentsTitle).None?
    ensures o.Done? ==> FirstPoll(w.snsPolls, IsSnsWindow, MomentsTitle).Some?
    ensures o.Done? ==>
              var sns := FirstPoll(w.snsPolls, IsSnsWindow, MomentsTitle).value;
              var r := Run(MaxPages, n, PageSeps(w, sns), Attempt(w.attempts, sns));
              o.success == r.success && o.tried == r.tried
    ensures o.Done? ==> o.success <= Max0(n) && o.success <= o.tried
  {
    var main := FindMainExact(w.main, true);
    if main.None? {
      return NoMain;
    }
    if TabToClick(w.main.tree, main.value, w.tabHit, false) == Returned(None) {
      return NoTab;
    }
    var sns := WaitWindow(w.snsPolls, IsSnsWindow, MomentsTitle);
    if sns.None? {
      return NoSns;
    }
    var success, tried := RunPages(w, sns.value, n, PageSeps(w, sns.value), Attempt(w.attempts, sns.value));
    RunCounters(MaxPages, n, PageSeps(w, sns.value), Attempt(w.attempts, sns.value));
    return Done(success, tried);
  }

  /**
   * The page loop of `like_first_n_posts`. `sepsOf` and `attempt` stand for
   * the separator search of a page and the outcome of an attempt; the loop
   * sees them only through these names.
   */
  method RunPages(w: DemoWorld, sns: nat, n: int, ghost sepsOf: nat -> seq<Sep>, ghost attempt: (nat, Sep) -> bool)
    returns (success: nat, tried: nat)
    requires forall p {:trigger SeparatorRows(w.pageTree(p), Rule, sns, SepMaxNodes, SepMaxHits)} :: sepsOf(p) == SeparatorRows(w.pageTree(p), Rule, sns, SepMaxNodes, SepMaxHits)
    requires forall k, s {:trigger LikeSucceeds(w.attempts, sns, k, s)} :: attempt(k, s) == LikeSucceeds(w.attempts, sns, k, s)
    ensures var r := Run(MaxPages, n, sepsOf, attempt);
            success == r.success && tried == r.tried
  {
    ghost var goal := Run(MaxPages, n, sepsOf, attempt);
    success, tried := 0, 0;
    ghost var pages: nat, attempts: seq<Sep> := 0, [];
    var page: nat := 0;
    while page < MaxPages
      invariant PagesFrom(page, MaxPages, n, sepsOf, attempt, Tally(success, tried, pages, attempts)) == goal
      decreases MaxPages - page
    {
      PagesFromStep(page, MaxPages, n, sepsOf, attempt, Tally(success, tried, pages, attempts));
      var seps := ScanPage(w.pageTree, Rule, sns, SepMaxNodes, SepMaxHits, page, sepsOf);
      pages := pages + 1;
      if seps == [] {
        page := page + 1;
        continue;
      }
      success, tried, attempts := AttemptPage(w, sns, n, seps, success, tried, pages, attempts, attempt);
      if success >= n {
        break;
      }
      page := page + 1;
    }
  }

  /** `like_one_by_separator` on separator `s`, reporting whether it was verified. */
  method TryLike(w: DemoWorld, sns: nat, k: nat, s: Sep, ghost attempt: (nat, Sep) -> bool) returns (ok: bool)
    requires forall k, s {:trigger LikeSucceeds(w.attempts, sns, k, s)} :: attempt(k, s) == LikeSucceeds(w.attempts, sns, k, s)
    ensures ok == attempt(k, s)
  {
    var status;
    ok, status := LikeOneBySeparator(w.attempts, sns, k, s);
    assert LikeSucceeds(w.attempts, sns, k, s) == ok;
  }

  /** The separator loop of one page: attempt the separators in order while fewer than `n` were verified. */
  method AttemptPage(w: DemoWorld, sns: nat, n: int, seps: seq<Sep>,
                     success0: nat, tried0: nat, ghost pages: nat, ghost attempts0: seq<Sep>, ghost attempt: (nat, Sep) -> bool)
    returns (success: nat, tried: nat, ghost attempts: seq<Sep>)
    requires forall k, s {:trigger LikeSucceeds(w.attempts, sns, k, s)} :: attempt(k, s) == LikeSucceeds(w.attempts, sns, k, s)
    ensures Tally(success, tried, pages, attempts) == SepsFrom(seps, 0, n, attempt, Tally(success0, tried0, pages, attempts0))
  {
    success, tried, attempts := success0, tried0, attempts0;
    var i := 0;
    while i < |seps| && success < n
      invariant i <= |seps|
      invariant SepsFrom(seps, i, n, attempt, Tally(success, tried, pages, attempts))
             == SepsFrom(seps, 0, n, attempt, Tally(success0, tried0, pages, attempts0))
      decreases |seps| - i
    {
      var ok := TryLike(w, sns, tried, seps[i], attempt);
      attempts := attempts + [seps[i]];
      if ok {
        success := success + 1;
      }
      tried := tried + 1;
      i := i + 1;
    }
  }

  /** `find_wechat_main` never prefers a fuzzy title match to an exact main window. */
  lemma ExactMainFirst(s: Screen)
    ensures Pick(s, IsExactMain, ()).Some? ==> MainOf(s) == Pick(s, IsExactMain, ())
    ensures MainOf(s).Some? ==> KindOf(s.tree, MainOf(s).value) == WindowControl
                                && ((ClassOf(s.tree, MainOf(s).value) == MainWindowClass && NameOf(s.tree, MainOf(s).value) == WeChatTitle)
                                    || Contains(NameOf(s.tree, MainOf(s).value), WeChatTitle)
                                    || Contains(NameOf(s.tree, MainOf(s).value), WeChatLatin))
  {
  }
}
