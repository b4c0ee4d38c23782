/**
 * Liking in `wxauto4/moment.py`: `Moment.LikeLatest` and the steps it is
 * built from (`_find_sns_window`, `_find_comment_separators`,
 * `_click_more_hotspot`, `_find_like_panel_controls_near`,
 * `_pick_like_button`, `_click_control_center_win32`,
 * `_verify_after_like`), the button search of `MomentActionMenu`, and the
 * checks `MomentCommentDialog.send` makes before it types.
 *
 * The desktop changes while the method runs (it clicks and scrolls). A
 * `LikeWorld` fixes what each read sees: the screens polled for the moments
 * window, the snapshot each page's separator search reads, the snapshot the
 * proximity search of attempt `k` reads after its hotspot click, and the
 * snapshots the verification of attempt `k` polls.
 */
module MomentLike {
  import opened Text
  import opened Geometry
  import opened UiTree
  import opened Bfs
  import opened Anchors
  import opened Paging
  import opened Desktop
  import opened MomentText

  const Bound := 100000
  const Rule := SepRule(Some(100000), 280, 3)
  const SepMaxNodes := 260000
  const SepMaxHits := 2000
  const NearMaxNodes := 200000
  const NearMaxHits := 80
  const Radius := 340
  const RatioPercent := 92
  const OffsetUp := 16

  const CancelKey := "取消"
  const MomentsKey := "朋友圈"
  const SendKey := "发送"

  /** The labels the proximity search accepts: like, cancel, comment. */
  function Labels(cfg: Config): seq<string> { [Lang(cfg, LikeKey), Lang(cfg, CancelKey), Lang(cfg, "评论")] }

  /** The proximity search around a click point, with stripped names and the library's bound and radius. */
  function NearArg(cfg: Config, p: Point): Near { Near(Labels(cfg), true, Bound, p.x, p.y, Radius) }

  /** The label clicked: cancel when un-liking, like otherwise. */
  function Target(cfg: Config, cancel: bool): string { if cancel then Lang(cfg, CancelKey) else Lang(cfg, LikeKey) }

  datatype LikeWorld = LikeWorld(
    screens: seq<Screen>,
    pageTree: nat -> Tree,
    panelTree: nat -> Tree,
    verifyPolls: nat -> seq<Tree>)

  /** `_find_sns_window`: the moments window of the first poll that lists one. */
  function SnsWindow(cfg: Config, screens: seq<Screen>): Option<nat> {
    FirstPoll(screens, IsSnsWindow, Lang(cfg, MomentsKey))
  }

  /** The separators page `p` shows. */
  function PageSeps(w: LikeWorld, sns: nat): nat -> seq<Sep> {
    (p: nat) => SeparatorRows(w.pageTree(p), Rule, sns, SepMaxNodes, SepMaxHits)
  }

  /**
   * Attempt `k` on separator `s` counts when a target button is found near
   * the hotspot, its rectangle is valid (so it is clicked), and a
   * verification poll then decides.
   */
  predicate AttemptSucceeds(cfg: Config, w: LikeWorld, sns: nat, cancel: bool, k: nat, s: Sep) {
    var a := NearArg(cfg, Hotspot(s, RatioPercent, OffsetUp));
    var t := w.panelTree(k);
    var btn := PickButton(t, SearchAll(t, NearLabel, a, sns, NearMaxNodes, NearMaxHits), Target(cfg, cancel));
    btn.Some? && CenterClick(t, btn.value, Bound).Some?
    && FirstVerdict(w.verifyPolls(k), sns, a, NearMaxNodes, NearMaxHits, Lang(cfg, LikeKey), Lang(cfg, CancelKey)) != VerifyTimeout
  }

  function Attempt(cfg: Config, w: LikeWorld, sns: nat, cancel: bool): (nat, Sep) -> bool {
    (k: nat, s: Sep) => AttemptSucceeds(cfg, w, sns, cancel, k, s)
  }

  /**
   * One separator of `LikeLatest`: click the hotspot, search near it, pick
   * the target button, click its centre, verify. Any step that finds nothing
   * ends the attempt.
   */
  method TryLike(cfg: Config, w: LikeWorld, sns: nat, cancel: bool, k: nat, s: Sep) returns (ok: bool)
    ensures ok == AttemptSucceeds(cfg, w, sns, cancel, k, s)
  {
    var p := Hotspot(s, RatioPercent, OffsetUp);
    var a := NearArg(cfg, p);
    var t := w.panelTree(k);
    var ctrls := ControlsNear(t, sns, a, NearMaxNodes, NearMaxHits);
    var btn := PickButton(t, ctrls, Target(cfg, cancel));
    if btn.None? {
      return false;
    }
    if CenterClick(t, btn.value, Bound).None? {
      return false;
    }
    var v := VerifyPolls(w.verifyPolls(k), sns, a, NearMaxNodes, NearMaxHits, Lang(cfg, LikeKey), Lang(cfg, CancelKey));
    ok := v != VerifyTimeout;
  }

  /** What `LikeLatest` reports: no moments window, or the counters of the run (a failure when nothing succeeded). */
  datatype LikeOutcome = NoSnsWindow | Finished(success: nat, tried: nat)

  predicate IsFailure(o: LikeOutcome) { o.NoSnsWindow? || o.success <= 0 }

  /**
   * `LikeLatest(n, cancel, max_pages)`: find the moments window, then run
   * the page loop over the separators, attempting each until `n` attempts
   * succeeded.
   */
  method LikeLatest(cfg: Config, w: LikeWorld, n: int, cancel: bool, maxPages: int) returns (o: LikeOutcome)
    ensures o.NoSnsWindow? <==> SnsWindow(cfg, w.screens).None?
    ensures o.Finished? ==>
              var r := Run(maxPages, n, PageSeps(w, SnsWindow(cfg, w.screens).value), Attempt(cfg, w, SnsWindow(cfg, w.screens).value, cancel));
              o.success == r.success && o.tried == r.tried
    ensures o.Finished? ==> o.success <= Max0(n) && o.success <= o.tried
  {
    var found := WaitWindow(w.screens, IsSnsWindow, Lang(cfg, MomentsKey));
    if found.None? {
      return NoSnsWindow;
    }
    var sns := found.value;
    var success, tried := RunPages(cfg, w, sns, n, cancel, maxPages, PageSeps(w, sns), Attempt(cfg, w, sns, cancel));
    RunCounters(maxPages, n, PageSeps(w, sns), Attempt(cfg, w, sns, cancel));
    return Finished(success, tried);
  }

  /**
   * The page loop of `LikeLatest` once the moments window `sns` is known.
   * `sepsOf` and `attempt` stand for the separator search of a page and the
   * outcome of an attempt in this world; the page loop sees them only
   * through these names, so its proof does not unfold the searches.
   */
  method RunPages(cfg: Config, w: LikeWorld, sns: nat, n: int, cancel: bool, maxPages: int,
                  ghost sepsOf: nat -> seq<Sep>, ghost attempt: (nat, Sep) -> bool)
    returns (success: nat, tried: nat)
    requires forall p {:trigger SeparatorRows(w.pageTree(p), Rule, sns, SepMaxNodes, SepMaxHits)} :: sepsOf(p) == SeparatorRows(w.pageTree(p), Rule, sns, SepMaxNodes, SepMaxHits)
    requires forall k, s {:trigger AttemptSucceeds(cfg, w, sns, cancel, k, s)} :: attempt(k, s) == AttemptSucceeds(cfg, w, sns, cancel, k, s)
    ensures var r := Run(maxPages, n, sepsOf, attempt);
            success == r.success && tried == r.tried
  {
    ghost var goal := Run(maxPages, n, sepsOf, attempt);
    success, tried := 0, 0;
    ghost var pages: nat, attempts: seq<Sep> := 0, [];
    var page: nat := 0;
    while page < maxPages
      invariant PagesFrom(page, maxPages, n, sepsOf, attempt, Tally(success, tried, pages, attempts)) == goal
      decreases maxPages - page
    {
      PagesFromStep(page, maxPages, n, sepsOf, attempt, Tally(success, tried, pages, attempts));
      var seps := ScanPage(w.pageTree, Rule, sns, SepMaxNodes, SepMaxHits, page, sepsOf);
      pages := pages + 1;
      if seps == [] {
        page := page + 1;
        continue;
      }
      success, tried, attempts := AttemptPage(cfg, w, sns, cancel, n, seps, success, tried, pages, attempts, attempt);
      if success >= n {
        break;
      }
      page := page + 1;
    }
  }

  /** `TryLike`, reported through the name the page loop uses for it. */
  method TryLikeAs(cfg: Config, w: LikeWorld, sns: nat, cancel: bool, k: nat, s: Sep, ghost attempt: (nat, Sep) -> bool) returns (ok: bool)
    requires forall k, s {:trigger AttemptSucceeds(cfg, w, sns, cancel, k, s)} :: attempt(k, s) == AttemptSucceeds(cfg, w, sns, cancel, k, s)
    ensures ok == attempt(k, s)
  {
    ok := TryLike(cfg, w, sns, cancel, k, s);
  }

  /** The separator loop of one page: attempt the separators in order while fewer than `n` succeeded. */
  method AttemptPage(cfg: Config, w: LikeWorld, sns: nat, cancel: bool, n: int, seps: seq<Sep>,
                     success0: nat, tried0: nat, ghost pages: nat, ghost attempts0: seq<Sep>, ghost attempt: (nat, Sep) -> bool)
    returns (success: nat, tried: nat, ghost attempts: seq<Sep>)
    requires forall k, s {:trigger AttemptSucceeds(cfg, w, sns, cancel, k, s)} :: attempt(k, s) == AttemptSucceeds(cfg, w, sns, cancel, k, s)
    ensures Tally(success, tried, pages, attempts) == SepsFrom(seps, 0, n, attempt, Tally(success0, tried0, pages, attempts0))
  {
    success, tried, attempts := success0, tried0, attempts0;
    var i := 0;
    while i < |seps| && success < n
      invariant i <= |seps|
      invariant SepsFrom(seps, i, n, attempt, Tally(success, tried, pages, attempts))
             == SepsFrom(seps, 0, n, attempt, Tally(success0, tried0, pages, attempts0))
      decreases |seps| - i
    {
      var ok := TryLikeAs(cfg, w, sns, cancel, tried, seps[i], attempt);
      attempts := attempts + [seps[i]];
      if ok {
        success := success + 1;
      }
      tried := tried + 1;
      i := i + 1;
    }
  }

  /** `LikeLatest` reports a failure exactly when no attempt succeeded: with a window, that is when no attempt of the run passed its verification. */
  lemma LikeLatestFailure(cfg: Config, w: LikeWorld, n: int, cancel: bool, maxPages: int)
    requires SnsWindow(cfg, w.screens).Some?
    ensures var sns := SnsWindow(cfg, w.screens).value;
            var r := Run(maxPages, n, PageSeps(w, sns), Attempt(cfg, w, sns, cancel));
            IsFailure(Finished(r.success, r.tried))
            <==> forall k :: 0 <= k < |r.attempts| ==> !AttemptSucceeds(cfg, w, sns, cancel, k, r.attempts[k])
  {
    var sns := SnsWindow(cfg, w.screens).value;
    var attempt := Attempt(cfg, w, sns, cancel);
    var r := Run(maxPages, n, PageSeps(w, sns), attempt);
    RunCounters(maxPages, n, PageSeps(w, sns), attempt);
    if forall k :: 0 <= k < |r.attempts| ==> !AttemptSucceeds(cfg, w, sns, cancel, k, r.attempts[k]) {
      VerifiedNone(attempt, r.attempts);
    } else {
      var k :| 0 <= k < |r.attempts| && AttemptSucceeds(cfg, w, sns, cancel, k, r.attempts[k]);
      VerifiedSome(attempt, r.attempts, k);
    }
  }

  /** Any attempt that succeeded makes the count positive. */
  lemma {:induction false} VerifiedSome<S>(attempt: (nat, S) -> bool, xs: seq<S>, k: nat)
    requires k < |xs| && attempt(k, xs[k])
    ensures Verified(attempt, xs) > 0
  {
    if k < |xs| - 1 {
      VerifiedSome(attempt, xs[..|xs| - 1], k);
    }
  }

  /** The button `LikeLatest` clicks carries the target label: 取消 when un-liking, 赞 otherwise; none exactly when no control found carries it. */
  lemma PickedIsTarget(cfg: Config, t: Tree, ctrls: seq<nat>, cancel: bool)
    ensures var b := PickButton(t, ctrls, Target(cfg, cancel));
            (b.Some? ==> NameOf(t, b.value) == (if cancel then Lang(cfg, CancelKey) else Lang(cfg, LikeKey)))
            && (b.None? <==> forall k :: 0 <= k < |ctrls| ==> NameOf(t, ctrls[k]) != Target(cfg, cancel))
  {
  }

  // ---------------------------------------------------------------------------
  // MomentActionMenu
  // ---------------------------------------------------------------------------

  /** A child button whose name is one of `names`. */
  predicate IsNamedButton(t: Tree, names: seq<string>, c: nat) {
    KindOf(t, c) == ButtonControl && NameOf(t, c) in names
  }

  /**
   * The loop of `_find_button` over `children`: it reads each child's
   * `ControlTypeName` outside any `try`, so a vanished child raises unless a
   * matching button comes before it; otherwise the first button named one
   * of `names`, or nothing.
   */
  function ButtonAmong(t: Tree, names: seq<string>, cs: seq<nat>): (r: Call<Option<nat>>)
    ensures r == Returned(None) <==> forall j :: 0 <= j < |cs| ==> Exists(t, cs[j]) && !IsNamedButton(t, names, cs[j])
    ensures r.Raised? ==> exists i :: 0 <= i < |cs| && !Exists(t, cs[i])
                                      && forall j :: 0 <= j < i ==> Exists(t, cs[j]) && !IsNamedButton(t, names, cs[j])
    ensures r.Returned? && r.value.Some? ==>
              exists i :: 0 <= i < |cs| && cs[i] == r.value.value && IsNamedButton(t, names, cs[i])
                          && forall j :: 0 <= j < i ==> Exists(t, cs[j]) && !IsNamedButton(t, names, cs[j])
  {
    if cs == [] then Returned(None)
    else if !Exists(t, cs[0]) then Raised
    else if IsNamedButton(t, names, cs[0]) then Returned(Some(cs[0]))
    else
      var r := ButtonAmong(t, names, cs[1..]);
      assert forall i :: 1 <= i < |cs| ==> cs[i] == cs[1..][i - 1];
      r
  }

  /**
   * `_find_button(names)`: nothing without a menu window; otherwise the
   * loop over its children (a failed enumeration gives no children).
   */
  method FindButton(t: Tree, menu: Option<nat>, names: seq<string>) returns (r: Call<Option<nat>>)
    ensures menu.None? ==> r == Returned(None)
    ensures menu.Some? ==> r == ButtonAmong(t, names, ChildrenOrEmpty(t, menu.value))
  {
    if menu.None? {
      return Returned(None);
    }
    var cs := ChildrenOrEmpty(t, menu.value);
    var i := 0;
    while i < |cs|
      invariant i <= |cs|
      invariant ButtonAmong(t, names, cs[i..]) == ButtonAmong(t, names, cs)
    {
      assert cs[i..][1..] == cs[i + 1..];
      var child := cs[i];
      if !Exists(t, child) {
        return Raised;
      }
      if KindOf(t, child) == ButtonControl && NameOf(t, child) in names {
        return Returned(Some(child));
      }
      i := i + 1;
    }
    return Returned(None);
  }

  /** The names `like(cancel)` looks for: `[like]`, or `[cancel, like]` when cancelling. */
  function LikeNames(cfg: Config, cancel: bool): seq<string> {
    if cancel then [Lang(cfg, CancelKey), Lang(cfg, LikeKey)] else [Lang(cfg, LikeKey)]
  }

  /**
   * `MomentActionMenu.like(cancel)`: the button clicked, None for the
   * failure "no like button", or the raise of a vanished child read before
   * any like button.
   */
  method MenuLike(cfg: Config, t: Tree, menu: Option<nat>, cancel: bool) returns (clicked: Call<Option<nat>>)
    ensures menu.None? ==> clicked == Returned(None)
    ensures clicked.Returned? && clicked.value.Some? ==>
              menu.Some? && clicked.value.value in ChildrenOrEmpty(t, menu.value)
              && KindOf(t, clicked.value.value) == ButtonControl && NameOf(t, clicked.value.value) in LikeNames(cfg, cancel)
    ensures menu.Some? ==>
              var cs := ChildrenOrEmpty(t, menu.value);
              (clicked == Returned(None) <==> forall j :: 0 <= j < |cs| ==> Exists(t, cs[j]) && !IsNamedButton(t, LikeNames(cfg, cancel), cs[j]))
              && (clicked.Raised? <==> exists i :: 0 <= i < |cs| && !Exists(t, cs[i])
                                                   && forall j :: 0 <= j < i ==> !IsNamedButton(t, LikeNames(cfg, cancel), cs[j]))
  {
    clicked := FindButton(t, menu, LikeNames(cfg, cancel));
    if menu.Some? {
      var cs := ChildrenOrEmpty(t, menu.value);
      var names := LikeNames(cfg, cancel);
      if clicked.Returned? && clicked.value.Some? {
        var i :| 0 <= i < |cs| && cs[i] == clicked.value.value && IsNamedButton(t, names, cs[i])
                 && forall j :: 0 <= j < i ==> Exists(t, cs[j]) && !IsNamedButton(t, names, cs[j]);
      }
    }
  }

  /**
   * The order of the names does not rank them: the first matching child
   * wins. In particular `like(cancel=True)` on a menu whose first matching
   * button is the like button clicks it, even when a cancel button follows.
   */
  lemma CancelClicksFirstMatch(cfg: Config, t: Tree, cs: seq<nat>, cancel: bool, j: nat)
    requires j < |cs| && IsNamedButton(t, LikeNames(cfg, cancel), cs[j])
    requires forall i :: 0 <= i < j ==> Exists(t, cs[i]) && !IsNamedButton(t, LikeNames(cfg, cancel), cs[i])
    ensures ButtonAmong(t, LikeNames(cfg, cancel), cs) == Returned(Some(cs[j]))
  {
  }

  // ---------------------------------------------------------------------------
  // MomentCommentDialog
  // ---------------------------------------------------------------------------

  /** `_init_controls`: the edit box and the send button among the dialog's children. */
  datatype DialogControls = DialogControls(edit: Option<nat>, sendButton: Option<nat>)

  predicate IsSendButton(t: Tree, sendLabel: string, c: nat) {
    KindOf(t, c) == ButtonControl && NameOf(t, c) == sendLabel
  }

  /**
   * `_init_controls`: the edit box is the first edit child (it is only set
   * while still unset), the send button the last button labelled `sendLabel`
   * (each one overwrites the previous). The loop reads every child's
   * `ControlTypeName` outside any `try`, so a vanished child raises out of
   * the dialog's constructor.
   */
  method InitControls(t: Tree, dialog: nat, sendLabel: string) returns (r: Call<DialogControls>)
    ensures var cs := ChildrenOrEmpty(t, dialog);
            r.Raised? <==> exists j :: 0 <= j < |cs| && !Exists(t, cs[j])
    ensures r.Returned? ==>
            var cs := ChildrenOrEmpty(t, dialog);
            var d := r.value;
            (d.edit.None? <==> forall j :: 0 <= j < |cs| ==> KindOf(t, cs[j]) != EditControl)
            && (d.edit.Some? ==> exists i :: 0 <= i < |cs| && cs[i] == d.edit.value && KindOf(t, cs[i]) == EditControl
                                             && forall j :: 0 <= j < i ==> KindOf(t, cs[j]) != EditControl)
            && (d.sendButton.None? <==> forall j :: 0 <= j < |cs| ==> !IsSendButton(t, sendLabel, cs[j]))
            && (d.sendButton.Some? ==> exists i :: 0 <= i < |cs| && cs[i] == d.sendButton.value && IsSendButton(t, sendLabel, cs[i])
                                                   && forall j :: i < j < |cs| ==> !IsSendButton(t, sendLabel, cs[j]))
  {
    var cs := ChildrenOrEmpty(t, dialog);
    var edit: Option<nat> := None;
    var send: Option<nat> := None;
    ghost var ei, si := 0, 0;
    var i := 0;
    while i < |cs|
      invariant i <= |cs|
      invariant forall j :: 0 <= j < i ==> Exists(t, cs[j])
      invariant edit.None? <==> forall j :: 0 <= j < i ==> KindOf(t, cs[j]) != EditControl
      invariant edit.Some? ==> ei < i && cs[ei] == edit.value && KindOf(t, cs[ei]) == EditControl
                               && forall j :: 0 <= j < ei ==> KindOf(t, cs[j]) != EditControl
      invariant send.None? <==> forall j :: 0 <= j < i ==> !IsSendButton(t, sendLabel, cs[j])
      invariant send.Some? ==> si < i && cs[si] == send.value && IsSendButton(t, sendLabel, cs[si])
                               && forall j :: si < j < i ==> !IsSendButton(t, sendLabel, cs[j])
    {
      var c := cs[i];
      if !Exists(t, c) {
        return Raised;
      }
      if KindOf(t, c) == EditControl && edit.None? {
        edit, ei := Some(c), i;
      } else if IsSendButton(t, sendLabel, c) {
        send, si := Some(c), i;
      }
      i := i + 1;
    }
    r := Returned(DialogControls(edit, send));
  }

  /** How the comment is submitted once typed. */
  datatype SendAction = ClickSendButton | PressEnter

  /** The answer of `send`: the three refusals, an interaction that raised, or the comment submitted. */
  datatype SendOutcome = DialogMissing | EmptyContent | NoEditBox | SendFailed | Sent(action: SendAction)

  /**
   * `MomentCommentDialog.send(content)` on the controls `InitControls`
   * returned (when it raised, the dialog was never built). The live checks
   * are parameters:
   * whether the dialog window exists, whether the edit box and send button
   * still exist, and whether typing or clicking raised.
   */
  function Send(dialogExists: bool, content: string, d: DialogControls, editExists: bool, sendExists: bool, raises: bool): (r: SendOutcome)
    ensures r == DialogMissing <==> !dialogExists
    ensures r == EmptyContent <==> dialogExists && content == []
    ensures r == NoEditBox <==> dialogExists && content != [] && (d.edit.None? || !editExists)
    ensures r.Sent? <==> dialogExists && content != [] && d.edit.Some? && editExists && !raises
    ensures r.Sent? ==> (r.action == ClickSendButton <==> d.sendButton.Some? && sendExists)
  {
    if !dialogExists then DialogMissing
    else if content == [] then EmptyContent
    else if d.edit.None? || !editExists then NoEditBox
    else if raises then SendFailed
    else if d.sendButton.Some? && sendExists then Sent(ClickSendButton)
    else Sent(PressEnter)
  }
}
