/**
 * The anchor heuristics shared (as copies) by the library and the scripts:
 * the thin `mmui::TimelineCommentCell` list items that separate posts, the
 * "..." hotspot just above a separator, the search for like / comment /
 * cancel controls near a click point, and the re-scan that decides whether
 * a like took effect. Every file uses its own thresholds; they are the
 * parameters here and each file's module fixes them.
 */
module Anchors {
  import opened Text
  import opened Geometry
  import opened UiTree
  import opened Bfs
  import opened Sorting

  const TimelineCommentCell := "mmui::TimelineCommentCell"
  const XButton := "mmui::XButton"

  /** A separator row: the rectangle of the cell (its top is the sort key) and the cell itself. */
  datatype Sep = Sep(rect: Rect, cell: nat)

  function SepTop(s: Sep): int { s.rect.top }

  /**
   * The shape filter of one file: the upper coordinate bound of its `rect_ok`
   * (None where the file only skips a missing rectangle), the minimum width
   * and the maximum height of a separator.
   */
  datatype SepRule = SepRule(bound: Option<int>, minWidth: int, maxHeight: int)

  /** Search predicate: a list item of the separator class. */
  predicate IsSepCell(t: Tree, u: (), id: nat) {
    KindOf(t, id) == ListItemControl && ClassOf(t, id) == TimelineCommentCell
  }

  /** The row a found cell contributes, or None when the file's filter drops it. */
  function SepOf(t: Tree, rule: SepRule, id: nat): (r: Option<Sep>)
    ensures r.Some? <==> RectOf(t, id).Some?
                         && (rule.bound.Some? ==> RectOk(RectOf(t, id), rule.bound.value))
                         && Width(RectOf(t, id).value) >= rule.minWidth
                         && Height(RectOf(t, id).value) <= rule.maxHeight
    ensures r.Some? ==> r.value == Sep(RectOf(t, id).value, id)
  {
    match RectOf(t, id)
    case None => None
    case Some(q) =>
      if rule.bound.Some? && !RectOk(Some(q), rule.bound.value) then None
      else if Width(q) >= rule.minWidth && Height(q) <= rule.maxHeight then Some(Sep(q, id))
      else None
  }

  /** The rows kept from `ids`, in the order found. */
  function KeepSeps(t: Tree, rule: SepRule, ids: seq<nat>): (r: seq<Sep>)
    ensures |r| <= |ids|
  {
    if ids == [] then []
    else
      match SepOf(t, rule, ids[0])
      case None => KeepSeps(t, rule, ids[1..])
      case Some(s) => [s] + KeepSeps(t, rule, ids[1..])
  }

  function AsSeq<T>(o: Option<T>): seq<T> {
    match o
    case None => []
    case Some(x) => [x]
  }

  lemma KeepSepsSnoc(t: Tree, rule: SepRule, ids: seq<nat>, id: nat)
    ensures KeepSeps(t, rule, ids + [id]) == KeepSeps(t, rule, ids) + AsSeq(SepOf(t, rule, id))
  {
    if ids != [] {
      assert (ids + [id])[1..] == ids[1..] + [id];
      KeepSepsSnoc(t, rule, ids[1..], id);
    } else {
      assert [id][1..] == [];
    }
  }

  /** Every kept row comes from a kept cell of `ids` and passes the filter. */
  lemma {:induction false} KeepSepsSound(t: Tree, rule: SepRule, ids: seq<nat>)
    ensures forall s :: s in KeepSeps(t, rule, ids) ==> s.cell in ids && SepOf(t, rule, s.cell) == Some(s)
  {
    if ids != [] {
      KeepSepsSound(t, rule, ids[1..]);
    }
  }

  /** The separators a file reports for the cells found by its search, sorted by top. */
  function SeparatorRows(t: Tree, rule: SepRule, root: nat, maxNodes: nat, maxHits: nat): seq<Sep> {
    SortBy(KeepSeps(t, rule, SearchAll(t, IsSepCell, (), root, maxNodes, maxHits)), SepTop)
  }

  /**
   * `find_comment_separators` / `_find_comment_separators`: search the
   * window for separator cells, keep those passing the file's filter, sort by
   * top coordinate.
   */
  method FindSeparators(t: Tree, rule: SepRule, root: nat, maxNodes: nat, maxHits: nat) returns (seps: seq<Sep>)
    ensures seps == SeparatorRows(t, rule, root, maxNodes, maxHits)
  {
    var cells := FindAll(t, IsSepCell, (), root, maxNodes, maxHits);
    var good: seq<Sep> := [];
    var i := 0;
    while i < |cells|
      invariant i <= |cells|
      invariant good == KeepSeps(t, rule, cells[..i])
    {
      var row := SepOf(t, rule, cells[i]);
      assert good + AsSeq(row) == KeepSeps(t, rule, cells[..i + 1]) by {
        assert cells[..i + 1] == cells[..i] + [cells[i]];
        KeepSepsSnoc(t, rule, cells[..i], cells[i]);
      }
      good := good + AsSeq(row);
      i := i + 1;
    }
    assert cells[..|cells|] == cells;
    seps := SortBy(good, SepTop);
  }

  /**
   * The separator search of page `page` of a page loop, reported through
   * the name the loop uses for it (`sepsOf`), so that the loop's proof
   * does not unfold the search.
   */
  method ScanPage(pageTree: nat -> Tree, rule: SepRule, root: nat, maxNodes: nat, maxHits: nat, page: nat, ghost sepsOf: nat -> seq<Sep>)
    returns (seps: seq<Sep>)
    requires forall p {:trigger SeparatorRows(pageTree(p), rule, root, maxNodes, maxHits)} :: sepsOf(p) == SeparatorRows(pageTree(p), rule, root, maxNodes, maxHits)
    ensures seps == sepsOf(page)
  {
    seps := FindSeparators(pageTree(page), rule, root, maxNodes, maxHits);
  }

  /** A file's separator list is ascending by top and holds exactly the rows its filter kept. */
  lemma SeparatorRowsOrdered(t: Tree, rule: SepRule, root: nat, maxNodes: nat, maxHits: nat)
    ensures var rows := SeparatorRows(t, rule, root, maxNodes, maxHits);
            SortedBy(rows, SepTop)
            && multiset(rows) == multiset(KeepSeps(t, rule, SearchAll(t, IsSepCell, (), root, maxNodes, maxHits)))
  {
    SortBySorted(KeepSeps(t, rule, SearchAll(t, IsSepCell, (), root, maxNodes, maxHits)), SepTop);
  }

  /**
   * Every row of a file's separator list is a separator cell visited by the
   * search, whose own rectangle passes the file's filter.
   */
  lemma SeparatorRowsShape(t: Tree, rule: SepRule, root: nat, maxNodes: nat, maxHits: nat, s: Sep)
    requires s in SeparatorRows(t, rule, root, maxNodes, maxHits)
    ensures IsSepCell(t, (), s.cell) && s.cell in Dequeued(t, [root], maxNodes)
    ensures RectOf(t, s.cell) == Some(s.rect)
    ensures rule.bound.Some? ==> RectOk(Some(s.rect), rule.bound.value)
    ensures Width(s.rect) >= rule.minWidth && Height(s.rect) <= rule.maxHeight
  {
    var found := SearchAll(t, IsSepCell, (), root, maxNodes, maxHits);
    var kept := KeepSeps(t, rule, found);
    assert s in multiset(SeparatorRows(t, rule, root, maxNodes, maxHits));
    assert s in kept;
    KeepSepsSound(t, rule, found);
    assert SepOf(t, rule, s.cell) == Some(s);
    SearchAllBounds(t, IsSepCell, (), root, maxNodes, maxHits);
    var k :| 0 <= k < |found| && found[k] == s.cell;
  }

  /** `int(l + (r - l) * x_ratio)`, `int(t - y_offset_up)` with the ratio given in percent. */
  function Hotspot(s: Sep, percent: int, up: int): (p: Point)
    ensures p.y == s.rect.top - up
  {
    Point(RatioX(s.rect.left, s.rect.right, percent), s.rect.top - up)
  }

  /** With the 92 percent every caller uses, the hotspot lies above the separator, within its horizontal span. */
  lemma HotspotAboveSeparator(s: Sep, up: int)
    requires s.rect.left <= s.rect.right && up > 0
    ensures var p := Hotspot(s, 92, up);
            s.rect.left <= p.x <= s.rect.right && p.y < s.rect.top
  {
    RatioXInside(s.rect.left, s.rect.right, 92);
  }

  /**
   * Search argument of a proximity scan: the accepted labels, whether the
   * name is stripped before comparing, the file's rectangle bound, the
   * click point and the radius.
   */
  datatype Near = Near(labels: seq<string>, strip: bool, bound: int, x: int, y: int, radius: int)

  function ShownName(t: Tree, strip: bool, id: nat): string {
    if strip then Strip(NameOf(t, id)) else NameOf(t, id)
  }

  /** A control carrying one of the labels, with a valid rectangle within the radius of the click. */
  predicate NearLabel(t: Tree, a: Near, id: nat) {
    ShownName(t, a.strip, id) in a.labels
    && RectOk(RectOf(t, id), a.bound)
    && Within(RectOf(t, id).value, a.x, a.y, a.radius)
  }

  /**
   * The proximity scan (`_find_like_panel_controls_near`,
   * `find_like_controls_near_click_in_scope`): a bounded search whose hits are
   * labelled controls with a valid rectangle within the radius.
   */
  method ControlsNear(t: Tree, scope: nat, a: Near, maxNodes: nat, maxHits: nat) returns (hits: seq<nat>)
    ensures hits == SearchAll(t, NearLabel, a, scope, maxNodes, maxHits)
    ensures |hits| <= maxHits
    ensures forall k :: 0 <= k < |hits| ==>
              ShownName(t, a.strip, hits[k]) in a.labels && RectOk(RectOf(t, hits[k]), a.bound)
              && 0 <= a.radius && SqDist(RectOf(t, hits[k]).value, a.x, a.y) <= a.radius * a.radius
  {
    hits := FindAll(t, NearLabel, a, scope, maxNodes, maxHits);
    SearchAllBounds(t, NearLabel, a, scope, maxNodes, maxHits);
    forall k | 0 <= k < |hits|
      ensures ShownName(t, a.strip, hits[k]) in a.labels && RectOk(RectOf(t, hits[k]), a.bound)
              && 0 <= a.radius && SqDist(RectOf(t, hits[k]).value, a.x, a.y) <= a.radius * a.radius
    {
      assert NearLabel(t, a, hits[k]);
    }
  }

  /** Raw names of a list of controls (`{getattr(c, 'Name', '') for c in ctrls}`). */
  function NameSet(t: Tree, ids: seq<nat>): (r: set<string>)
    ensures forall k :: 0 <= k < |ids| ==> NameOf(t, ids[k]) in r
    ensures forall n :: n in r ==> exists k :: 0 <= k < |ids| && NameOf(t, ids[k]) == n
  {
    set k | 0 <= k < |ids| :: NameOf(t, ids[k])
  }

  /** Outcome of the post-click re-scan. */
  datatype Verdict = VerifiedByCancel | VerifiedByNoLike | VerifyTimeout

  /** The decision one poll takes on the names it saw: a cancel label wins, then a missing like label, else keep polling. */
  function PollVerdict(names: set<string>, likeLabel: string, cancelLabel: string): (v: Verdict)
    ensures v == VerifiedByCancel <==> cancelLabel in names
    ensures v == VerifiedByNoLike <==> cancelLabel !in names && likeLabel !in names
    ensures v == VerifyTimeout <==> cancelLabel !in names && likeLabel in names
  {
    if cancelLabel in names then VerifiedByCancel
    else if likeLabel !in names then VerifiedByNoLike
    else VerifyTimeout
  }

  /** Names seen near the click on one poll. */
  function PollNames(t: Tree, scope: nat, a: Near, maxNodes: nat, maxHits: nat): set<string> {
    NameSet(t, SearchAll(t, NearLabel, a, scope, maxNodes, maxHits))
  }

  /** The verdict of the first poll that decides, or a timeout when none does. */
  function FirstVerdict(polls: seq<Tree>, scope: nat, a: Near, maxNodes: nat, maxHits: nat, likeLabel: string, cancelLabel: string): Verdict {
    if polls == [] then VerifyTimeout
    else
      var v := PollVerdict(PollNames(polls[0], scope, a, maxNodes, maxHits), likeLabel, cancelLabel);
      if v != VerifyTimeout then v else FirstVerdict(polls[1..], scope, a, maxNodes, maxHits, likeLabel, cancelLabel)
  }

  /** A timeout happens exactly when every poll still saw the like label and no cancel label. */
  lemma {:induction false} TimeoutIffNoPollDecides(polls: seq<Tree>, scope: nat, a: Near, maxNodes: nat, maxHits: nat, likeLabel: string, cancelLabel: string)
    ensures FirstVerdict(polls, scope, a, maxNodes, maxHits, likeLabel, cancelLabel) == VerifyTimeout
        <==> forall i :: 0 <= i < |polls| ==>
               var names := PollNames(polls[i], scope, a, maxNodes, maxHits);
               likeLabel in names && cancelLabel !in names
  {
    if polls != [] {
      TimeoutIffNoPollDecides(polls[1..], scope, a, maxNodes, maxHits, likeLabel, cancelLabel);
      assert forall i :: 1 <= i < |polls| ==> polls[i] == polls[1..][i - 1];
    }
  }

  /**
   * `_verify_after_like` / `verify_liked`: re-scan near the click once per
   * poll until a poll shows the cancel label or no longer shows the like
   * label.
   */
  method VerifyPolls(polls: seq<Tree>, scope: nat, a: Near, maxNodes: nat, maxHits: nat, likeLabel: string, cancelLabel: string)
    returns (v: Verdict)
    ensures v == FirstVerdict(polls, scope, a, maxNodes, maxHits, likeLabel, cancelLabel)
  {
    var i := 0;
    while i < |polls|
      invariant i <= |polls|
      invariant FirstVerdict(polls[i..], scope, a, maxNodes, maxHits, likeLabel, cancelLabel)
             == FirstVerdict(polls, scope, a, maxNodes, maxHits, likeLabel, cancelLabel)
    {
      var ctrls := ControlsNear(polls[i], scope, a, maxNodes, maxHits);
      var names := NameSet(polls[i], ctrls);
      assert polls[i..][1..] == polls[i + 1..];
      if cancelLabel in names {
        return VerifiedByCancel;
      }
      if likeLabel !in names {
        return VerifiedByNoLike;
      }
      i := i + 1;
    }
    return VerifyTimeout;
  }

  /**
   * Names equal to `target` among `ctrls`, button-and-class match first: the
   * picking rule shared by the library and the demo. The pick is the first
   * `mmui::XButton` button named `target` in `ctrls` order; when there is
   * none, the first control named `target`.
   */
  function PickButton(t: Tree, ctrls: seq<nat>, target: string): (r: Option<nat>)
    ensures r.Some? ==> r.value in ctrls && NameOf(t, r.value) == target
    ensures r.None? <==> forall k :: 0 <= k < |ctrls| ==> NameOf(t, ctrls[k]) != target
    ensures (exists k :: 0 <= k < |ctrls| && IsXButton(t, ctrls[k], target)) ==>
              exists i :: 0 <= i < |ctrls| && r == Some(ctrls[i]) && IsXButton(t, ctrls[i], target)
                          && forall j :: 0 <= j < i ==> !IsXButton(t, ctrls[j], target)
    ensures (forall k :: 0 <= k < |ctrls| ==> !IsXButton(t, ctrls[k], target)) && r.Some? ==>
              exists i :: 0 <= i < |ctrls| && r.value == ctrls[i]
                          && forall j :: 0 <= j < i ==> NameOf(t, ctrls[j]) != target
  {
    match FirstWhere(t, ctrls, target, true)
    case Some(i) => Some(ctrls[i])
    case None =>
      match FirstWhere(t, ctrls, target, false)
      case Some(i) => Some(ctrls[i])
      case None => None
  }

  predicate IsXButton(t: Tree, id: nat, target: string) {
    KindOf(t, id) == ButtonControl && NameOf(t, id) == target && ClassOf(t, id) == XButton
  }

  /** Index of the first control named `target` (and, when `strict`, a button of the `mmui::XButton` class). */
  function FirstWhere(t: Tree, ctrls: seq<nat>, target: string, strict: bool): (r: Option<nat>)
    ensures r.Some? ==> r.value < |ctrls| && NameOf(t, ctrls[r.value]) == target
                        && (strict ==> IsXButton(t, ctrls[r.value], target))
                        && forall j :: 0 <= j < r.value ==>
                             if strict then !IsXButton(t, ctrls[j], target) else NameOf(t, ctrls[j]) != target
    ensures r.None? ==> forall j :: 0 <= j < |ctrls| ==>
                          if strict then !IsXButton(t, ctrls[j], target) else NameOf(t, ctrls[j]) != target
  {
    if ctrls == [] then None
    else if (if strict then IsXButton(t, ctrls[0], target) else NameOf(t, ctrls[0]) == target) then Some(0)
    else
      match FirstWhere(t, ctrls[1..], target, strict)
      case None => None
      case Some(i) => Some(i + 1)
  }

  /** `_click_control_center_win32` / `click_center_of`: the click point, or None when the rectangle is not valid. */
  function CenterClick(t: Tree, id: nat, bound: int): (p: Option<Point>)
    ensures p.Some? <==> RectOk(RectOf(t, id), bound)
    ensures p.Some? ==> var q := RectOf(t, id).value;
                        q.left <= p.value.x <= q.right && q.top <= p.value.y <= q.bottom
  {
    if RectOk(RectOf(t, id), bound) then Some(Center(RectOf(t, id).value)) else None
  }
}
