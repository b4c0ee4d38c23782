/**
 * The script `wxauto4/probe_moments_scope.py`: rank the top-level windows
 * by how much they look like the moments page. A window scores points for
 * its own name and class, then one point per element (among the first 3000
 * it visits) whose description mentions a moments keyword and ten per
 * element named like, cancel or comment.
 */
module ProbeScope {
  import opened Text
  import opened UiTree
  import opened Bfs
  import opened Sorting

  const Keywords := ["朋友圈", "动态", "朋友", "相机", "拍照", "视频", "发表", "发布", "刷新",
                     "赞", "取消", "评论", "更多", "…", "..."]
  const Marks := ["赞", "取消", "评论"]
  const ScanBudget := 3000

  // ---------------------------------------------------------------------------
  // keyword_hit
  // ---------------------------------------------------------------------------

  /** Some keyword from position `i` of the list on occurs in `low`. */
  predicate HitsFrom(low: string, i: nat)
    decreases |Keywords| - i
  {
    i < |Keywords| && (Contains(low, Keywords[i]) || HitsFrom(low, i + 1))
  }

  /** `keyword_hit(text)`: some keyword occurs in the lower-cased text (the keywords are their own lower-case forms, `KeywordsLower`). */
  predicate HitsKeyword(text: string) {
    HitsFrom(Lower(text), 0)
  }

  /** Lower-casing a keyword, as `k.lower()` does, changes nothing. */
  lemma KeywordsLower()
    ensures forall i :: 0 <= i < |Keywords| ==> Lower(Keywords[i]) == Keywords[i]
  {
  }

  /** No keyword is empty. */
  lemma KeywordsNonEmpty()
    ensures forall i :: 0 <= i < |Keywords| ==> Keywords[i] != []
  {
  }

  /** `keyword_hit`: the loop over the keywords. */
  method KeywordHit(text: string) returns (b: bool)
    ensures b == HitsKeyword(text)
  {
    var low := Lower(text);
    var i := 0;
    while i < |Keywords|
      invariant i <= |Keywords|
      invariant HitsFrom(low, i) == HitsFrom(low, 0)
    {
      if Contains(low, Keywords[i]) {
        return true;
      }
      i := i + 1;
    }
    return false;
  }

  /** The keywords from position `i` on hit exactly when one of them occurs. */
  lemma {:induction false} HitsFromIff(low: string, i: nat)
    ensures HitsFrom(low, i) <==> exists j :: i <= j < |Keywords| && Contains(low, Keywords[j])
    decreases |Keywords| - i
  {
    if i < |Keywords| {
      HitsFromIff(low, i + 1);
    }
  }

  /** Lower-casing twice is lower-casing once. */
  lemma LowerIdempotent(s: string)
    ensures Lower(Lower(s)) == Lower(s)
  {
  }

  /** Nothing nonempty occurs in the empty text. */
  lemma NothingInEmpty(k: string)
    requires k != []
    ensures !Contains([], k)
  {
  }

  /**
   * The test ignores ASCII case: a text and its lower-cased form hit the
   * same keywords; and the empty text (what a missing name reads as) hits
   * none.
   */
  lemma KeywordHitSpec(text: string)
    ensures HitsKeyword(text) <==> exists j :: 0 <= j < |Keywords| && Contains(Lower(text), Keywords[j])
    ensures HitsKeyword(Lower(text)) == HitsKeyword(text)
    ensures !HitsKeyword([])
  {
    HitsFromIff(Lower(text), 0);
    LowerIdempotent(text);
    HitsFromIff(Lower([]), 0);
    KeywordsNonEmpty();
    forall j | 0 <= j < |Keywords| ensures !Contains(Lower([]), Keywords[j]) {
      NothingInEmpty(Keywords[j]);
    }
  }

  // ---------------------------------------------------------------------------
  // score_scope
  // ---------------------------------------------------------------------------

  /** The `ControlTypeName` of an element; control types outside the model read as the empty name. */
  function TypeName(k: ControlType): string {
    match k
    case WindowControl => "WindowControl"
    case ButtonControl => "ButtonControl"
    case TextControl => "TextControl"
    case ListItemControl => "ListItemControl"
    case ListControl => "ListControl"
    case TableControl => "TableControl"
    case CustomControl => "CustomControl"
    case EditControl => "EditControl"
    case OtherControl => ""
  }

  /** The description of an element the scan tests: type, name, class and automation id joined by spaces. */
  function NodeText(t: Tree, c: nat): string {
    TypeName(KindOf(t, c)) + " " + NameOf(t, c) + " " + ClassOf(t, c) + " " + AidOf(t, c)
  }

  /** The points one element adds: one for a keyword in its description, ten for a like, cancel or comment name. */
  function NodePoints(t: Tree, c: nat): (p: nat)
    ensures p <= 11
    ensures NameOf(t, c) in Marks ==> p >= 10
  {
    (if HitsKeyword(NodeText(t, c)) then 1 else 0) + (if NameOf(t, c) in Marks then 10 else 0)
  }

  /** The points of the elements `s`. */
  function PointsOf(t: Tree, s: seq<nat>): (r: nat)
    ensures r <= 11 * |s|
  {
    if s == [] then 0 else PointsOf(t, s[..|s| - 1]) + NodePoints(t, s[|s| - 1])
  }

  /** The points of the scope itself: 8 for a keyword in its name, 10, 6 and 4 for moment, timeline and friend in its class. */
  function HeaderScore(t: Tree, scope: nat): (s: nat)
    ensures s <= 28
  {
    var k := Lower(ClassOf(t, scope));
    (if HitsKeyword(NameOf(t, scope)) then 8 else 0)
    + (if Contains(k, "moment") then 10 else 0)
    + (if Contains(k, "timeline") then 6 else 0)
    + (if Contains(k, "friend") then 4 else 0)
  }

  /** `score_scope(scope)`: the scope's own points plus the points of the first 3000 elements a FIFO scan visits. */
  function ScopeScore(t: Tree, scope: nat): nat {
    HeaderScore(t, scope) + PointsOf(t, Dequeued(t, [scope], ScanBudget))
  }

  /** `score_scope`: the scope-level tests, then the bounded queue scan. */
  method ScoreScope(t: Tree, scope: nat) returns (s: nat)
    ensures s == ScopeScore(t, scope)
  {
    s := ScopeHeader(t, scope);
    var q := [scope];
    var seen: nat := 0;
    ghost var goal := Dequeued(t, [scope], ScanBudget);
    ghost var visited: seq<nat> := [];
    while q != [] && seen < ScanBudget
      invariant seen <= ScanBudget
      invariant visited + Dequeued(t, q, ScanBudget - seen) == goal
      invariant s == HeaderScore(t, scope) + PointsOf(t, visited)
      decreases ScanBudget - seen
    {
      var cur := q[0];
      var rest := q[1..] + ChildrenOrEmpty(t, cur);
      ScanAdvance(t, visited, q, ScanBudget - seen, goal);
      PointsOfSnoc(t, visited, cur);
      var p := ScanPoints(t, cur);
      s := s + p;
      visited := visited + [cur];
      q := rest;
      seen := seen + 1;
    }
    assert Dequeued(t, q, ScanBudget - seen) == [];
    assert visited == goal;
  }

  /** One pop of the scan: the popped element joins the visited prefix. */
  lemma ScanAdvance(t: Tree, visited: seq<nat>, q: seq<nat>, n: nat, goal: seq<nat>)
    requires q != [] && n > 0
    requires visited + Dequeued(t, q, n) == goal
    ensures (visited + [q[0]]) + Dequeued(t, q[1..] + ChildrenOrEmpty(t, q[0]), n - 1) == goal
  {
    DequeuedStep(t, q, n);
    var tail := Dequeued(t, q[1..] + ChildrenOrEmpty(t, q[0]), n - 1);
    assert visited + ([q[0]] + tail) == (visited + [q[0]]) + tail;
  }

  lemma PointsOfSnoc(t: Tree, v: seq<nat>, c: nat)
    ensures PointsOf(t, v + [c]) == PointsOf(t, v) + NodePoints(t, c)
  {
    assert (v + [c])[..|v|] == v;
  }

  /** The scope-level tests of `score_scope`. */
  method ScopeHeader(t: Tree, scope: nat) returns (s: nat)
    ensures s == HeaderScore(t, scope)
  {
    s := 0;
    var nameHit := KeywordHit(NameOf(t, scope));
    if nameHit { s := s + 8; }
    var k := Lower(ClassOf(t, scope));
    if Contains(k, "moment") { s := s + 10; }
    if Contains(k, "timeline") { s := s + 6; }
    if Contains(k, "friend") { s := s + 4; }
  }

  /** The tests `score_scope` makes on one visited element. */
  method ScanPoints(t: Tree, c: nat) returns (p: nat)
    ensures p == NodePoints(t, c)
  {
    var hit := KeywordHit(NodeText(t, c));
    p := (if hit then 1 else 0) + (if NameOf(t, c) in Marks then 10 else 0);
  }

  /** The number of positions `k` of `s` with `p(s[k])`. */
  function CountWhere(s: seq<nat>, p: nat -> bool): (r: nat)
    ensures r <= |s|
  {
    if s == [] then 0 else CountWhere(s[..|s| - 1], p) + if p(s[|s| - 1]) then 1 else 0
  }

  lemma {:induction false} CountWhereIsCard(s: seq<nat>, p: nat -> bool)
    ensures CountWhere(s, p) == |set k | 0 <= k < |s| && p(s[k])|
  {
    if s != [] {
      var m := |s| - 1;
      CountWhereIsCard(s[..m], p);
      var prev := set k | 0 <= k < m && p(s[..m][k]);
      var all := set k | 0 <= k < |s| && p(s[k]);
      assert prev == set k | 0 <= k < m && p(s[k]);
      if p(s[m]) {
        assert all == prev + {m};
      } else {
        assert all == prev;
      }
    }
  }

  /** Elements whose description holds a keyword. */
  function KeywordNodes(t: Tree): nat -> bool { (c: nat) => HitsKeyword(NodeText(t, c)) }

  /** Elements named like, cancel or comment. */
  function MarkNodes(t: Tree): nat -> bool { (c: nat) => NameOf(t, c) in Marks }

  /** The points of a run of elements: one per keyword element plus ten per mark element. */
  lemma {:induction false} PointsOfSplit(t: Tree, s: seq<nat>)
    ensures PointsOf(t, s) == CountWhere(s, KeywordNodes(t)) + 10 * CountWhere(s, MarkNodes(t))
  {
    if s != [] {
      PointsOfSplit(t, s[..|s| - 1]);
    }
  }

  /** The same, counted as sets of positions. */
  lemma PointsOfCard(t: Tree, s: seq<nat>)
    ensures PointsOf(t, s) == |set k | 0 <= k < |s| && HitsKeyword(NodeText(t, s[k]))|
                              + 10 * |set k | 0 <= k < |s| && NameOf(t, s[k]) in Marks|
  {
    PointsOfSplit(t, s);
    CountWhereIsCard(s, KeywordNodes(t));
    CountWhereIsCard(s, MarkNodes(t));
    var kw := KeywordNodes(t);
    var mk := MarkNodes(t);
    assert (set k | 0 <= k < |s| && kw(s[k])) == set k | 0 <= k < |s| && HitsKeyword(NodeText(t, s[k]));
    assert (set k | 0 <= k < |s| && mk(s[k])) == set k | 0 <= k < |s| && NameOf(t, s[k]) in Marks;
  }

  /**
   * The score of a scope: what its own name and class earn, at most 28,
   * plus one point per keyword element and ten per like, cancel or comment
   * element among the first 3000 visited.
   */
  lemma ScopeScoreSpec(t: Tree, scope: nat)
    ensures var d := Dequeued(t, [scope], ScanBudget);
            ScopeScore(t, scope) == HeaderScore(t, scope)
                                    + |set k | 0 <= k < |d| && HitsKeyword(NodeText(t, d[k]))|
                                    + 10 * |set k | 0 <= k < |d| && NameOf(t, d[k]) in Marks|
            && |d| <= ScanBudget
            && ScopeScore(t, scope) <= 28 + 11 * ScanBudget
  {
    PointsOfCard(t, Dequeued(t, [scope], ScanBudget));
  }

  // ---------------------------------------------------------------------------
  // list_candidate_windows
  // ---------------------------------------------------------------------------

  /** The top-level windows among the root's children, in order. */
  function WindowsOf(t: Tree, ws: seq<nat>): (r: seq<nat>)
    ensures |r| <= |ws|
    ensures forall w :: w in r <==> w in ws && KindOf(t, w) == WindowControl
  {
    if ws == [] then []
    else
      var last := ws[|ws| - 1];
      var init := ws[..|ws| - 1];
      assert forall w :: w in ws <==> w in init || w == last by { assert ws == init + [last]; }
      WindowsOf(t, init) + if KindOf(t, last) == WindowControl then [last] else []
  }

  /** `[(score(w), w) for w in wins]` */
  function Scored(ws: seq<nat>, score: nat -> nat): (r: seq<(nat, nat)>)
    ensures |r| == |ws|
    ensures forall i :: 0 <= i < |ws| ==> r[i] == (score(ws[i]), ws[i])
  {
    if ws == [] then [] else Scored(ws[..|ws| - 1], score) + [(score(ws[|ws| - 1]), ws[|ws| - 1])]
  }

  function ScopeScores(t: Tree): nat -> nat { (w: nat) => ScopeScore(t, w) }

  /** The list `list_candidate_windows` returns, with `score` the window score (`ScopeScores`). */
  function CandidateWindows(s: Screen, score: nat -> nat): seq<(nat, nat)> {
    SortBy(Scored(WindowsOf(s.tree, s.windows), score), ScoreDescending)
  }

  /** `list_candidate_windows`: keep the windows, score each, sort by descending score. */
  method ListCandidateWindows(s: Screen) returns (r: seq<(nat, nat)>)
    ensures r == CandidateWindows(s, ScopeScores(s.tree))
  {
    var wins: seq<nat> := [];
    var i := 0;
    while i < |s.windows|
      invariant i <= |s.windows|
      invariant wins == WindowsOf(s.tree, s.windows[..i])
    {
      assert s.windows[..i + 1][..i] == s.windows[..i];
      var w := s.windows[i];
      if KindOf(s.tree, w) == WindowControl {
        wins := wins + [w];
      }
      i := i + 1;
    }
    assert s.windows[..i] == s.windows;
    var scored := ScoreAll(s.tree, wins, ScopeScores(s.tree));
    r := SortBy(scored, ScoreDescending);
  }

  /** `[(score_scope(w), w) for w in wins]`, scoring each window in turn. */
  method ScoreAll(t: Tree, wins: seq<nat>, ghost score: nat -> nat) returns (scored: seq<(nat, nat)>)
    requires forall w {:trigger ScopeScore(t, w)} :: score(w) == ScopeScore(t, w)
    ensures scored == Scored(wins, score)
  {
    scored := [];
    var j := 0;
    while j < |wins|
      invariant j <= |wins|
      invariant scored == Scored(wins[..j], score)
    {
      var v := ScoreScope(t, wins[j]);
      assert v == score(wins[j]);
      ScoredSnoc(wins, j, score);
      scored := scored + [(v, wins[j])];
      j := j + 1;
    }
    assert wins[..j] == wins;
  }

  /** Scoring one more window appends its pair. */
  lemma ScoredSnoc(wins: seq<nat>, j: nat, score: nat -> nat)
    requires j < |wins|
    ensures Scored(wins[..j + 1], score) == Scored(wins[..j], score) + [(score(wins[j]), wins[j])]
  {
    assert wins[..j + 1][..j] == wins[..j];
  }

  /** Sorting `(score, window)` pairs by descending score orders the scores. */
  lemma SortedScoresOrdered(sc: seq<(nat, nat)>)
    ensures var r := SortBy(sc, ScoreDescending);
            forall i, j :: 0 <= i < j < |r| ==> r[i].0 >= r[j].0
  {
    var r := SortBy(sc, ScoreDescending);
    SortBySorted(sc, ScoreDescending);
    forall i, j | 0 <= i < j < |r| ensures r[i].0 >= r[j].0 {
      assert ScoreDescending(r[i]) <= ScoreDescending(r[j]);
    }
  }

  /** The sorted list holds the pairs of the windows `ws`, and the pair of every window of `ws`. */
  lemma SortedScoresMembers(ws: seq<nat>, score: nat -> nat)
    ensures var r := SortBy(Scored(ws, score), ScoreDescending);
            (forall c :: c in r ==> c.1 in ws && c.0 == score(c.1))
            && (forall w :: w in ws ==> (score(w), w) in r)
  {
    var sc := Scored(ws, score);
    var r := SortBy(sc, ScoreDescending);
    forall c | c in r
      ensures c.1 in ws && c.0 == score(c.1)
    {
      assert c in multiset(sc);
      var i :| 0 <= i < |sc| && sc[i] == c;
    }
    forall w | w in ws
      ensures (score(w), w) in r
    {
      var i :| 0 <= i < |ws| && ws[i] == w;
      assert sc[i] in multiset(r);
    }
  }

  /** The head of the sorted list is the earliest pair of highest score. */
  lemma SortedScoresHead(sc: seq<(nat, nat)>) returns (m: nat)
    requires sc != []
    ensures m < |sc| && SortBy(sc, ScoreDescending)[0] == sc[m]
    ensures forall j :: 0 <= j < |sc| ==> sc[j].0 <= sc[m].0
    ensures forall j :: 0 <= j < m ==> sc[j].0 < sc[m].0
  {
    SortByHead(sc, ScoreDescending);
    m := FirstMinIndex(sc, ScoreDescending);
    forall j | 0 <= j < |sc| ensures sc[j].0 <= sc[m].0 {
      assert ScoreDescending(sc[m]) <= ScoreDescending(sc[j]);
    }
    forall j | 0 <= j < m ensures sc[j].0 < sc[m].0 {
      assert ScoreDescending(sc[j]) > ScoreDescending(sc[m]);
    }
  }

  /**
   * `list_candidate_windows` lists exactly the window children (the members
   * of `WindowsOf`), each with its score, in descending score order.
   */
  lemma CandidateWindowsSpec(s: Screen, score: nat -> nat)
    ensures var r := CandidateWindows(s, score);
            var ws := WindowsOf(s.tree, s.windows);
            multiset(r) == multiset(Scored(ws, score))
            && (forall i, j :: 0 <= i < j < |r| ==> r[i].0 >= r[j].0)
            && (forall c :: c in r ==> c.1 in ws && c.0 == score(c.1))
            && (forall w :: w in ws ==> (score(w), w) in r)
  {
    var ws := WindowsOf(s.tree, s.windows);
    SortedScoresOrdered(Scored(ws, score));
    SortedScoresMembers(ws, score);
  }

  /** The head of `list_candidate_windows` is the first window child `m` of highest score. */
  lemma CandidateWindowsHead(s: Screen, score: nat -> nat) returns (m: nat)
    requires CandidateWindows(s, score) != []
    ensures m < |WindowsOf(s.tree, s.windows)|
    ensures var w := WindowsOf(s.tree, s.windows)[m]; CandidateWindows(s, score)[0] == (score(w), w)
    ensures forall j :: 0 <= j < |WindowsOf(s.tree, s.windows)| ==> score(WindowsOf(s.tree, s.windows)[j]) <= score(WindowsOf(s.tree, s.windows)[m])
    ensures forall j :: 0 <= j < m ==> score(WindowsOf(s.tree, s.windows)[j]) < score(WindowsOf(s.tree, s.windows)[m])
  {
    var ws := WindowsOf(s.tree, s.windows);
    var sc := Scored(ws, score);
    m := SortedScoresHead(sc);
    forall j | 0 <= j < |ws| ensures score(ws[j]) <= score(ws[m]) { assert sc[j].0 <= sc[m].0; }
    forall j | 0 <= j < m ensures score(ws[j]) < score(ws[m]) { assert sc[j].0 < sc[m].0; }
  }
}
