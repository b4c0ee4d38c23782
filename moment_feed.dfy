/**
 * The feed side of `wxauto4/moment.py`: parsing one moment's accessible
 * name into publisher, text, time, likes and comments (`MomentItem`), the
 * comment lookups, and the list of moment cells (`MomentList`).
 *
 * The parse is specified by a scan over the body lines: each line takes
 * the first rule that matches, in the order image count, like prefix, the
 * exact 评论 marker (which ends the scan), advertisement, first time line,
 * text. `MomentItem.EnsureParsed` runs the same loop on the item's fields.
 */
module MomentFeed {
  import opened Text
  import opened UiTree
  import opened MomentText

  const CommentKey := "评论"
  const AdKey := "广告"

  /**
   * What the parser consults: the label table, and the search for the
   * `re_图片数` pattern, whose text lives in the language table.
   */
  datatype Parser = Parser(cfg: Config, isImageLine: string -> bool)

  function LikeLabel(p: Parser): string { Lang(p.cfg, LikeKey) }

  function Marker(p: Parser): string { Lang(p.cfg, CommentKey) }

  function AdLabel(p: Parser): string { Lang(p.cfg, AdKey) }

  /** The public fields of a parsed item. */
  datatype Fields = Fields(
    nickname: string,
    content: string,
    time: string,
    likes: seq<string>,
    comments: seq<Comment>,
    imageCount: int,
    isAdvertisement: bool)

  const Unparsed := Fields("", "", "", [], [], 0, false)

  // ---------------------------------------------------------------------------
  // Line rules
  // ---------------------------------------------------------------------------

  datatype Rule = ImageRule | LikeRule | MarkerRule | AdRule | TimeRule | TextRule

  /** The first rule that matches `line`; `timeSet` says whether a time is already recorded. */
  function RuleOf(p: Parser, line: string, timeSet: bool): Rule {
    if p.isImageLine(line) then ImageRule
    else if StartsWith(line, LikeLabel(p)) then LikeRule
    else if line == Marker(p) then MarkerRule
    else if Contains(line, AdLabel(p)) then AdRule
    else if !timeSet && IsTimeLine(line) then TimeRule
    else TextRule
  }

  /** A line that ends the scan: the exact comment marker, not taken by an earlier rule. */
  predicate IsMarker(p: Parser, line: string) {
    !p.isImageLine(line) && !StartsWith(line, LikeLabel(p)) && line == Marker(p)
  }

  /** A line that becomes the time while none is recorded. */
  predicate TimeEligible(p: Parser, line: string) { RuleOf(p, line, false) == TimeRule }

  // ---------------------------------------------------------------------------
  // The scan before the marker
  // ---------------------------------------------------------------------------

  /** What the loop accumulates: the item's `image_count`, `is_advertisement` and `time`, and the locals `likes_line` and `content_lines`. */
  datatype Scan = Scan(imageCount: int, likesLine: Option<string>, isAd: bool, time: string, content: seq<string>)

  /** One loop iteration on a line that is not the marker. */
  function Step(p: Parser, s: Scan, line: string): Scan {
    match RuleOf(p, line, s.time != [])
    case ImageRule =>
      (match FirstNumber(line)
       case Some(n) => s.(imageCount := n)
       case None => s)
    case LikeRule => s.(likesLine := Some(line))
    case MarkerRule => s
    case AdRule => s.(isAd := true)
    case TimeRule => s.(time := line)
    case TextRule => s.(content := s.content + [line])
  }

  function ScanLines(p: Parser, s0: Scan, lines: seq<string>): Scan
    decreases |lines|
  {
    if lines == [] then s0
    else Step(p, ScanLines(p, s0, lines[..|lines| - 1]), lines[|lines| - 1])
  }

  lemma ScanSnoc(p: Parser, s0: Scan, lines: seq<string>, i: nat)
    requires i < |lines|
    ensures ScanLines(p, s0, lines[..i + 1]) == Step(p, ScanLines(p, s0, lines[..i]), lines[i])
  {
    assert lines[..i + 1][..i] == lines[..i];
  }

  /** Index of the line at which the scan stops. */
  function MarkerStop(p: Parser, body: seq<string>): (r: Option<nat>)
    ensures r.Some? ==> r.value < |body| && IsMarker(p, body[r.value])
    ensures r.Some? ==> forall i :: 0 <= i < r.value ==> !IsMarker(p, body[i])
    ensures r.None? ==> forall i :: 0 <= i < |body| ==> !IsMarker(p, body[i])
  {
    if body == [] then None
    else if IsMarker(p, body[0]) then Some(0)
    else
      match MarkerStop(p, body[1..])
      case None => None
      case Some(m) => Some(m + 1)
  }

  lemma MarkerStopAt(p: Parser, body: seq<string>, m: nat)
    requires m < |body| && IsMarker(p, body[m])
    requires forall i :: 0 <= i < m ==> !IsMarker(p, body[i])
    ensures MarkerStop(p, body) == Some(m)
  {
  }

  /** The lines the scan consumes. */
  function Scanned(p: Parser, body: seq<string>): seq<string> {
    match MarkerStop(p, body)
    case Some(m) => body[..m]
    case None => body
  }

  // ---------------------------------------------------------------------------
  // Comment lines
  // ---------------------------------------------------------------------------

  /** `lines.index(x)` as an option. */
  function IndexOf(lines: seq<string>, x: string): (r: Option<nat>)
    ensures r.Some? ==> r.value < |lines| && lines[r.value] == x && forall j :: 0 <= j < r.value ==> lines[j] != x
    ensures r.None? <==> x !in lines
  {
    if lines == [] then None
    else if lines[0] == x then Some(0)
    else
      match IndexOf(lines[1..], x)
      case None => None
      case Some(i) => Some(i + 1)
  }

  /** `lines[lines.index(x) + 1:]`, or nothing when `x` is absent. */
  function AfterFirst(lines: seq<string>, x: string): seq<string> {
    match IndexOf(lines, x)
    case None => []
    case Some(f) => lines[f + 1..]
  }

  /** The lines other than `x`. */
  function Without(lines: seq<string>, x: string): (r: seq<string>)
    ensures forall k :: 0 <= k < |r| ==> r[k] != x && r[k] in lines
  {
    if lines == [] then []
    else (if lines[0] == x then [] else [lines[0]]) + Without(lines[1..], x)
  }

  /** The second pass: after the first marker, collect every line that is not a marker. */
  function Collected(lines: seq<string>, marker: string): seq<string>
    decreases |lines|
  {
    if lines == [] then []
    else
      var init := lines[..|lines| - 1];
      var x := lines[|lines| - 1];
      if x == marker || marker !in init then Collected(init, marker) else Collected(init, marker) + [x]
  }

  /** `comment_lines` after both passes. */
  function CommentLines(p: Parser, body: seq<string>): seq<string> {
    var first := if MarkerStop(p, body).Some? then AfterFirst(body, Marker(p)) else [];
    if first != [] then first else Collected(body, Marker(p))
  }

  /** `[MomentComment.from_text(line) for line in lines if line.strip()]` */
  function CommentsOf(lines: seq<string>): (r: seq<Comment>)
    ensures |r| <= |lines|
  {
    if lines == [] then []
    else (if Strip(lines[0]) != [] then [FromText(lines[0])] else []) + CommentsOf(lines[1..])
  }

  // ---------------------------------------------------------------------------
  // The whole parse
  // ---------------------------------------------------------------------------

  function Body(lines: seq<string>): seq<string> {
    if lines == [] then [] else lines[1..]
  }

  function StartScan(prior: Fields): Scan {
    Scan(prior.imageCount, None, prior.isAdvertisement, prior.time, [])
  }

  function LikesAfter(p: Parser, likesLine: Option<string>, prior: seq<string>): seq<string> {
    if likesLine.Some? && likesLine.value != [] then SplitLikeNames(p.cfg, likesLine.value) else prior
  }

  /**
   * The fields after `_ensure_parsed` runs on the non-blank lines of the
   * item's name, starting from the fields it had (`prior`): the loop reads
   * and keeps `time`, `image_count` and `is_advertisement` of the item.
   */
  function ParseLines(p: Parser, lines: seq<string>, prior: Fields): (f: Fields)
    ensures lines != [] ==> f.nickname == lines[0]
    ensures lines == [] ==> f.nickname == prior.nickname
    ensures prior.time != [] ==> f.time == prior.time
    ensures prior.isAdvertisement ==> f.isAdvertisement
  {
    var body := Body(lines);
    var s := ScanLines(p, StartScan(prior), Scanned(p, body));
    ScanKeeps(p, StartScan(prior), Scanned(p, body));
    Fields(
      if lines != [] then lines[0] else prior.nickname,
      Strip(Join(s.content, "\n")),
      s.time,
      LikesAfter(p, s.likesLine, prior.likes),
      CommentsOf(CommentLines(p, body)),
      s.imageCount,
      s.isAd)
  }

  /** A recorded time is never replaced and an advertisement flag never cleared. */
  lemma {:induction false} ScanKeeps(p: Parser, s0: Scan, lines: seq<string>)
    ensures s0.time != [] ==> ScanLines(p, s0, lines).time == s0.time
    ensures s0.isAd ==> ScanLines(p, s0, lines).isAd
    decreases |lines|
  {
    if lines != [] {
      ScanKeeps(p, s0, lines[..|lines| - 1]);
    }
  }

  // ---------------------------------------------------------------------------
  // Properties of the scan
  // ---------------------------------------------------------------------------

  /**
   * Every text line the scan keeps is one of its lines, and none of them
   * is an image-count line, a like line, the marker or an advertisement.
   */
  lemma {:induction false} ScanTextLines(p: Parser, s0: Scan, lines: seq<string>)
    requires s0.content == []
    ensures forall k :: 0 <= k < |ScanLines(p, s0, lines).content| ==>
              ScanLines(p, s0, lines).content[k] in lines
              && RuleOf(p, ScanLines(p, s0, lines).content[k], true) == TextRule
    decreases |lines|
  {
    if lines != [] {
      var init := lines[..|lines| - 1];
      var x := lines[|lines| - 1];
      ScanTextLines(p, s0, init);
      var before := ScanLines(p, s0, init).content;
      var after := ScanLines(p, s0, lines).content;
      assert after == before || after == before + [x];
      forall k | 0 <= k < |after| ensures after[k] in lines && RuleOf(p, after[k], true) == TextRule {
        if k < |before| {
          assert after[k] == before[k] && before[k] in init;
        } else {
          assert after[k] == x && RuleOf(p, x, ScanLines(p, s0, init).time != []) == TextRule;
        }
      }
    }
  }

  /** What one step does to the time and to the like line. */
  lemma StepTimeAndLikes(p: Parser, s: Scan, x: string)
    ensures Step(p, s, x).time == if s.time == [] && TimeEligible(p, x) then x else s.time
    ensures Step(p, s, x).likesLine == if IsLikeLine(p, x) then Some(x) else s.likesLine
  {
  }

  lemma ScanLast(p: Parser, s0: Scan, lines: seq<string>)
    requires lines != []
    ensures ScanLines(p, s0, lines) == Step(p, ScanLines(p, s0, lines[..|lines| - 1]), lines[|lines| - 1])
    ensures forall j :: 0 <= j < |lines| - 1 ==> lines[..|lines| - 1][j] == lines[j]
  {
  }

  /**
   * Starting without a time, the scan records a time exactly when one of
   * its lines is eligible, and then it is the first eligible line.
   */
  lemma {:induction false} ScanTimeIsFirst(p: Parser, s0: Scan, lines: seq<string>)
    requires s0.time == []
    ensures ScanLines(p, s0, lines).time == [] <==> forall j :: 0 <= j < |lines| ==> !TimeEligible(p, lines[j])
    ensures ScanLines(p, s0, lines).time != [] ==>
              exists j :: 0 <= j < |lines| && lines[j] == ScanLines(p, s0, lines).time && TimeEligible(p, lines[j])
                          && forall i :: 0 <= i < j ==> !TimeEligible(p, lines[i])
    decreases |lines|
  {
    if lines != [] {
      var init := lines[..|lines| - 1];
      var x := lines[|lines| - 1];
      ScanTimeIsFirst(p, s0, init);
      ScanLast(p, s0, lines);
      var s := ScanLines(p, s0, init);
      StepTimeAndLikes(p, s, x);
      if TimeEligible(p, x) {
        assert x != [];
      }
      if s.time != [] {
        var j :| 0 <= j < |init| && init[j] == s.time && TimeEligible(p, init[j])
                 && forall i :: 0 <= i < j ==> !TimeEligible(p, init[i]);
        assert lines[j] == init[j];
      }
    }
  }

  /** A line taken by the like rule. */
  predicate IsLikeLine(p: Parser, line: string) { !p.isImageLine(line) && StartsWith(line, LikeLabel(p)) }

  /** The like line the scan keeps is the last like line, if any. */
  lemma {:induction false} ScanLikesIsLast(p: Parser, s0: Scan, lines: seq<string>)
    requires s0.likesLine.None?
    ensures ScanLines(p, s0, lines).likesLine.None? <==> forall j :: 0 <= j < |lines| ==> !IsLikeLine(p, lines[j])
    ensures ScanLines(p, s0, lines).likesLine.Some? ==>
              exists j :: 0 <= j < |lines| && lines[j] == ScanLines(p, s0, lines).likesLine.value && IsLikeLine(p, lines[j])
                          && forall i :: j < i < |lines| ==> !IsLikeLine(p, lines[i])
    decreases |lines|
  {
    if lines != [] {
      var init := lines[..|lines| - 1];
      var x := lines[|lines| - 1];
      ScanLikesIsLast(p, s0, init);
      ScanLast(p, s0, lines);
      var s := ScanLines(p, s0, init);
      StepTimeAndLikes(p, s, x);
      if !IsLikeLine(p, x) && s.likesLine.Some? {
        var j :| 0 <= j < |init| && init[j] == s.likesLine.value && IsLikeLine(p, init[j])
                 && forall i :: j < i < |init| ==> !IsLikeLine(p, init[i]);
        assert lines[j] == init[j];
      }
    }
  }

  /** Lines after the stop are not scanned: extending the body there changes nothing but the comments. */
  lemma MarkerStopExtends(p: Parser, body: seq<string>, extra: seq<string>)
    requires MarkerStop(p, body).Some?
    ensures MarkerStop(p, body + extra) == MarkerStop(p, body)
    ensures Scanned(p, body + extra) == Scanned(p, body)
  {
    var m := MarkerStop(p, body).value;
    var whole := body + extra;
    assert whole[m] == body[m];
    assert forall i :: 0 <= i < m ==> whole[i] == body[i];
    MarkerStopAt(p, whole, m);
    assert whole[..m] == body[..m];
  }

  /**
   * Lines after the first 评论 marker never reach the text, the time or the
   * likes: appending lines to a name whose body holds the marker changes
   * only the comments.
   */
  lemma LinesAfterMarkerOnlyComments(p: Parser, lines: seq<string>, extra: seq<string>, prior: Fields)
    requires lines != [] && MarkerStop(p, Body(lines)).Some?
    ensures ParseLines(p, lines + extra, prior).(comments := []) == ParseLines(p, lines, prior).(comments := [])
  {
    assert Body(lines + extra) == Body(lines) + extra;
    MarkerStopExtends(p, Body(lines), extra);
    assert (lines + extra)[0] == lines[0];
  }

  /** The second pass collects the non-marker lines after the first marker. */
  lemma {:induction false} CollectedAfterFirst(lines: seq<string>, marker: string)
    ensures Collected(lines, marker) == Without(AfterFirst(lines, marker), marker)
    decreases |lines|
  {
    if lines != [] {
      var init := lines[..|lines| - 1];
      var x := lines[|lines| - 1];
      assert lines == init + [x];
      CollectedAfterFirst(init, marker);
      AfterFirstSnoc(init, x, marker);
      if marker in init {
        WithoutSnoc(AfterFirst(init, marker), x, marker);
      }
    }
  }

  lemma AfterFirstSnoc(init: seq<string>, x: string, marker: string)
    ensures AfterFirst(init + [x], marker) == if marker in init then AfterFirst(init, marker) + [x] else []
  {
    if marker in init {
      IndexOfExtends(init, marker, x);
      var f := IndexOf(init, marker).value;
      assert (init + [x])[f + 1..] == init[f + 1..] + [x];
    } else if x == marker {
      IndexOfAbsentThenLast(init, marker);
    } else {
      assert marker !in init + [x];
    }
  }

  lemma IndexOfExtends(lines: seq<string>, x: string, y: string)
    requires x in lines
    ensures IndexOf(lines + [y], x) == IndexOf(lines, x)
  {
    var f := IndexOf(lines, x).value;
    assert forall j :: 0 <= j <= f ==> (lines + [y])[j] == lines[j];
  }

  lemma IndexOfAbsentThenLast(init: seq<string>, x: string)
    requires x !in init
    ensures IndexOf(init + [x], x) == Some(|init|)
  {
    assert forall j :: 0 <= j < |init| ==> (init + [x])[j] == init[j] && init[j] in init;
  }

  lemma {:induction false} WithoutSnoc(lines: seq<string>, y: string, x: string)
    ensures Without(lines + [y], x) == Without(lines, x) + (if y == x then [] else [y])
    decreases |lines|
  {
    if lines == [] {
      assert [] + [y] == [y];
    } else {
      assert (lines + [y])[1..] == lines[1..] + [y];
      WithoutSnoc(lines[1..], y, x);
    }
  }

  /**
   * When the scan stops at a marker, the stop is the first occurrence of
   * the marker text: the image and like rules look only at a line's text,
   * so every copy of the marker is treated alike.
   */
  lemma MarkerStopIsFirst(p: Parser, body: seq<string>)
    requires MarkerStop(p, body).Some?
    ensures IndexOf(body, Marker(p)) == MarkerStop(p, body)
  {
  }

  /** When the scan stops at a marker, the comment lines are exactly the lines after it. */
  lemma CommentsAfterFirstMarker(p: Parser, body: seq<string>)
    requires MarkerStop(p, body).Some?
    ensures CommentLines(p, body) == body[MarkerStop(p, body).value + 1..]
  {
    MarkerStopIsFirst(p, body);
    var f := IndexOf(body, Marker(p)).value;
    if body[f + 1..] == [] {
      CollectedAfterFirst(body, Marker(p));
    }
  }

  lemma ScanOne(p: Parser, s: Scan, line: string)
    ensures ScanLines(p, s, [line]) == Step(p, s, line)
  {
    assert [line][..0] == [];
  }

  /** A name of two lines whose second is not the marker: the scan sees that line and there are no comments. */
  lemma TwoLineName(p: Parser, nick: string, line: string)
    requires !IsMarker(p, line) && line != Marker(p)
    ensures Body([nick, line]) == [line]
    ensures Scanned(p, [line]) == [line]
    ensures CommentLines(p, [line]) == []
  {
    assert Body([nick, line]) == [line];
    assert [line][..0] == [];
    assert MarkerStop(p, [line]) == None;
    assert Marker(p) !in [line][..0];
    assert Collected([line], Marker(p)) == [];
  }

  /** A time-like second line becomes the time when none is recorded yet. */
  lemma TimeLineTakenAsTime(p: Parser, nick: string, line: string, prior: Fields)
    requires prior.time == [] && TimeEligible(p, line)
    ensures ParseLines(p, [nick, line], prior).time == line
    ensures ParseLines(p, [nick, line], prior).content == []
  {
    TwoLineName(p, nick, line);
    ScanOne(p, StartScan(prior), line);
  }

  /** With a time already recorded, the same line is kept as text. */
  lemma TimeLineTakenAsText(p: Parser, nick: string, line: string, prior: Fields)
    requires prior.time != [] && TimeEligible(p, line) && Trimmed(line)
    ensures ParseLines(p, [nick, line], prior).content == line
  {
    var s := ScanLines(p, StartScan(prior), Scanned(p, Body([nick, line])));
    assert s.content == [line] by {
      TwoLineName(p, nick, line);
      ScanOne(p, StartScan(prior), line);
      assert RuleOf(p, line, true) == TextRule;
    }
    assert Strip(Join(s.content, "\n")) == line by {
      assert Join([line], "\n") == line;
      StripFixed(line);
    }
  }

  /**
   * As written, a parse that raises after the fields were set (the child
   * enumeration fails) leaves `time` set and `_parsed` false; the next parse
   * of the same name then files the time line under the text.
   */
  lemma ReparseMovesTimeIntoText(p: Parser, nick: string, line: string, prior: Fields, first: Fields)
    requires prior.time == [] && TimeEligible(p, line) && Trimmed(line)
    requires first == ParseLines(p, [nick, line], prior)
    ensures first.time == line && first.content == []
    ensures ParseLines(p, [nick, line], first).content == line
  {
    assert first.time == line && first.content == [] by {
      TimeLineTakenAsTime(p, nick, line, prior);
    }
    TimeLineTakenAsText(p, nick, line, first);
  }

  // ---------------------------------------------------------------------------
  // The comment-control dictionary
  // ---------------------------------------------------------------------------

  /** A `dict` in insertion order. */
  type ControlMap = seq<(string, nat)>

  predicate DistinctKeys(d: ControlMap) {
    forall i, j :: 0 <= i < j < |d| ==> d[i].0 != d[j].0
  }

  function Lookup(d: ControlMap, k: string): (r: Option<nat>)
    ensures r.Some? <==> exists i :: 0 <= i < |d| && d[i].0 == k
    ensures r.Some? ==> exists i :: 0 <= i < |d| && d[i] == (k, r.value)
  {
    if d == [] then None
    else if d[0].0 == k then Some(d[0].1)
    else
      var r := Lookup(d[1..], k);
      assert forall i :: 0 <= i < |d| - 1 ==> d[1..][i] == d[i + 1];
      r
  }

  /** `d.setdefault(k, v)`: the first value stored under a key stays. */
  function SetDefault(d: ControlMap, k: string, v: nat): (r: ControlMap)
    ensures Lookup(r, k) == if Lookup(d, k).Some? then Lookup(d, k) else Some(v)
    ensures forall k' :: k' != k ==> Lookup(r, k') == Lookup(d, k')
    ensures DistinctKeys(d) ==> DistinctKeys(r)
  {
    if Lookup(d, k).Some? then d
    else
      LookupSnoc(d, k, v);
      d + [(k, v)]
  }

  lemma {:induction false} LookupSnoc(d: ControlMap, k: string, v: nat)
    requires Lookup(d, k).None?
    ensures Lookup(d + [(k, v)], k) == Some(v)
    ensures forall k' :: k' != k ==> Lookup(d + [(k, v)], k') == Lookup(d, k')
    decreases |d|
  {
    if d != [] {
      assert (d + [(k, v)])[1..] == d[1..] + [(k, v)];
      LookupSnoc(d[1..], k, v);
    }
  }

  /** Outcome of the loop over the item's children: the dictionary, and whether the loop finished without raising. */
  datatype Recorded = Recorded(map_: ControlMap, ok: bool)

  /** The loop over `children` that records text controls by their trimmed name. */
  function RecordChildren(d: ControlMap, t: Tree, children: seq<nat>): (r: Recorded)
    decreases |children|
  {
    if children == [] then Recorded(d, true)
    else
      var r := RecordChildren(d, t, children[..|children| - 1]);
      var c := children[|children| - 1];
      if !r.ok then r
      else if !Exists(t, c) then Recorded(r.map_, false)
      else if KindOf(t, c) == TextControl && Strip(NameOf(t, c)) != [] then Recorded(SetDefault(r.map_, Strip(NameOf(t, c)), c), true)
      else r
  }

  /** `for child in self.control.GetChildren(): ...`; a failed enumeration raises before anything is recorded. */
  function Record(d: ControlMap, t: Tree, control: nat): Recorded {
    match ChildrenOf(t, control)
    case None => Recorded(d, false)
    case Some(cs) => RecordChildren(d, t, cs)
  }

  /** Recording keeps the first control of every text and never loses a key. */
  lemma {:induction false} RecordKeepsFirst(d: ControlMap, t: Tree, children: seq<nat>, k: string)
    requires Lookup(d, k).Some?
    ensures Lookup(RecordChildren(d, t, children).map_, k) == Lookup(d, k)
    decreases |children|
  {
    if children != [] {
      RecordKeepsFirst(d, t, children[..|children| - 1], k);
    }
  }

  // ---------------------------------------------------------------------------
  // Lookups on a parsed item
  // ---------------------------------------------------------------------------

  /** `find_comment`: the first comment by `author`. */
  function FirstByAuthor(comments: seq<Comment>, author: string): (r: Option<Comment>)
    ensures r.None? <==> forall i :: 0 <= i < |comments| ==> comments[i].author != author
    ensures r.Some? ==> exists i :: 0 <= i < |comments| && comments[i] == r.value && r.value.author == author
                                    && forall j :: 0 <= j < i ==> comments[j].author != author
  {
    if comments == [] then None
    else if comments[0].author == author then Some(comments[0])
    else
      var r := FirstByAuthor(comments[1..], author);
      assert forall i :: 0 <= i < |comments| - 1 ==> comments[1..][i] == comments[i + 1];
      r
  }

  /** The keys tried first by `get_comment_control`. */
  function CandidateKeys(c: Comment): seq<string> {
    [c.raw, c.author + ": " + c.content, c.author + "：" + c.content]
  }

  /** A key that finds nothing: empty, or absent from the dictionary. */
  predicate Misses(d: ControlMap, key: string) { key == [] || Lookup(d, key).None? }

  function FirstKeyHit(d: ControlMap, keys: seq<string>): (r: Option<nat>)
    ensures r.None? <==> forall i :: 0 <= i < |keys| ==> Misses(d, keys[i])
    ensures r.Some? ==> exists i :: 0 <= i < |keys| && !Misses(d, keys[i]) && Lookup(d, keys[i]) == r
                                    && forall j :: 0 <= j < i ==> Misses(d, keys[j])
  {
    if keys == [] then None
    else if !Misses(d, keys[0]) then Lookup(d, keys[0])
    else
      var r := FirstKeyHit(d, keys[1..]);
      assert forall i :: 0 <= i < |keys| - 1 ==> keys[1..][i] == keys[i + 1];
      r
  }

  /** An entry the fallback accepts: its text starts with the (non-empty) author and contains the content. */
  predicate FallbackFits(entry: (string, nat), c: Comment) {
    c.author != [] && StartsWith(entry.0, c.author) && Contains(entry.0, c.content)
  }

  function FirstFallback(d: ControlMap, c: Comment): (r: Option<nat>)
    ensures r.None? <==> forall i :: 0 <= i < |d| ==> !FallbackFits(d[i], c)
    ensures r.Some? ==> exists i :: 0 <= i < |d| && d[i].1 == r.value && FallbackFits(d[i], c)
                                    && forall j :: 0 <= j < i ==> !FallbackFits(d[j], c)
  {
    if d == [] then None
    else if FallbackFits(d[0], c) then Some(d[0].1)
    else
      var r := FirstFallback(d[1..], c);
      assert forall i :: 0 <= i < |d| - 1 ==> d[1..][i] == d[i + 1];
      r
  }

  /**
   * `get_comment_control` on the recorded dictionary: the keys `raw`,
   * `author: content` and `author：content` in that order, the first that is
   * present winning; only when all three miss, the first entry in insertion
   * order whose text starts with the author and contains the content.
   */
  function ControlFor(d: ControlMap, c: Comment): (r: Option<nat>)
    ensures c.raw != [] && Lookup(d, c.raw).Some? ==> r == Lookup(d, c.raw)
    ensures (exists i :: 0 <= i < 3 && !Misses(d, CandidateKeys(c)[i])) ==>
              exists i :: 0 <= i < 3 && !Misses(d, CandidateKeys(c)[i]) && r == Lookup(d, CandidateKeys(c)[i])
                          && forall j :: 0 <= j < i ==> Misses(d, CandidateKeys(c)[j])
    ensures (forall i :: 0 <= i < 3 ==> Misses(d, CandidateKeys(c)[i])) ==>
              (r.None? <==> forall i :: 0 <= i < |d| ==> !FallbackFits(d[i], c))
              && (r.Some? ==> exists i :: 0 <= i < |d| && d[i].1 == r.value && FallbackFits(d[i], c)
                                          && forall j :: 0 <= j < i ==> !FallbackFits(d[j], c))
    ensures r.Some? ==> exists i :: 0 <= i < |d| && d[i].1 == r.value
    ensures r.None? ==> forall i :: 0 <= i < |d| ==> !FallbackFits(d[i], c)
    ensures r.None? ==> forall i :: 0 <= i < 3 ==> Misses(d, CandidateKeys(c)[i])
  {
    var keys := CandidateKeys(c);
    var hit := FirstKeyHit(d, keys);
    if hit.Some? then hit else FirstFallback(d, c)
  }

  // ---------------------------------------------------------------------------
  // The item
  // ---------------------------------------------------------------------------

  class MomentItem {
    const control: nat
    var parsed: bool
    var nickname: string
    var content: string
    var time: string
    var likes: seq<string>
    var comments: seq<Comment>
    var imageCount: int
    var isAdvertisement: bool
    var commentControls: ControlMap

    function State(): Fields
      reads this
    {
      Fields(nickname, content, time, likes, comments, imageCount, isAdvertisement)
    }

    constructor(control: nat)
      ensures this.control == control && !parsed && State() == Unparsed && commentControls == []
    {
      this.control := control;
      parsed := false;
      nickname, content, time := "", "", "";
      likes, comments := [], [];
      imageCount, isAdvertisement := 0, false;
      commentControls := [];
    }

    /** The loop over the item's children that records text controls; `false` when a child has vanished. */
    method RecordControls(t: Tree, cs: seq<nat>) returns (ok: bool)
      modifies this`commentControls
      ensures Recorded(commentControls, ok) == RecordChildren(old(commentControls), t, cs)
    {
      var k := 0;
      while k < |cs|
        invariant 0 <= k <= |cs|
        invariant RecordChildren(old(commentControls), t, cs[..k]) == Recorded(commentControls, true)
      {
        var child := cs[k];
        RecordSnoc(old(commentControls), t, cs, k);
        if !Exists(t, child) {
          RecordStopsAtFailure(old(commentControls), t, cs, k + 1);
          return false;
        }
        if KindOf(t, child) == TextControl {
          var text := Strip(NameOf(t, child));
          if text != [] {
            commentControls := SetDefault(commentControls, text, child);
          }
        }
        k := k + 1;
      }
      assert cs[..k] == cs;
      return true;
    }

    /**
     * The body of `_ensure_parsed` once the control is known to exist: the
     * fields from the name, then the text controls among the children;
     * `false` when reading the children raises.
     */
    method Load(p: Parser, t: Tree) returns (ok: bool)
      modifies this`nickname, this`content, this`time, this`likes, this`comments, this`imageCount, this`isAdvertisement, this`commentControls
      ensures State() == ParseLines(p, NonBlankLines(NameOf(t, control)), old(State()))
      ensures Recorded(commentControls, ok) == Record(old(commentControls), t, control)
    {
      ParseName(p, NameOf(t, control));
      ok := RecordAll(t);
    }

    /** The loop over `GetChildren()`, which raises when the children cannot be enumerated. */
    method RecordAll(t: Tree) returns (ok: bool)
      modifies this`commentControls
      ensures Recorded(commentControls, ok) == Record(old(commentControls), t, control)
    {
      match ChildrenOf(t, control) {
        case None =>
          ok := false;
        case Some(cs) =>
          ok := RecordControls(t, cs);
      }
    }

    /**
     * The part of `_ensure_parsed` that reads the name: splits it into
     * non-blank lines and sets the public fields from them.
     */
    method ParseName(p: Parser, name: string)
      modifies this`nickname, this`content, this`time, this`likes, this`comments, this`imageCount, this`isAdvertisement
      ensures State() == ParseLines(p, NonBlankLines(name), old(State()))
    {
      var f := ParseFields(p, NonBlankLines(name), State());
      SetFields(f);
    }

    method SetFields(f: Fields)
      modifies this`nickname, this`content, this`time, this`likes, this`comments, this`imageCount, this`isAdvertisement
      ensures State() == f
    {
      nickname, content, time, likes := f.nickname, f.content, f.time, f.likes;
      comments, imageCount, isAdvertisement := f.comments, f.imageCount, f.isAdvertisement;
    }

    /**
     * `_ensure_parsed`. Reading the name of a control that no longer exists
     * raises before anything changes; enumerating the children, or reading
     * the type of a vanished child, raises after the fields are set, and
     * the item stays unparsed.
     */
    method EnsureParsed(p: Parser, t: Tree) returns (r: Call<()>)
      modifies this
      ensures old(parsed) ==> r == Returned(()) && unchanged(this)
      ensures !old(parsed) && !Exists(t, control) ==> r == Raised && unchanged(this)
      ensures !old(parsed) && Exists(t, control) ==>
                State() == ParseLines(p, NonBlankLines(NameOf(t, control)), old(State()))
      ensures !old(parsed) && Exists(t, control) ==>
                Recorded(commentControls, r.Returned?) == Record(old(commentControls), t, control)
      ensures !old(parsed) ==> parsed == r.Returned?
    {
      if parsed {
        return Returned(());
      }
      if !Exists(t, control) {
        return Raised;
      }
      var ok := Load(p, t);
      if !ok {
        return Raised;
      }
      parsed := true;
      return Returned(());
    }

    /** `find_comment(author)`: parses if needed, then takes the first comment by `author`. */
    method FindComment(p: Parser, t: Tree, author: string) returns (r: Call<Option<Comment>>)
      modifies this
      ensures r.Returned? ==> parsed && r.value == FirstByAuthor(comments, author)
      ensures old(parsed) ==> unchanged(this) && r.Returned?
      ensures !old(parsed) && !Exists(t, control) ==> r == Raised && unchanged(this)
      ensures !old(parsed) && Exists(t, control) ==>
                State() == ParseLines(p, NonBlankLines(NameOf(t, control)), old(State()))
                && Recorded(commentControls, r.Returned?) == Record(old(commentControls), t, control)
      ensures !old(parsed) ==> parsed == r.Returned?
    {
      var e := EnsureParsed(p, t);
      if e.Raised? {
        return Raised;
      }
      return Returned(FirstByAuthor(comments, author));
    }

    /** `get_comment_control(comment)`: parses if needed, then looks the comment up in the recorded controls. */
    method GetCommentControl(p: Parser, t: Tree, c: Comment) returns (r: Call<Option<nat>>)
      modifies this
      ensures r.Returned? ==> parsed && r.value == ControlFor(commentControls, c)
      ensures old(parsed) ==> unchanged(this) && r.Returned?
      ensures !old(parsed) && !Exists(t, control) ==> r == Raised && unchanged(this)
      ensures !old(parsed) && Exists(t, control) ==>
                State() == ParseLines(p, NonBlankLines(NameOf(t, control)), old(State()))
                && Recorded(commentControls, r.Returned?) == Record(old(commentControls), t, control)
      ensures !old(parsed) ==> parsed == r.Returned?
    {
      var e := EnsureParsed(p, t);
      if e.Raised? {
        return Raised;
      }
      return Returned(ControlFor(commentControls, c));
    }
  }

  // ---------------------------------------------------------------------------
  // The loops of the parse
  // ---------------------------------------------------------------------------

  /**
   * The rules of the first loop for one body line that is not the marker,
   * in their order: an image-count line sets `image_count`, a like line
   * becomes the like line, a line naming the advertisement label sets
   * `is_advertisement`, the first time line sets `time`, and any other
   * line is text.
   */
  method ScanLine(p: Parser, s: Scan, line: string) returns (r: Scan)
    requires !IsMarker(p, line)
    ensures r == Step(p, s, line)
  {
    r := s;
    if p.isImageLine(line) {
      match FirstNumber(line) {
        case Some(n) => r := r.(imageCount := n);
        case None =>
      }
    } else if StartsWith(line, LikeLabel(p)) {
      r := r.(likesLine := Some(line));
    } else if Contains(line, AdLabel(p)) {
      r := r.(isAd := true);
    } else if r.time == [] && IsTimeLine(line) {
      r := r.(time := line);
    } else {
      r := r.(content := r.content + [line]);
    }
  }

  /**
   * The first loop of `_ensure_parsed` over the body lines. It stops at
   * the first marker line, taking the lines after the first occurrence of
   * the marker as comment lines; the other lines go through `ScanLine`.
   */
  method ScanBody(p: Parser, s0: Scan, body: seq<string>) returns (s: Scan, commentLines: seq<string>)
    ensures s == ScanLines(p, s0, Scanned(p, body))
    ensures commentLines == if MarkerStop(p, body).Some? then AfterFirst(body, Marker(p)) else []
  {
    s, commentLines := s0, [];
    var i := 0;
    while i < |body|
      invariant 0 <= i <= |body|
      invariant forall k :: 0 <= k < i ==> !IsMarker(p, body[k])
      invariant s == ScanLines(p, s0, body[..i])
      invariant commentLines == []
    {
      var line := body[i];
      if IsMarker(p, line) {
        MarkerStopAt(p, body, i);
        commentLines := AfterFirst(body, Marker(p));
        break;
      }
      s := ScanLine(p, s, line);
      ScanSnoc(p, s0, body, i);
      i := i + 1;
    }
    if i == |body| {
      MarkerStopNone(p, body);
      assert body[..i] == body;
    }
  }

  /**
   * `_ensure_parsed` from the non-blank lines to the new public fields:
   * the nickname, both loops over the body, the like names, the joined
   * text and the comments, starting from the fields the item had.
   */
  method ParseFields(p: Parser, lines: seq<string>, prior: Fields) returns (f: Fields)
    ensures f == ParseLines(p, lines, prior)
  {
    var nickname := prior.nickname;
    if lines != [] {
      nickname := lines[0];
    }
    var body := Body(lines);
    var s, commentLines := ScanBody(p, StartScan(prior), body);
    if commentLines == [] {
      commentLines := CollectAfterMarker(body, Marker(p));
    }
    var likes := prior.likes;
    if s.likesLine.Some? && s.likesLine.value != [] {
      likes := SplitLikeNames(p.cfg, s.likesLine.value);
    }
    f := Fields(nickname, Strip(Join(s.content, "\n")), s.time, likes, CommentsOf(commentLines), s.imageCount, s.isAd);
    ParseLinesParts(p, lines, prior, s, commentLines);
  }

  /** The second loop: once the first marker is seen, every line that is not the marker. */
  method CollectAfterMarker(body: seq<string>, marker: string) returns (lines: seq<string>)
    ensures lines == Collected(body, marker)
  {
    lines := [];
    var collecting := false;
    var j := 0;
    while j < |body|
      invariant 0 <= j <= |body|
      invariant collecting == (marker in body[..j])
      invariant lines == Collected(body[..j], marker)
    {
      assert body[..j + 1][..j] == body[..j];
      assert body[..j + 1][j] == body[j];
      assert marker in body[..j + 1] <==> marker in body[..j] || body[j] == marker;
      if body[j] == marker {
        collecting := true;
      } else if collecting {
        lines := lines + [body[j]];
      }
      j := j + 1;
    }
    assert body[..j] == body;
  }

  /** `ParseLines` in terms of the scan and the comment lines. */
  lemma ParseLinesParts(p: Parser, lines: seq<string>, prior: Fields, s: Scan, commentLines: seq<string>)
    requires s == ScanLines(p, StartScan(prior), Scanned(p, Body(lines)))
    requires commentLines == CommentLines(p, Body(lines))
    ensures ParseLines(p, lines, prior)
            == Fields(if lines != [] then lines[0] else prior.nickname, Strip(Join(s.content, "\n")), s.time,
                      LikesAfter(p, s.likesLine, prior.likes), CommentsOf(commentLines), s.imageCount, s.isAd)
  {
  }

  lemma MarkerStopNone(p: Parser, body: seq<string>)
    requires forall k :: 0 <= k < |body| ==> !IsMarker(p, body[k])
    ensures MarkerStop(p, body) == None
  {
  }

  /** One more child in the recording loop. */
  lemma RecordSnoc(d: ControlMap, t: Tree, cs: seq<nat>, k: nat)
    requires k < |cs| && RecordChildren(d, t, cs[..k]).ok
    ensures RecordChildren(d, t, cs[..k + 1])
            == if !Exists(t, cs[k]) then Recorded(RecordChildren(d, t, cs[..k]).map_, false)
               else if KindOf(t, cs[k]) == TextControl && Strip(NameOf(t, cs[k])) != []
               then Recorded(SetDefault(RecordChildren(d, t, cs[..k]).map_, Strip(NameOf(t, cs[k])), cs[k]), true)
               else RecordChildren(d, t, cs[..k])
  {
    assert cs[..k + 1][..k] == cs[..k];
  }

  /** Once a child fails, the recorded dictionary stays as it was at the failure. */
  lemma {:induction false} RecordStopsAtFailure(d: ControlMap, t: Tree, cs: seq<nat>, k: nat)
    requires 0 < k <= |cs| && !RecordChildren(d, t, cs[..k]).ok
    ensures RecordChildren(d, t, cs) == RecordChildren(d, t, cs[..k])
    decreases |cs| - k
  {
    if k < |cs| {
      assert cs[..k + 1][..k] == cs[..k];
      RecordStopsAtFailure(d, t, cs, k + 1);
    } else {
      assert cs[..k] == cs;
    }
  }

  // ---------------------------------------------------------------------------
  // The list of moments
  // ---------------------------------------------------------------------------

  /**
   * A child of the list that `get_items` wraps: a list item or custom
   * control whose name is not blank (`name.strip()` is non-empty, see
   * `StripEmptyIffAllSpace`).
   */
  predicate IsPostCell(t: Tree, id: nat) {
    (KindOf(t, id) == ListItemControl || KindOf(t, id) == CustomControl) && !AllSpace(NameOf(t, id))
  }

  function PostCells(t: Tree, cs: seq<nat>): (r: seq<nat>)
    ensures |r| <= |cs|
    decreases |cs|
  {
    if cs == [] then []
    else
      var init := PostCells(t, cs[..|cs| - 1]);
      var c := cs[|cs| - 1];
      if IsPostCell(t, c) then init + [c] else init
  }

  /** The wrapped cells are exactly the children that are post cells. */
  lemma {:induction false} PostCellsMembers(t: Tree, cs: seq<nat>)
    ensures forall x :: x in PostCells(t, cs) <==> x in cs && IsPostCell(t, x)
    decreases |cs|
  {
    if cs != [] {
      var init := cs[..|cs| - 1];
      PostCellsMembers(t, init);
      assert cs == init + [cs[|cs| - 1]];
    }
  }

  lemma PostCellsSnoc(t: Tree, cs: seq<nat>, k: nat)
    requires k < |cs|
    ensures PostCells(t, cs[..k + 1]) == PostCells(t, cs[..k]) + if IsPostCell(t, cs[k]) then [cs[k]] else []
  {
    assert cs[..k + 1][..k] == cs[..k];
  }

  /** The cells `get_items` wraps, in child order; none when the list is missing or its children cannot be read. */
  function ListCells(t: Tree, list: Option<nat>): seq<nat> {
    if list.None? then [] else PostCells(t, ChildrenOrEmpty(t, list.value))
  }

  /** The loop of `get_items` over the list's children: a fresh, unparsed item for every post cell, in order. */
  method NewItems(t: Tree, cs: seq<nat>) returns (r: seq<MomentItem>)
    ensures |r| == |PostCells(t, cs)|
    ensures forall k :: 0 <= k < |r| ==> fresh(r[k]) && r[k].control == PostCells(t, cs)[k] && !r[k].parsed
  {
    r := [];
    ghost var cells: seq<nat> := [];
    var k := 0;
    while k < |cs|
      invariant 0 <= k <= |cs|
      invariant cells == PostCells(t, cs[..k])
      invariant |r| == |cells|
      invariant forall j :: 0 <= j < |r| ==> fresh(r[j]) && r[j].control == cells[j] && !r[j].parsed
    {
      var isCell := IsPostCell(t, cs[k]);
      ghost var next := cells + if isCell then [cs[k]] else [];
      assert next == PostCells(t, cs[..k + 1]) by {
        PostCellsSnoc(t, cs, k);
      }
      if isCell {
        var item := new MomentItem(cs[k]);
        r := r + [item];
      }
      cells := next;
      k := k + 1;
    }
    assert cs[..k] == cs;
  }

  class MomentList {
    const control: Option<nat>
    var items: Option<seq<MomentItem>>

    constructor(control: Option<nat>)
      ensures this.control == control && items.None?
    {
      this.control := control;
      items := None;
    }

    /** `refresh()` */
    method Refresh()
      modifies this
      ensures items.None?
    {
      items := None;
    }

    /**
     * `get_items(refresh)`: rebuilds the cache when asked to or when there
     * is none yet (`items` is None), wrapping every post cell in a fresh,
     * unparsed item; otherwise returns the cached items, even an empty list.
     */
    method GetItems(t: Tree, refresh: bool) returns (r: seq<MomentItem>)
      modifies this
      ensures items == Some(r)
      ensures !refresh && old(items).Some? ==> r == old(items).value
      ensures refresh || old(items).None? ==>
                |r| == |ListCells(t, control)|
                && forall k :: 0 <= k < |r| ==> fresh(r[k]) && r[k].control == ListCells(t, control)[k]
                                                && !r[k].parsed
    {
      if !refresh && items.Some? {
        return items.value;
      }
      r := [];
      if control.None? {
        items := Some(r);
        return;
      }
      r := NewItems(t, ChildrenOrEmpty(t, control.value));
      items := Some(r);
    }
  }
}
