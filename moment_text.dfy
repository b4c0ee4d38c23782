/**
 * The text side of `wxauto4/moment.py`: language-dependent labels
 * (`_lang`), the time-line test, the like-list splitter and the comment
 * line parser (`MomentComment.from_text`).
 *
 * The regular expressions are written out as the string predicates they
 * decide. `\d` is taken as an ASCII digit.
 */
module MomentText {
  import opened Text

  /**
   * The label table (`languages.MOMENTS`: key to a map from language code to
   * text) and the current language (`WxParam.LANGUAGE`).
   */
  datatype Config = Config(table: map<string, map<string, string>>, language: string)

  /** `_lang(key)` */
  function Lang(cfg: Config, key: string): (r: string)
    ensures key !in cfg.table || cfg.table[key] == map[] ==> r == key
    ensures key in cfg.table && cfg.language in cfg.table[key] ==> r == cfg.table[key][cfg.language]
    ensures key in cfg.table && cfg.language !in cfg.table[key] && "cn" in cfg.table[key] ==> r == cfg.table[key]["cn"]
    ensures key in cfg.table && cfg.table[key] != map[] && cfg.language !in cfg.table[key] && "cn" !in cfg.table[key] ==> r == key
  {
    if key !in cfg.table || cfg.table[key] == map[] then key
    else
      var data := cfg.table[key];
      if cfg.language in data then data[cfg.language]
      else if "cn" in data then data["cn"]
      else key
  }

  /** A table without an entry for the key answers with the key itself, whatever the language. */
  lemma LangUnmappedIsKey(cfg: Config, key: string, language: string)
    requires key !in cfg.table
    ensures Lang(cfg, key) == key && Lang(Config(cfg.table, language), key) == key
  {
  }

  // ---------------------------------------------------------------------------
  // _is_time_line
  // ---------------------------------------------------------------------------

  predicate DigitsAt(s: string, i: nat, n: nat) {
    i + n <= |s| && forall j :: i <= j < i + n ==> IsDigit(s[j])
  }

  predicate CharAt(s: string, i: nat, c: char) {
    i < |s| && s[i] == c
  }

  /** `\d{4}年\d{a}月\d{b}日` starting at `i`. */
  predicate DateAt(s: string, i: nat, a: nat, b: nat) {
    DigitsAt(s, i, 4) && CharAt(s, i + 4, '年') && DigitsAt(s, i + 5, a) && CharAt(s, i + 5 + a, '月')
    && DigitsAt(s, i + 6 + a, b) && CharAt(s, i + 6 + a + b, '日')
  }

  /** `\d{4}年\d{1,2}月\d{1,2}日` occurs in `s`. */
  predicate HasDate(s: string) {
    exists i :: 0 <= i < |s| && (DateAt(s, i, 1, 1) || DateAt(s, i, 1, 2) || DateAt(s, i, 2, 1) || DateAt(s, i, 2, 2))
  }

  /** `\d{2}-\d{2}` occurs in `s`. */
  predicate HasMonthDay(s: string) {
    exists i :: 0 <= i < |s| && DigitsAt(s, i, 2) && CharAt(s, i + 2, '-') && DigitsAt(s, i + 3, 2)
  }

  /** `\d{a}:\d{2}` starting at `i`. */
  predicate ClockAt(s: string, i: nat, a: nat) {
    DigitsAt(s, i, a) && CharAt(s, i + a, ':') && DigitsAt(s, i + a + 1, 2)
  }

  /** `\d{1,2}:\d{2}` occurs in `s`. */
  predicate HasClock(s: string) {
    exists i :: 0 <= i < |s| && (ClockAt(s, i, 1) || ClockAt(s, i, 2))
  }

  /** `昨[天日]` occurs in `s`. */
  predicate HasYesterday(s: string) {
    exists i :: 0 <= i < |s| && CharAt(s, i, '昨') && (CharAt(s, i + 1, '天') || CharAt(s, i + 1, '日'))
  }

  predicate IsWeekdayChar(c: char) {
    c == '一' || c == '二' || c == '三' || c == '四' || c == '五' || c == '六' || c == '日' || c == '天'
  }

  /** `星期[一二三四五六日天]` occurs in `s`. */
  predicate HasWeekday(s: string) {
    exists i :: 0 <= i < |s| && CharAt(s, i, '星') && CharAt(s, i + 1, '期') && i + 2 < |s| && IsWeekdayChar(s[i + 2])
  }

  /** `_is_time_line(text)`: non-empty and one of the five patterns occurs somewhere. */
  predicate IsTimeLine(s: string) {
    s != [] && (HasDate(s) || HasMonthDay(s) || HasClock(s) || HasYesterday(s) || HasWeekday(s))
  }

  /** The optional second digit before the colon adds nothing: a clock occurs exactly when `\d:\d\d` does. */
  lemma ClockNeedsOneDigit(s: string)
    ensures HasClock(s) <==> exists i :: 0 <= i < |s| && ClockAt(s, i, 1)
  {
    if HasClock(s) {
      var i :| 0 <= i < |s| && (ClockAt(s, i, 1) || ClockAt(s, i, 2));
      if !ClockAt(s, i, 1) {
        assert ClockAt(s, i + 1, 1);
      }
    }
  }

  /** Searching, not matching: a line that holds a time still holds one with text around it. */
  lemma TimeLineInContext(s: string, pre: string, post: string)
    requires IsTimeLine(s)
    ensures IsTimeLine(pre + s + post)
  {
    var w := pre + s + post;
    var o := |pre|;
    assert forall j :: 0 <= j < |s| ==> w[o + j] == s[j];
    assert forall i, n :: DigitsAt(s, i, n) ==> DigitsAt(w, o + i, n);
    assert forall i, c :: CharAt(s, i, c) ==> CharAt(w, o + i, c);
    if HasDate(s) {
      var i :| 0 <= i < |s| && (DateAt(s, i, 1, 1) || DateAt(s, i, 1, 2) || DateAt(s, i, 2, 1) || DateAt(s, i, 2, 2));
      assert DateAt(w, o + i, 1, 1) || DateAt(w, o + i, 1, 2) || DateAt(w, o + i, 2, 1) || DateAt(w, o + i, 2, 2);
    } else if HasMonthDay(s) {
      var i :| 0 <= i < |s| && DigitsAt(s, i, 2) && CharAt(s, i + 2, '-') && DigitsAt(s, i + 3, 2);
      assert DigitsAt(w, o + i, 2) && CharAt(w, o + i + 2, '-') && DigitsAt(w, o + i + 3, 2);
    } else if HasClock(s) {
      var i :| 0 <= i < |s| && (ClockAt(s, i, 1) || ClockAt(s, i, 2));
      assert ClockAt(w, o + i, 1) || ClockAt(w, o + i, 2);
    } else if HasYesterday(s) {
      var i :| 0 <= i < |s| && CharAt(s, i, '昨') && (CharAt(s, i + 1, '天') || CharAt(s, i + 1, '日'));
      assert CharAt(w, o + i, '昨') && (CharAt(w, o + i + 1, '天') || CharAt(w, o + i + 1, '日'));
    } else {
      var i :| 0 <= i < |s| && CharAt(s, i, '星') && CharAt(s, i + 1, '期') && i + 2 < |s| && IsWeekdayChar(s[i + 2]);
      assert CharAt(w, o + i, '星') && CharAt(w, o + i + 1, '期') && IsWeekdayChar(w[o + i + 2]);
    }
  }

  lemma TimeLineExamples()
    ensures IsTimeLine("昨天 18:20")
    ensures IsTimeLine("2023年1月15日")
    ensures IsTimeLine("3分钟前 12:05")
    ensures IsTimeLine("星期三")
    ensures !IsTimeLine("")
  {
    var y := "昨天 18:20";
    assert CharAt(y, 0, '昨') && CharAt(y, 1, '天');
    var d := "2023年1月15日";
    assert DateAt(d, 0, 1, 2);
    var c := "3分钟前 12:05";
    assert ClockAt(c, 5, 2);
    var w := "星期三";
    assert CharAt(w, 0, '星') && CharAt(w, 1, '期') && IsWeekdayChar(w[2]);
  }

  // ---------------------------------------------------------------------------
  // _split_like_names
  // ---------------------------------------------------------------------------

  const LikeKey := "赞"
  const LikeSeparatorKey := "分隔符_点赞"

  /** The character class `[,:，]` of the fallback split. */
  predicate IsLikeSep(c: char) { c == ',' || c == ':' || c == '，' }

  /** `text` after a leading like label and the `：`, `:` and spaces that follow it. */
  function DropLikePrefix(text: string, prefix: string): string {
    if StartsWith(text, prefix) then LStripColonsAndSpaces(text[|prefix|..]) else text
  }

  /** `_split_like_names(text)` */
  function SplitLikeNames(cfg: Config, text: string): (names: seq<string>)
    ensures text == [] ==> names == []
    ensures forall k :: 0 <= k < |names| ==> names[k] != [] && Trimmed(names[k])
    ensures Lang(cfg, LikeSeparatorKey) == [] ==>
              forall k :: 0 <= k < |names| ==> forall j :: 0 <= j < |names[k]| ==> !IsLikeSep(names[k][j])
  {
    if text == [] then []
    else
      var body := DropLikePrefix(Strip(text), Lang(cfg, LikeKey));
      var sep := Lang(cfg, LikeSeparatorKey);
      if sep != [] then StripNonBlank(SplitOn(body, sep))
      else
        var parts := SplitWhere(body, IsLikeSep);
        SplitWhereNoSep(body, IsLikeSep);
        StripNonBlankKeepsChars(parts, IsLikeSep);
        StripNonBlank(parts)
  }

  predicate NoChar(s: string, c: char) { forall j :: 0 <= j < |s| ==> s[j] != c }

  lemma {:induction false} SplitOnNoSep(w: string, c: char)
    requires NoChar(w, c)
    ensures SplitOn(w, [c]) == [w]
    decreases |w|
  {
    if |w| >= 1 {
      assert w[0] != c;
      assert w[..1] != [c];
      SplitOnNoSep(w[1..], c);
      assert [w[0]] + w[1..] == w;
    }
  }

  lemma {:induction false} SplitOnFirstSep(w: string, c: char, rest: string)
    requires NoChar(w, c)
    ensures SplitOn(w + [c] + rest, [c]) == [w] + SplitOn(rest, [c])
    decreases |w|
  {
    var s := w + [c] + rest;
    if w == [] {
      assert s[..1] == [c];
      assert s[1..] == rest;
    } else {
      assert s[0] == w[0] && w[0] != c;
      assert s[..1] != [c];
      assert s[1..] == w[1..] + [c] + rest;
      SplitOnFirstSep(w[1..], c, rest);
      assert [w[0]] + w[1..] == w;
    }
  }

  /** Splitting names joined by a one-character separator they do not contain gives them back. */
  lemma {:induction false} SplitOnJoin(names: seq<string>, c: char)
    requires names != []
    requires forall k :: 0 <= k < |names| ==> NoChar(names[k], c)
    ensures SplitOn(Join(names, [c]), [c]) == names
  {
    if |names| == 1 {
      SplitOnNoSep(names[0], c);
    } else {
      var tail := names[1..];
      forall k | 0 <= k < |tail| ensures NoChar(tail[k], c) {
        assert tail[k] == names[k + 1];
      }
      SplitOnJoin(tail, c);
      SplitOnFirstSep(names[0], c, Join(names[1..], [c]));
    }
  }

  /** Joining trimmed non-empty parts gives a trimmed non-empty string that starts with the first part. */
  lemma {:induction false} JoinTrimmed(names: seq<string>, sep: string)
    requires names != []
    requires forall k :: 0 <= k < |names| ==> names[k] != [] && Trimmed(names[k])
    ensures Join(names, sep) != [] && Trimmed(Join(names, sep)) && Join(names, sep)[0] == names[0][0]
  {
    var head := names[0];
    assert head != [] && Trimmed(head);
    if |names| > 1 {
      var tail := names[1..];
      forall k | 0 <= k < |tail| ensures tail[k] != [] && Trimmed(tail[k]) {
        assert tail[k] == names[k + 1];
      }
      JoinTrimmed(tail, sep);
      var rest := Join(tail, sep);
      var whole := head + sep + rest;
      assert Join(names, sep) == whole;
      assert whole[0] == head[0];
      assert whole[|whole| - 1] == rest[|rest| - 1];
    }
  }

  /**
   * Round trip: the like line the client shows — the like label, `：`, then
   * the names joined by the configured one-character separator — is split
   * back into exactly those names, when the names are trimmed, do not start
   * with a colon and do not contain the separator.
   */
  lemma SplitLikeNamesRoundTrip(cfg: Config, names: seq<string>, c: char)
    requires Lang(cfg, LikeSeparatorKey) == [c]
    requires Lang(cfg, LikeKey) != [] && !IsSpace(Lang(cfg, LikeKey)[0])
    requires names != []
    requires forall k :: 0 <= k < |names| ==> names[k] != [] && Trimmed(names[k]) && NoChar(names[k], c)
    requires names[0][0] != ':' && names[0][0] != '：'
    ensures SplitLikeNames(cfg, Lang(cfg, LikeKey) + "：" + Join(names, [c])) == names
  {
    var prefix := Lang(cfg, LikeKey);
    var joined := Join(names, [c]);
    var text := prefix + "：" + joined;
    assert forall k :: 0 <= k < |names| ==> names[k] != [] && Trimmed(names[k]);
    JoinTrimmed(names, [c]);
    DropLikePrefixOfLine(prefix, joined);
    SplitOnJoin(names, c);
    StripNonBlankFixed(names);
    assert SplitLikeNames(cfg, text) == StripNonBlank(SplitOn(DropLikePrefix(Strip(text), prefix), [c]));
  }

  /** A like line `label：names` loses exactly its label and colon. */
  lemma DropLikePrefixOfLine(prefix: string, joined: string)
    requires prefix != [] && !IsSpace(prefix[0])
    requires joined != [] && Trimmed(joined)
    requires joined[0] != ':' && joined[0] != '：'
    ensures DropLikePrefix(Strip(prefix + "：" + joined), prefix) == joined
  {
    LikeLineTrimmed(prefix, joined);
    LikeLineAfterLabel(prefix, joined);
  }

  lemma LikeLineTrimmed(prefix: string, joined: string)
    requires prefix != [] && !IsSpace(prefix[0])
    requires joined != [] && Trimmed(joined)
    ensures Strip(prefix + "：" + joined) == prefix + "：" + joined
  {
    var text := prefix + "：" + joined;
    assert text[0] == prefix[0] && text[|text| - 1] == joined[|joined| - 1];
    StripFixed(text);
  }

  lemma LikeLineAfterLabel(prefix: string, joined: string)
    requires joined != [] && Trimmed(joined) && joined[0] != ':' && joined[0] != '：'
    ensures DropLikePrefix(prefix + "：" + joined, prefix) == joined
  {
    var text := prefix + "：" + joined;
    assert joined[0] != ' ';
    assert text[..|prefix|] == prefix;
    assert text[|prefix|..] == "：" + joined;
    assert ("：" + joined)[1..] == joined;
    assert LStripColonsAndSpaces("：" + joined) == joined;
  }

  // ---------------------------------------------------------------------------
  // MomentComment.from_text
  // ---------------------------------------------------------------------------

  datatype Comment = Comment(author: string, content: string, replyTo: Option<string>, raw: string)

  predicate IsColon(c: char) { c == '：' || c == ':' }

  predicate NoColon(s: string) { forall j :: 0 <= j < |s| ==> !IsColon(s[j]) }

  /** Index of the first `：` or `:`. */
  function FirstColon(s: string): (r: Option<nat>)
    ensures r.None? <==> NoColon(s)
    ensures r.Some? ==> r.value < |s| && IsColon(s[r.value]) && NoColon(s[..r.value])
  {
    if s == [] then None
    else if IsColon(s[0]) then Some(0)
    else
      match FirstColon(s[1..])
      case None => None
      case Some(i) =>
        assert s[..i + 1] == [s[0]] + s[1..][..i];
        Some(i + 1)
  }

  /** Length of the run of whitespace at the start of `s`. */
  function SpaceRun(s: string): (n: nat)
    ensures n <= |s| && AllSpace(s[..n])
    ensures n < |s| ==> !IsSpace(s[n])
  {
    if s != [] && IsSpace(s[0]) then
      var n := 1 + SpaceRun(s[1..]);
      assert s[..n] == [s[0]] + s[1..][..n - 1];
      n
    else 0
  }

  const ReplyWord := "回复"

  /**
   * After the author, `\s*回复\s*(?P<reply>[^：:]+?)\s*` can match the
   * (colon-free) text `rest` up to the colon: whitespace, the reply word,
   * and at least one more character.
   */
  predicate ReplyFits(rest: string) {
    var w := SpaceRun(rest);
    w + 2 < |rest| && rest[w..w + 2] == ReplyWord
  }

  /** What the lazy reply group captures, already stripped. */
  function ReplyOf(rest: string): string
    requires ReplyFits(rest)
  {
    Strip(rest[SpaceRun(rest) + 2..])
  }

  /** The author may end at `k` (before the colon at `c`): what is left fits the reply group or is only whitespace. */
  predicate AuthorEndsAt(p: string, c: nat, k: nat)
    requires k <= c <= |p|
  {
    ReplyFits(p[k..c]) || AllSpace(p[k..c])
  }

  /** The lazy author group takes the shortest non-empty author after which the rest fits. */
  function AuthorEnd(p: string, c: nat, k: nat): (e: nat)
    requires 1 <= k <= c <= |p|
    requires forall j :: 1 <= j < k ==> !AuthorEndsAt(p, c, j)
    ensures k <= e <= c && AuthorEndsAt(p, c, e)
    ensures forall j :: 1 <= j < e ==> !AuthorEndsAt(p, c, j)
    decreases c - k
  {
    if AuthorEndsAt(p, c, k) then k
    else
      assert k < c;
      AuthorEnd(p, c, k + 1)
  }

  /** `re.match(r'^(?P<author>[^：:]+?)\s*(?:回复\s*(?P<reply>[^：:]+?)\s*)?[：:](?P<content>.*)$', text)` succeeds. */
  predicate CommentMatches(text: string) {
    var c := FirstColon(text);
    c.Some? && c.value >= 1 && '\n' !in text[c.value + 1..]
  }

  /** The text after the colon of a matching line (the `content` group before stripping). */
  function AfterColon(text: string): string
    requires CommentMatches(text)
  {
    text[FirstColon(text).value + 1..]
  }

  /** `MomentComment.from_text(text)` */
  function FromText(input: string): (r: Comment)
    ensures r.raw == Strip(input)
    ensures !CommentMatches(r.raw) ==> r == Comment("", r.raw, None, r.raw)
    ensures CommentMatches(r.raw) ==> r.content == Strip(AfterColon(r.raw)) && r.author != [] && NoColon(r.author)
    ensures NoColon(r.raw) ==> r.author == [] && r.content == r.raw && r.replyTo.None?
  {
    FromStripped(Strip(input))
  }

  function FromStripped(text: string): (r: Comment)
    requires Trimmed(text)
    ensures r.raw == text
    ensures !CommentMatches(text) ==> r == Comment("", text, None, text)
    ensures CommentMatches(text) ==> r.content == Strip(AfterColon(text)) && r.author != [] && NoColon(r.author)
  {
    if CommentMatches(text) then
      var r := FromMatch(text, FirstColon(text).value);
      assert r.content == Strip(AfterColon(text));
      r
    else Comment("", text, None, text)
  }

  /** The groups of a successful match whose colon is at `c`. */
  function FromMatch(text: string, c: nat): (r: Comment)
    requires Trimmed(text) && 1 <= c < |text| && NoColon(text[..c])
    ensures r.raw == text && r.content == Strip(text[c + 1..])
    ensures r.author != [] && NoColon(r.author)
  {
    var k := AuthorEnd(text, c, 1);
    var rest := text[k..c];
    AuthorHasNoColon(text, c, k);
    Comment(Strip(text[..k]), Strip(text[c + 1..]), if ReplyFits(rest) then Some(ReplyOf(rest)) else None, text)
  }

  /** The author group, once stripped, is non-empty and colon-free. */
  lemma AuthorHasNoColon(text: string, c: nat, k: nat)
    requires Trimmed(text) && 1 <= k <= c < |text| && NoColon(text[..c])
    ensures NoColon(Strip(text[..k])) && Strip(text[..k]) != []
  {
    var pre := text[..k];
    assert pre[0] == text[0] && !IsSpace(pre[0]);
    assert TrimLeft(pre) == pre;
    var a := TrimRight(pre);
    TrimRightDropsSpace(pre);
    assert a == pre[..|a|];
    forall j | 0 <= j < |a| ensures !IsColon(a[j]) {
      assert a[j] == pre[j] == text[..c][j];
    }
  }

  predicate NoReplyStart(a: string) { forall j :: 0 <= j < |a| ==> a[j] != '回' }

  /**
   * When the text before the colon at `c` starts with the author `a`, the
   * lazy author group cannot stop inside `a`: what follows the stop neither
   * is all whitespace (the last character of `a` is not) nor starts with the
   * reply word (no character of `a` is `回`).
   */
  lemma ShortAuthorsFail(a: string, p: string, c: nat, j: nat)
    requires a != [] && Trimmed(a) && NoReplyStart(a)
    requires |a| <= c <= |p| && p[..|a|] == a && 1 <= j < |a|
    ensures !AuthorEndsAt(p, c, j)
  {
    var seg := p[j..c];
    var last := |a| - 1 - j;
    assert seg[last] == a[|a| - 1] && !IsSpace(seg[last]);
    var w := SpaceRun(seg);
    assert seg[w] == a[j + w];
  }

  lemma AuthorEndIsLength(a: string, p: string, c: nat)
    requires a != [] && Trimmed(a) && NoReplyStart(a)
    requires |a| <= c <= |p| && p[..|a|] == a && AuthorEndsAt(p, c, |a|)
    ensures AuthorEnd(p, c, 1) == |a|
  {
    forall j | 1 <= j < |a| ensures !AuthorEndsAt(p, c, j) {
      ShortAuthorsFail(a, p, c, j);
    }
  }

  lemma StripLeadingSpace(x: string)
    requires Trimmed(x)
    ensures Strip(" " + x) == x
  {
    assert (" " + x)[1..] == x;
    assert TrimLeft(" " + x) == TrimLeft(x);
    StripFixed(x);
  }

  lemma FirstColonAt(s: string, c: nat)
    requires c < |s| && IsColon(s[c]) && NoColon(s[..c])
    ensures FirstColon(s) == Some(c)
  {
  }

  /**
   * Round trip: a comment rendered as `author: content` parses back into the
   * author and content, with no reply, when the author is trimmed, holds no
   * colon and no `回`, and the content is trimmed, non-empty and holds no
   * newline.
   */
  lemma FromTextPlainRoundTrip(author: string, content: string)
    requires author != [] && Trimmed(author) && NoColon(author) && NoReplyStart(author)
    requires content != [] && Trimmed(content) && '\n' !in content
    ensures FromText(author + ": " + content) == Comment(author, content, None, author + ": " + content)
  {
    var line := author + ": " + content;
    var c := |author|;
    assert line[..c] == author && line[c + 1..] == " " + content;
    assert Strip(line) == line by {
      assert line[0] == author[0] && line[|line| - 1] == content[|content| - 1];
      StripFixed(line);
    }
    assert FirstColon(line) == Some(c) by {
      assert line[c] == ':';
      FirstColonAt(line, c);
    }
    assert CommentMatches(line) by {
      assert '\n' !in " " + content;
    }
    assert AuthorEnd(line, c, 1) == c by {
      assert AuthorEndsAt(line, c, c) by { assert line[c..c] == []; }
      AuthorEndIsLength(author, line, c);
    }
    assert !ReplyFits(line[c..c]);
    assert Strip(line[..c]) == author by { StripFixed(author); }
    assert Strip(line[c + 1..]) == content by { StripLeadingSpace(content); }
  }

  /**
   * Round trip for a reply: `author 回复 target: content` parses back into
   * the author, the reply target and the content under the same conditions,
   * with the target trimmed, non-empty and colon-free.
   */
  lemma FromTextReplyRoundTrip(author: string, target: string, content: string)
    requires author != [] && Trimmed(author) && NoColon(author) && NoReplyStart(author)
    requires target != [] && Trimmed(target) && NoColon(target)
    requires content != [] && Trimmed(content) && '\n' !in content
    ensures var line := author + " 回复 " + target + ": " + content;
            FromText(line) == Comment(author, content, Some(target), line)
  {
    var before := author + " 回复 " + target;
    var line := before + ": " + content;
    assert line == author + " 回复 " + target + ": " + content;
    ReplyLineMatches(author, target, content);
    FromTextOfMatch(line, |before|);
    FromMatchOfReply(author, target, content);
  }

  lemma FromTextOfMatch(line: string, c: nat)
    requires Strip(line) == line && CommentMatches(line) && FirstColon(line) == Some(c)
    ensures Trimmed(line) && 1 <= c < |line| && NoColon(line[..c])
    ensures FromText(line) == FromMatch(line, c)
  {
  }

  lemma FromMatchOfReply(author: string, target: string, content: string)
    requires author != [] && Trimmed(author) && NoColon(author) && NoReplyStart(author)
    requires target != [] && Trimmed(target) && NoColon(target)
    requires content != [] && Trimmed(content)
    requires var line := author + " 回复 " + target + ": " + content;
             Trimmed(line) && 1 <= |author + " 回复 " + target| < |line| && NoColon(line[..|author + " 回复 " + target|])
    ensures var line := author + " 回复 " + target + ": " + content;
            FromMatch(line, |author + " 回复 " + target|) == Comment(author, content, Some(target), line)
  {
    var before := author + " 回复 " + target;
    var line := before + ": " + content;
    var c := |before|;
    assert line[..|author|] == author;
    assert line[..c] == before;
    assert line[c + 1..] == " " + content;
    ReplySegment(author, target, line);
    AuthorEndIsLength(author, line, c);
    StripFixed(author);
    StripLeadingSpace(content);
  }

  lemma ReplyLineMatches(author: string, target: string, content: string)
    requires author != [] && Trimmed(author) && NoColon(author)
    requires target != [] && NoColon(target)
    requires content != [] && Trimmed(content) && '\n' !in content
    ensures var before := author + " 回复 " + target;
            var line := before + ": " + content;
            Strip(line) == line && FirstColon(line) == Some(|before|) && CommentMatches(line)
  {
    var before := author + " 回复 " + target;
    var line := before + ": " + content;
    var c := |before|;
    forall j | 0 <= j < |before| ensures !IsColon(before[j]) {
      if j >= |author| + 4 { assert before[j] == target[j - |author| - 4]; }
    }
    assert line[..c] == before;
    assert line[c] == ':';
    FirstColonAt(line, c);
    assert line[0] == author[0] && line[|line| - 1] == content[|content| - 1];
    StripFixed(line);
    assert line[c + 1..] == " " + content;
  }

  /** After the author comes `回复`, so the author stops there and the reply group captures the target. */
  lemma ReplySegment(author: string, target: string, line: string)
    requires Trimmed(target) && target != []
    requires |author + " 回复 " + target| <= |line|
    requires line[..|author + " 回复 " + target|] == author + " 回复 " + target
    ensures var c := |author + " 回复 " + target|;
            AuthorEndsAt(line, c, |author|) && ReplyFits(line[|author|..c]) && ReplyOf(line[|author|..c]) == target
  {
    var c := |author| + 4 + |target|;
    var seg := line[|author|..c];
    assert seg == " 回复 " + target;
    assert SpaceRun(seg) == 1 by {
      assert SpaceRun(seg[1..]) == 0;
    }
    assert seg[1..3] == ReplyWord;
    assert seg[3..] == " " + target;
    StripLeadingSpace(target);
  }

  /** A concrete reply line with an ASCII colon: author, reply target and content come apart. */
  lemma FromTextReplyExample()
    ensures FromText("Carol 回复 Bob: thanks") == Comment("Carol", "thanks", Some("Bob"), "Carol 回复 Bob: thanks")
  {
    assert "Carol 回复 Bob: thanks" == "Carol" + " 回复 " + "Bob" + ": " + "thanks";
    FromTextReplyRoundTrip("Carol", "Bob", "thanks");
  }
}
