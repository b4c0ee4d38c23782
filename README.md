# WeChat Moments automation heuristics, modelled in Dafny

SuperWx drives the WeChat desktop client through the Windows UI Automation
tree. Its Moments ("朋友圈") features are heuristics. Each one searches a
snapshot of that tree with a bounded breadth-first scan. It then filters and
ranks what it finds and decides what to click. The heuristics:

- find the comment separators (`mmui::TimelineCommentCell`) and sort them by
  their top coordinate;
- click the "..." hotspot above a separator;
- look for the like/comment panel, or for like, cancel and comment labels near
  the click point;
- pick the like button and click its centre;
- verify the like by polling;
- count successes over pages of separators;
- score the candidate main windows, feed lists and scopes;
- parse a feed item's text into nickname, time, likes and comments.

This project models those heuristics, file by file, and proves what each one
promises.

The modelling choices:

- **UI tree.** The tree is an immutable snapshot (`UiTree.Tree`). Each element
  has a kind, a name, a class, an automation id, an optional rectangle and a
  list of children. An element id outside the snapshot is an element that has
  vanished, and an element whose `children` are missing is one whose
  `GetChildren()` raises. Every read of a vanished element fails. Where the
  source guards a read (`safe_get`, a `try`/`except`), the safe accessors give
  `""` or nothing. Where it reads without a guard (a `ControlTypeName` outside
  any `try`, a bare `GetChildren()`), the operation answers `Raised`
  (`UiTree.Call`) and the script stops there.
- **Polling.** Each polling loop reads a supplied sequence of snapshots, one
  per poll.
- **Clicks.** A click is a value the model returns: a point, or the control
  clicked. It is never performed.
- **Labels.** Labels that go through `_lang` are looked up in an explicit
  configuration value (`MomentText.Config`).
- **Thresholds.** Each file keeps its own thresholds. The library uses:
  - a rectangle bound of 100000 (the scripts use 10000);
  - a separator width of 280 (the scripts use 300);
  - a proximity radius of 340 (one script uses 300).

Modules:

| module | models |
|---|---|
| `Text`, `Geometry`, `UiTree`, `Sorting` | Python string built-ins, rectangles and distance, the tree snapshot, `list.sort` with a key (stable) |
| `Bfs` | the bounded `bfs_find_all` / `bfs_find` loops every file copies |
| `Anchors` | separators, the hotspot, the proximity scan, verification polling and picking, shared by the library and the scripts |
| `Desktop` | window finders: `find_wechat_main` (both variants), `wait_sns_window`, `click_tab_moments` |
| `Paging` | the page loop / separator loop counters of the "like first n" drivers |
| `MomentText`, `MomentFeed`, `MomentLike` | `wxauto4/moment.py` |
| `ProbeAfterMore` | `test/test_moments_probe_after_more_v2.py` |
| `DemoFriend` | `demo_Friend_3.py` |
| `LikeV2` | `test/test_moments_like_v2.py` |
| `FeedLike` | `wxauto4/test_moments_like.py` |
| `ProbeScope` | `wxauto4/probe_moments_scope.py` |

## Model

| member | source | states |
|---|---|---|
| Text.Strip | wxauto4/moment.py:114 | `str.strip()`: the result starts and ends with a non-space and is no longer than the input |
| Text.TrimLeftDropsSpace | wxauto4/moment.py:114 | what `strip` removes from the front is whitespace only |
| Text.TrimRightDropsSpace | wxauto4/moment.py:114 | what `strip` removes from the back is whitespace only |
| Text.StripIsInfix | wxauto4/moment.py:137 | the stripped text is a contiguous piece of the input |
| Text.StripFixed | wxauto4/moment.py:145 | a text with no surrounding whitespace is its own strip |
| Text.StripIdempotent | wxauto4/moment.py:145 | stripping twice gives what stripping once gives |
| Text.StripEmptyIffAllSpace | wxauto4/moment.py:184 | `line.strip()` is empty exactly when the line is all whitespace, which is what the `if line.strip()` filters test |
| Text.NonBlankLines | wxauto4/moment.py:184 | every line kept is non-empty and stripped |
| Text.SplitOn | wxauto4/moment.py:120 | `str.split(sep)` gives at least one part |
| Text.SplitWhereNoSep | wxauto4/moment.py:122 | no part of the `[,:，]` split contains a separator character |
| Text.StripNonBlank | wxauto4/moment.py:120 | `[p.strip() for p in parts if p.strip()]`: at most one entry per part, each non-empty and stripped |
| Text.StripNonBlankFixed | wxauto4/moment.py:120 | parts that are already non-empty and stripped pass through unchanged |
| Text.StripNonBlankKeepsChars | wxauto4/moment.py:122 | stripping and dropping parts introduces no character that was not in the parts |
| Text.Lower | wxauto4/probe_moments_scope.py:72-74 | `str.lower()` keeps the length and lower-cases each character |
| Text.FirstNumber | wxauto4/moment.py:199-201 | `re.findall(r"\d+", line)[0]` is taken only when the line holds a digit: none exactly when it holds none, and otherwise the value of the first run of ASCII digits |
| Geometry.RectOk | wxauto4/moment.py:35-46 | `_rect_ok`: false for a missing or empty rectangle and for any coordinate below -1000 or above the file's bound; its consequences are in `RectOkSize` |
| Geometry.RectOkSize | wxauto4/moment.py:35-46 | a rectangle `_rect_ok` accepts is at least 1 pixel wide and high, and at most bound + 1000 |
| Geometry.RectOkBoundMonotone | test/test_moments_probe_after_more_v2.py:75-86 | a rectangle the scripts accept (bound 10000) is accepted under any larger bound, e.g. the library's 100000 |
| Geometry.GapX | wxauto4/moment.py:51 | the horizontal gap is 0 exactly when `l <= x <= r` |
| Geometry.GapY | wxauto4/moment.py:52 | the vertical gap is 0 exactly when `t <= y <= b` |
| Geometry.SqDist | wxauto4/moment.py:49-53 | the square of `_dist_point_to_rect`, the sum of the squared gaps, so that a radius test needs no square root; `SqDistZeroIffInside` and `SqDistLeftOf` state its meaning |
| Geometry.SqDistZeroIffInside | test/test_moments_probe_after_more_v2.py:92-96 | the distance is 0 exactly when the point lies in the closed rectangle |
| Geometry.SqDistLeftOf | test/test_moments_probe_after_more_v2.py:92-96 | a point straight left of the rectangle, at a height inside it, is `l - x` away |
| Geometry.WithinMonotone | wxauto4/moment.py:576 | a control within radius r1 is within every larger radius |
| Geometry.Center | wxauto4/moment.py:604-605 | `((l+r)//2, (t+b)//2)` lies inside the rectangle |
| Geometry.TruncDiv | wxauto4/moment.py:558 | `int()` of a quotient truncates toward zero, from below for positive and from above for negative values |
| Geometry.RatioXInside | wxauto4/moment.py:558 | `int(l + (r-l)*ratio)` stays within `[l, r]` for a ratio between 0 and 1 |
| Bfs.Dequeued | wxauto4/moment.py:60-72 | the FIFO visit order pops at most `max_nodes` elements and nothing from an empty queue |
| Bfs.Hits | wxauto4/moment.py:67-68 | each hit satisfies `pred`, and there are no more hits than visited elements |
| Bfs.HitsAreVisited | wxauto4/moment.py:63-70 | every hit is a visited element |
| Bfs.FindAll | wxauto4/moment.py:56-73 | the loop returns exactly the first `max_hits` hits among the first `max_nodes` elements dequeued |
| Bfs.SearchAll | wxauto4/moment.py:56-73 | the result of `_bfs_find_all`: the first `max_hits` hits among the first `max_nodes` elements of the FIFO visit order; `SearchAllBounds` states its bounds |
| Bfs.SearchAllBounds | wxauto4/moment.py:56-73 | the result has at most `max_hits` and at most `max_nodes` elements, each satisfies `pred` and was dequeued |
| Bfs.FindFirst | test/test_moments_probe_after_more_v2.py:104-117 | `bfs_find` returns the first dequeued element satisfying `pred` among the first `max_nodes`, or None |
| Bfs.SearchFirst | test/test_moments_probe_after_more_v2.py:104-117 | the result of `bfs_find`: the first hit of the visit order under the node cap, or none; `SearchFirstIff` states when it finds one |
| Bfs.FirstIsAllCappedAtOne | test/test_moments_probe_after_more_v2.py:104-117 | `bfs_find` answers what `bfs_find_all` answers with one hit allowed |
| Bfs.SearchFirstIff | test/test_moments_probe_after_more_v2.py:104-117 | some element is found exactly when some visited element satisfies `pred`, and what is found is a visited element |
| Bfs.FailedReadPrunes | wxauto4/moment.py:66-72 | an element whose children cannot be read is visited and contributes no children |
| Bfs.SelfLoopVisitsBudget | wxauto4/moment.py:63 | on a cyclic snapshot the scan still stops after `max_nodes` visits |
| Sorting.SortBy | wxauto4/moment.py:552 | sorting keeps the length and the multiset of the entries |
| Sorting.SortBySorted | wxauto4/moment.py:552 | the sorted list is ordered by the key |
| Sorting.SortByHead | test/test_moments_probe_after_more_v2.py:254-255 | the head of a non-empty sorted list is the first entry with the smallest key |
| Sorting.FirstMinIndex | test/test_moments_probe_after_more_v2.py:254 | the index of the earliest entry with the smallest key |
| Sorting.ScoreDescending | wxauto4/probe_moments_scope.py:118 | sorting by descending score is sorting by the negated score |
| Anchors.SepOf | wxauto4/moment.py:544-551 | a found cell is kept exactly when it has a rectangle that passes the file's `rect_ok` (if any), is at least the minimum width wide and at most 3 high |
| Anchors.KeepSepsSound | wxauto4/moment.py:543-551 | every kept row comes from a found cell that passes the filter |
| Anchors.FindSeparators | wxauto4/moment.py:535-553 | the separator loop builds the filtered rows and sorts them by top |
| Anchors.ScanPage | wxauto4/moment.py:535-553 | one page's separator search, shared by every driver, answers the separators the driver's page function assigns to that page |
| Anchors.SeparatorRows | wxauto4/moment.py:535-553 | the separators a file reports: the kept cells of the search, sorted by top; `SeparatorRowsOrdered` and `SeparatorRowsShape` state its properties |
| Anchors.SeparatorRowsOrdered | wxauto4/moment.py:552-553 | the separator list is ascending by top and is a permutation of the rows the filter kept |
| Anchors.SeparatorRowsShape | demo_Friend_3.py:171-188 | every separator is a `TimelineCommentCell` list item the scan visited, and its rectangle passes the filter |
| Anchors.Hotspot | wxauto4/moment.py:555-559 | the hotspot is `y_offset_up` above the separator's top |
| Anchors.NearLabel | wxauto4/moment.py:573-577 | the proximity test: the (stripped) name is one of the labels, the rectangle passes `_rect_ok` and lies within the radius of the click |
| Anchors.HotspotAboveSeparator | test/test_moments_probe_after_more_v2.py:201-205 | with ratio 0.92 the hotspot lies above the separator, within its horizontal span |
| Anchors.ControlsNear | wxauto4/moment.py:564-581 | at most 80 hits; each is named like, cancel or comment, has a valid rectangle and lies within the radius |
| Anchors.NameSet | wxauto4/moment.py:614 | the name set holds exactly the names of the controls found |
| Anchors.PollVerdict | demo_Friend_3.py:238-242 | a cancel label wins; otherwise the absence of the like label verifies; otherwise keep polling |
| Anchors.TimeoutIffNoPollDecides | demo_Friend_3.py:234-244 | `verify_timeout` exactly when every poll still showed the like label and no cancel label |
| Anchors.VerifyPolls | wxauto4/moment.py:609-620 | the polling loop answers the verdict of the first poll that decides |
| Anchors.PickButton | wxauto4/moment.py:583-598 | picks the first control, in list order, that is a button named the target of class `mmui::XButton`; when there is none, the first control named the target; nothing exactly when no control has that name |
| Anchors.FirstWhere | demo_Friend_3.py:217-224 | the index of the first control matching the strict or the loose test |
| Anchors.CenterClick | wxauto4/moment.py:600-607 | a click point exists exactly when the rectangle is valid, and it lies inside the rectangle |
| Desktop.FirstMatch | demo_Friend_3.py:126-128 | the index of the first window passing the test, none failing before it |
| Desktop.FindWindow | demo_Friend_3.py:126-131 | the `for w in ...: if test(w): return w` loop answers the first passing window |
| Desktop.FirstPoll | test/test_moments_like_v2.py:137-147 | nothing exactly when no poll has a window; otherwise the pick of the first poll that has one |
| Desktop.WaitWindow | test/test_moments_like_v2.py:137-147 | the polling loop answers the first poll's pick |
| Desktop.FindMainExact | demo_Friend_3.py:124-132 | an exact main window (`mmui::MainWindow` titled 微信) wins over any fuzzy title match |
| Desktop.MainScore | wxauto4/test_moments_like.py:56-62 | the score is at most 18 and at least 10 for the main class |
| Desktop.BestOf | wxauto4/test_moments_like.py:50-66 | best is none exactly when the best score is still -1; otherwise best is a candidate carrying that score |
| Desktop.BestOfIsFirstMax | wxauto4/test_moments_like.py:63-65 | the best candidate has the highest score, is the earliest among equal scores, and is none only when no window qualifies |
| Desktop.FindMainScored | wxauto4/probe_moments_scope.py:38-55 | the scoring loop answers `BestOf` over the root's children |
| Desktop.TabToClick | wxauto4/test_moments_like.py:69-83 | the library's tab search wins; without the fallback nothing is clicked; with it, the first child button whose name contains 朋友圈 is clicked, nothing exactly when no child is one, and a failed `main.GetChildren()` raises |
| Paging.Verified | wxauto4/moment.py:692-693 | the number of successful attempts is at most the number of attempts |
| Paging.SepsFromConsistent | wxauto4/moment.py:680-694 | the separator loop keeps the counters consistent with the attempts and attempts every separator unless the target is met |
| Paging.PagesFromConsistent | wxauto4/moment.py:668-697 | the page loop keeps the counters consistent and runs every page unless the target is met |
| Paging.RunCounters | wxauto4/moment.py:665-709 | `tried` counts every separator attempted; `success` counts exactly the attempts verified, never exceeds `max(n,0)` or `tried`; at most `max_pages` pages, all of them when the target is missed |
| Paging.Run | wxauto4/moment.py:665-709 | the counters of the page and separator loops, as a function of the separators each page shows and of each attempt's outcome; `RunCounters` states its properties |
| Paging.VerifiedNone | wxauto4/moment.py:692-693 | when no attempt succeeds, `success` stays 0: it rises only on a verified attempt |
| Paging.NoTargetNoAttempt | wxauto4/moment.py:681-682 | with `n <= 0` no separator is attempted |
| MomentText.Lang | wxauto4/moment.py:76-89 | the configured language's entry when present, else the `cn` entry, else the key itself; a key missing from the table, or mapped to an empty dictionary, gives the key |
| MomentText.LangUnmappedIsKey | wxauto4/moment.py:86-88 | an unmapped key is its own text in every language |
| MomentText.ClockNeedsOneDigit | wxauto4/moment.py:100 | `\d{1,2}:\d{2}` occurs exactly when `\d:\d\d` does |
| MomentText.IsTimeLine | wxauto4/moment.py:92-104 | `_is_time_line`: the text is non-empty and one of the five patterns occurs in it; `TimeLineInContext` and `TimeLineExamples` state its behaviour |
| MomentText.TimeLineInContext | wxauto4/moment.py:104 | `re.search` semantics: a time line stays a time line with text around it |
| MomentText.TimeLineExamples | wxauto4/moment.py:92-104 | each of the five patterns on an example, and the empty text is no time |
| MomentText.SplitLikeNames | wxauto4/moment.py:107-123 | empty input gives no names; every name is trimmed and non-empty; with no configured separator no name holds `,`, `:` or `，` |
| MomentText.SplitOnJoin | wxauto4/moment.py:120 | `split` on a one-character separator undoes `join` of parts that do not contain it |
| MomentText.JoinTrimmed | wxauto4/moment.py:120 | joined trimmed non-empty names form a trimmed line |
| MomentText.SplitLikeNamesRoundTrip | wxauto4/moment.py:113-120 | the line `label：a<sep>b…` splits back into exactly the names |
| MomentText.DropLikePrefixOfLine | wxauto4/moment.py:114-116 | a like line loses exactly its label and the colon after it |
| MomentText.FirstColon | wxauto4/moment.py:143 | the index of the first `：` or `:`, with none before it |
| MomentText.AuthorEnd | wxauto4/moment.py:143 | the lazy author group stops at the shortest author after which the rest fits |
| MomentText.ShortAuthorsFail | wxauto4/moment.py:143 | the lazy author group cannot stop inside an author that is trimmed and holds no `回` |
| MomentText.FromMatch | wxauto4/moment.py:144-149 | the groups of a match: the content is the stripped text after the first colon, and the author is non-empty and colon-free |
| MomentText.FromTextOfMatch | wxauto4/moment.py:143-149 | on a trimmed line that matches, `from_text` takes the groups at the first colon |
| MomentText.ReplySegment | wxauto4/moment.py:143-148 | after `author 回复 `, the author group stops at the author and the reply group captures exactly the target |
| MomentText.FromText | wxauto4/moment.py:136-154 | `raw` is the trimmed input; without a match the author is empty and the content is the whole line; with a match the content is the trimmed text after the first colon and the author is non-empty and colon-free |
| MomentText.AuthorHasNoColon | wxauto4/moment.py:145 | the stripped author is non-empty and colon-free |
| MomentText.FromTextPlainRoundTrip | wxauto4/moment.py:136-154 | `author: content` parses back into author and content, with no reply |
| MomentText.FromTextReplyRoundTrip | wxauto4/moment.py:136-154 | `author 回复 target: content` parses back into author, reply target and content |
| MomentText.FromTextReplyExample | wxauto4/moment.py:142-149 | a reply line with an ASCII colon: "Carol 回复 Bob: thanks" gives author Carol, reply Bob, content thanks |
| MomentFeed.ParseLines | wxauto4/moment.py:183-237 | the nickname is the first non-blank line; a time already recorded stays; an advertisement flag is never cleared |
| MomentFeed.RuleOf | wxauto4/moment.py:198-221 | the first rule a body line meets, in the source's order: image count, like line, exact marker, advertisement, time (only while none is recorded), text |
| MomentFeed.Step | wxauto4/moment.py:198-221 | one loop iteration: the image count, the like line, the advertisement flag, the time or a text line, as the line's rule says |
| MomentFeed.ScanLines | wxauto4/moment.py:194-221 | the loop over the lines before the marker, one `Step` per line; `ScanSnoc`, `ScanTimeIsFirst` and `ScanLikesIsLast` state its properties |
| MomentFeed.ScanSnoc | wxauto4/moment.py:194-221 | the scan of one more line is one more loop step on the scan so far |
| MomentFeed.MarkerStop | wxauto4/moment.py:208-211 | the scan stops at the first line that is exactly the 评论 label and is not taken by the image-count or like rule; with no such line it reads every line |
| MomentFeed.ScanKeeps | wxauto4/moment.py:213-219 | a recorded time is never replaced and the advertisement flag never cleared |
| MomentFeed.ScanTextLines | wxauto4/moment.py:194-221 | every text line kept is a body line that falls through all earlier rules |
| MomentFeed.StepTimeAndLikes | wxauto4/moment.py:204-219 | one line sets the time only when none is recorded, and a like line replaces the previous one |
| MomentFeed.ScanTimeIsFirst | wxauto4/moment.py:217-219 | the time is the first eligible line, and none is recorded exactly when no line is eligible |
| MomentFeed.ScanLikesIsLast | wxauto4/moment.py:204-206 | the like line kept is the last like line, and none exactly when there is none |
| MomentFeed.MarkerStopExtends | wxauto4/moment.py:208-211 | lines after the marker are never scanned |
| MomentFeed.LinesAfterMarkerOnlyComments | wxauto4/moment.py:208-237 | lines after the first 评论 marker change only the comments, never the text, time, likes, images or flags |
| MomentFeed.CollectedAfterFirst | wxauto4/moment.py:224-231 | the second pass collects the non-marker lines after the first marker |
| MomentFeed.CommentsAfterFirstMarker | wxauto4/moment.py:208-211 | when the scan stops at a marker, the comment lines are exactly the lines after it |
| MomentFeed.MarkerStopIsFirst | wxauto4/moment.py:208-210 | the line the scan stops at is the first occurrence of the marker text, which `lines.index` finds |
| MomentFeed.TwoLineName | wxauto4/moment.py:186-211 | a nickname and one ordinary line: the line is scanned and there are no comments |
| MomentFeed.TimeLineTakenAsTime | wxauto4/moment.py:217-219 | a time-like line becomes the time when none is recorded |
| MomentFeed.TimeLineTakenAsText | wxauto4/moment.py:217-221 | with a time already recorded, the same line becomes text |
| MomentFeed.ReparseMovesTimeIntoText | wxauto4/moment.py:180-246 | as written, a parse that raised after setting the time and is run again moves the time line into the text |
| MomentFeed.IndexOf | wxauto4/moment.py:210 | `lines.index(x)`: the first position of `x`, none exactly when absent |
| MomentFeed.Without | wxauto4/moment.py:226-231 | the lines other than the marker, each taken from the input |
| MomentFeed.CommentsOf | wxauto4/moment.py:237 | at most one comment per line |
| MomentFeed.Lookup | wxauto4/moment.py:292-293 | a dictionary lookup finds a value exactly when the key is present, and it is that key's value |
| MomentFeed.SetDefault | wxauto4/moment.py:244 | `setdefault` keeps the first value stored under a key and changes no other key |
| MomentFeed.RecordKeepsFirst | wxauto4/moment.py:240-244 | recording never replaces the control first recorded for a text |
| MomentFeed.RecordStopsAtFailure | wxauto4/moment.py:240-244 | once a child read raises, nothing more is recorded |
| MomentFeed.FirstByAuthor | wxauto4/moment.py:283-286 | the first comment by the author; none exactly when no comment has that author |
| MomentFeed.FirstKeyHit | wxauto4/moment.py:290-293 | the first of the candidate keys that is non-empty and present |
| MomentFeed.FirstFallback | wxauto4/moment.py:295-298 | the first recorded entry that starts with the author and contains the content |
| MomentFeed.ControlFor | wxauto4/moment.py:288-299 | the candidate keys are tried in order, raw text, `author: content`, `author：content`: the first that is non-empty and recorded decides, and beats the fallback; when all three miss, the first recorded entry that starts with the author and contains the content, and none exactly when no entry fits |
| MomentFeed.MomentItem.constructor | wxauto4/moment.py:160-173 | a new item is unparsed, with empty fields |
| MomentFeed.MomentItem.EnsureParsed | wxauto4/moment.py:179-246 | parses once: an already parsed item is unchanged; a vanished control raises before any change; otherwise the fields become `ParseLines` of the name and `_parsed` records whether the child scan finished |
| MomentFeed.MomentItem.Load | wxauto4/moment.py:183-244 | the fields come from the name and the text controls from the children |
| MomentFeed.MomentItem.ParseName | wxauto4/moment.py:183-237 | the fields become `ParseLines` of the non-blank lines of the name, from the fields the item had |
| MomentFeed.MomentItem.RecordAll | wxauto4/moment.py:240-244 | the dictionary becomes the recording of the children, with `false` when their enumeration or a read raised |
| MomentFeed.MomentItem.FindComment | wxauto4/moment.py:281-286 | an unparsed item is parsed first: a vanished control raises and changes nothing; otherwise the fields become `ParseLines` of the name and the text controls the recording of the children; a parsed item is unchanged; the answer is the first comment by the author |
| MomentFeed.MomentItem.GetCommentControl | wxauto4/moment.py:288-299 | parses as `FindComment` does, with the same new state and the same raise, then answers `ControlFor` on the recorded controls |
| MomentFeed.ScanBody | wxauto4/moment.py:194-211 | the first loop computes the scan of the lines before the marker and the lines after its first occurrence |
| MomentFeed.ScanLine | wxauto4/moment.py:198-221 | one body line that is not the marker goes through the rules in order, as one step of the scan |
| MomentFeed.ParseFields | wxauto4/moment.py:183-237 | the parse computes `ParseLines` |
| MomentFeed.CollectAfterMarker | wxauto4/moment.py:224-231 | the second loop computes the collected lines |
| MomentFeed.PostCellsMembers | wxauto4/moment.py:378-385 | the wrapped cells are exactly the list items and custom controls with a non-blank name |
| MomentFeed.PostCells | wxauto4/moment.py:378-385 | no more cells than children |
| MomentFeed.NewItems | wxauto4/moment.py:378-385 | one fresh unparsed item per post cell, in order |
| MomentFeed.MomentList.constructor | wxauto4/moment.py:305-309 | a new list has no cached items |
| MomentFeed.MomentList.Refresh | wxauto4/moment.py:364-365 | `refresh` drops the cache |
| MomentFeed.MomentList.GetItems | wxauto4/moment.py:367-386 | returns the cached list, even an empty one, unless asked to refresh or there is no cache (`_items is None`); otherwise one fresh unparsed item per post cell |
| MomentLike.TryLike | wxauto4/moment.py:680-693 | one separator succeeds exactly when a target button is found near the hotspot, its rectangle is valid and verification passes |
| MomentLike.LikeLatest | wxauto4/moment.py:622-709 | failure when no moments window appears; otherwise `success` and `tried` are the run's counters, `success <= max(n,0)` and `success <= tried` |
| MomentLike.RunPages | wxauto4/moment.py:665-697 | the page loop computes the run's counters |
| MomentLike.AttemptPage | wxauto4/moment.py:680-694 | the separator loop of one page computes `SepsFrom` |
| MomentLike.LikeLatestFailure | wxauto4/moment.py:707-709 | a failure is reported exactly when no attempt of the run passed verification |
| MomentLike.VerifiedSome | wxauto4/moment.py:692-693 | one verified attempt makes `success` positive |
| MomentLike.PickedIsTarget | wxauto4/moment.py:583-598 | the button clicked is named 取消 when cancelling and 赞 otherwise, and none exactly when no control has that name |
| MomentLike.ButtonAmong | wxauto4/moment.py:754-760 | the first child that is a button named one of `names`; nothing exactly when every child exists and none is one; a raise exactly when a vanished child, whose unguarded `ControlTypeName` read fails, comes before any such button |
| MomentLike.FindButton | wxauto4/moment.py:746-760 | no menu gives nothing; otherwise the answer of `ButtonAmong` on the menu's children |
| MomentLike.MenuLike | wxauto4/moment.py:762-771 | no menu gives nothing; a button clicked is a child button named like (or cancel when cancelling); nothing exactly when every child exists and none is such a button; a raise exactly when a vanished child comes before every such button |
| MomentLike.CancelClicksFirstMatch | wxauto4/moment.py:746-767 | the order of the names does not rank them: the first child that is a button named like or cancel wins when all children before it exist |
| MomentLike.InitControls | wxauto4/moment.py:813-824 | a raise exactly when some child has vanished; otherwise the edit box is the first edit child and none only when there is none, and the send button is the last button named send and none only when there is none |
| MomentLike.Send | wxauto4/moment.py:834-868 | the precondition checks in order: no dialog, empty content, no edit box; otherwise sent, by the send button when it exists, else by Enter; an exception is the send failure |
| ProbeAfterMore.CandidatePanelIff | test/test_moments_probe_after_more_v2.py:211-238 | a candidate is a window of no excluded class, with a valid rectangle at most 520×280, within 220 of the click, holding a like/comment/cancel button or text |
| ProbeAfterMore.CheckPanel | test/test_moments_probe_after_more_v2.py:211-238 | the decision chain computes `PanelDistance` |
| ProbeAfterMore.Cands | test/test_moments_probe_after_more_v2.py:244-252 | at most one candidate pair per window |
| ProbeAfterMore.CandsSound | test/test_moments_probe_after_more_v2.py:246-250 | every pair is a candidate window with its distance |
| ProbeAfterMore.CandsComplete | test/test_moments_probe_after_more_v2.py:246-250 | every candidate window has its pair |
| ProbeAfterMore.PanelOnScreen | test/test_moments_probe_after_more_v2.py:244-255 | one poll collects, sorts and takes the nearest |
| ProbeAfterMore.PanelOnIsNearest | test/test_moments_probe_after_more_v2.py:244-255 | none exactly when no window is a candidate; otherwise a candidate at minimal distance |
| ProbeAfterMore.NearestPanel | test/test_moments_probe_after_more_v2.py:240-257 | none exactly when every poll came up empty; otherwise the answer of some poll |
| ProbeAfterMore.FindPanelNearClick | test/test_moments_probe_after_more_v2.py:240-257 | the polling loop computes `NearestPanel` |
| ProbeAfterMore.FirstClickable | test/test_moments_probe_after_more_v2.py:285-297 | the first control at which the click loop stops |
| ProbeAfterMore.ClickFromControlsSpec | test/test_moments_probe_after_more_v2.py:283-301 | what is clicked is named the target; a centre click only after the click raised, at the centre of a valid rectangle; without a target control, `already_liked` exactly when liking and a 取消 control is present, else `not_found` |
| ProbeAfterMore.FirstTargetClicked | test/test_moments_probe_after_more_v2.py:285-290 | the first target control whose click does not raise is clicked |
| ProbeAfterMore.OpenMoreAndProbe | test/test_moments_probe_after_more_v2.py:304-334 | the probe computes `ProbeOf` |
| ProbeAfterMore.ProbeOf | test/test_moments_probe_after_more_v2.py:304-334 | `open_more_and_probe` as a function of what the attempt sees: the nearest panel, else the labelled controls near the hotspot; `ProbeOfSpec` states it |
| ProbeAfterMore.ProbeOfSpec | test/test_moments_probe_after_more_v2.py:304-334 | the moments window is searched only when no panel was found; failure exactly when both searches are empty; scope hits are labelled, valid and within 300 of the hotspot; a click is made exactly when auto-click is on and something was found |
| ProbeAfterMore.Demo | test/test_moments_probe_after_more_v2.py:337-383 | stops with `NoMain`, `TabRaised`, `NoTab` or `NoSns` exactly when, in turn, no exact main window exists, the tab fallback raises, no tab is found, or no moments window appears; otherwise `handled` is the run's success count and at most `max(n,0)` |
| ProbeAfterMore.HandlePages | test/test_moments_probe_after_more_v2.py:364-383 | the page loop computes the run's success count |
| ProbeAfterMore.ProbePage | test/test_moments_probe_after_more_v2.py:373-378 | the separator loop of one page computes `SepsFrom` |
| DemoFriend.LikeOneBySeparator | demo_Friend_3.py:246-258 | the status is `LikeOne`, and ok exactly when it is `liked_…` |
| DemoFriend.LikeOne | demo_Friend_3.py:246-258 | `like_one_by_separator` as a function of what the attempt sees: search near the hotspot, pick, click the centre, verify; `LikeOneSpec` states it |
| DemoFriend.LikeOneSpec | demo_Friend_3.py:246-258 | `panel_found_but_no_like_btn` exactly when no control found is named 赞, with the hit count; `like_btn_rect_invalid` only when a 赞 control has an invalid rectangle; `liked_` never with `verify_timeout`; `clicked_but_not_verified_verify_timeout` exactly when every poll still showed 赞 and no 取消 |
| DemoFriend.LikeFirstNPosts | demo_Friend_3.py:260-317 | stops with `NoMain`, `NoTab` or `NoSns` exactly when, in turn, no main window exists, the library's tab search fails, or no moments window appears; otherwise `success` and `tried` are the run's counters, `success <= max(n,0)` |
| DemoFriend.RunPages | demo_Friend_3.py:290-315 | the page loop computes the run's counters, over at most 10 pages |
| DemoFriend.AttemptPage | demo_Friend_3.py:301-309 | the separator loop of one page computes `SepsFrom` |
| DemoFriend.ExactMainFirst | demo_Friend_3.py:124-132 | an exact main window is returned before any fuzzy match, and what is returned is a window matching one of the two tests |
| LikeV2.LikePanelIff | test/test_moments_like_v2.py:166-179 | the panel test accepts exactly a window of neither the main nor the moments class with a panel mark among the first 18000 elements |
| LikeV2.IsLikePanel | test/test_moments_like_v2.py:166-179 | the panel test of `find_like_panel`: a window of neither the main nor the moments class with a panel mark found by a bounded probe |
| LikeV2.LikePanelSpec | test/test_moments_like_v2.py:162-181 | a panel found comes from some poll and has that shape |
| LikeV2.ClickLikeIn | test/test_moments_like_v2.py:183-204 | the three searches compute `ClickLike` |
| LikeV2.ClickLike | test/test_moments_like_v2.py:183-204 | `click_like`: the target button, else the target text when its click does not raise, else `already_liked` when liking and a 取消 button or text exists, else `not_found`; `ClickLikeSpec` states it |
| LikeV2.ClickLikeSpec | test/test_moments_like_v2.py:183-204 | a target button is clicked whenever one exists; a text only when no button exists; `already_liked` only when liking, nothing was clicked and a 取消 button or text exists |
| LikeV2.TryPanel | test/test_moments_like_v2.py:286-298 | one separator computes `AttemptOf` |
| LikeV2.NudgeSpec | test/test_moments_like_v2.py:286-298 | the first click is the hotspot; a second click 40 pixels left happens exactly when no panel appeared, and then decides the panel; `click_like` runs exactly when a panel was found |
| LikeV2.LikeFirstN | test/test_moments_like_v2.py:239-313 | stops with `NoMain`, `TabRaised`, `NoTab` or `NoSns` exactly when, in turn, no main window exists, the tab fallback raises, no tab is found, or no moments window appears; otherwise `done` and `tried` are the run's counters, `done <= max(n,0)` and `done <= tried` |
| LikeV2.RunPages | test/test_moments_like_v2.py:268-311 | the page loop computes the run's counters, over at most 8 pages |
| LikeV2.AttemptPage | test/test_moments_like_v2.py:281-305 | the separator loop of one page computes `SepsFrom` |
| FeedLike.FeedScore | wxauto4/test_moments_like.py:148-162 | the score in tenths is at most 10 points, includes the child bonus `min(count,50)/10`, and is at least 3 for a name containing 朋友圈 |
| FeedLike.FeedCands | wxauto4/test_moments_like.py:136-164 | at most one candidate per list found |
| FeedLike.FindFeedList | wxauto4/test_moments_like.py:121-167 | the search computes `FeedOf` |
| FeedLike.ScoreLists | wxauto4/test_moments_like.py:136-164 | the scoring loop computes `FeedCands`: one `(score, list)` pair per list found and not excluded, in order |
| FeedLike.FeedOf | wxauto4/test_moments_like.py:121-167 | the list `find_moments_feed_list` returns, the head of the candidates by descending score; `FeedIsBest` states which it is |
| FeedLike.FeedCandsSound | wxauto4/test_moments_like.py:136-164 | every candidate is a list found, not excluded, with its own score |
| FeedLike.FeedCandsComplete | wxauto4/test_moments_like.py:136-164 | every list found and not excluded is a candidate |
| FeedLike.FeedIsBest | wxauto4/test_moments_like.py:121-167 | none exactly when every list is excluded; otherwise a list, never `chat_message_list`/`session_list`/消息/会话, with the highest score |
| FeedLike.OpenActionMenu | wxauto4/test_moments_like.py:170-208 | the three searches compute `MenuButton` |
| FeedLike.MenuButton | wxauto4/test_moments_like.py:170-208 | the button the menu search clicks: by name, else by class, else the first button; `MenuButtonSpec` states the tiers |
| FeedLike.MenuButtonSpec | wxauto4/test_moments_like.py:170-208 | the menu opens exactly when the item has a button; a name-keyword button wins, then a class-keyword button, then the first button |
| FeedLike.TieredButtonSpec | wxauto4/test_moments_like.py:179-206 | the three-tier choice, for any two kinds of button |
| FeedLike.FallbackIsFirstButton | wxauto4/test_moments_like.py:202-204 | the fallback's head is the first button visited |
| FeedLike.ScopeHasLikeButtons | wxauto4/test_moments_like.py:220-226 | the button loop computes `HasLikeButtons` |
| FeedLike.MarkAmong | wxauto4/test_moments_like.py:222-226 | the loop over the buttons found answers whether one carries a like mark |
| FeedLike.HasLikeButtonsSound | wxauto4/test_moments_like.py:220-226 | a like mark found is on a button among the scope's first 6000 elements |
| FeedLike.FindLikeWindowOrPanel | wxauto4/test_moments_like.py:211-244 | the polling loop then the fallback compute `LikeScope` |
| FeedLike.Look | wxauto4/test_moments_like.py:230-237 | one pass over the root's children: the first window that is a like window, not of the main class; nothing exactly when every window exists and none is one; a raise when a vanished window, whose `ControlTypeName` read fails, comes first |
| FeedLike.PollLikeWindow | wxauto4/test_moments_like.py:229-238 | nothing exactly when every poll finds neither a like window nor a vanished window |
| FeedLike.PollLikeWindowFirst | wxauto4/test_moments_like.py:229-238 | otherwise the answer is that of the first poll that finds a like window or raises, every earlier poll finding nothing |
| FeedLike.LookOnce | wxauto4/test_moments_like.py:230-237 | the loop over the root's children computes `Look` |
| FeedLike.LikeScopeFallback | wxauto4/test_moments_like.py:240-244 | when no poll stops early, `main` is answered exactly when it shows like buttons, and nothing otherwise |
| FeedLike.LikeScopeFromPoll | wxauto4/test_moments_like.py:229-237 | a window answered from a poll is a window of that poll, not of the main class, with like buttons; every window before it exists and is not one, and every earlier poll found nothing |
| FeedLike.LikeScopeRaised | wxauto4/test_moments_like.py:229-232 | the search raises only when, on the first poll that stops early, a vanished window comes before any like window |
| FeedLike.ClickLikeInPanel | wxauto4/test_moments_like.py:247-268 | the two searches compute `ClickInPanel` |
| FeedLike.ClickInPanel | wxauto4/test_moments_like.py:247-268 | `click_like_in_panel`: the first button named the target, else `already_liked` when liking and a 取消 button exists, else `not_found`; `ClickInPanelSpec` states it |
| FeedLike.ClickInPanelSpec | wxauto4/test_moments_like.py:247-268 | clicks exactly when a button named the target exists, the first one visited; `already_liked` exactly when liking, no target button, and a 取消 button exists |
| FeedLike.PostItems | wxauto4/test_moments_like.py:302-310 | the posts are exactly the items with a class or a name |
| FeedLike.CountLiked | wxauto4/test_moments_like.py:317-336 | the count never exceeds the number of posts handled |
| FeedLike.CountLikedIsCount | wxauto4/test_moments_like.py:317-336 | `done` is the number of posts whose handling ended in a click |
| FeedLike.HandlePost | wxauto4/test_moments_like.py:324-338 | one post: menu, panel, click, as `PostOf` |
| FeedLike.LikeFirstNPosts | wxauto4/test_moments_like.py:271-342 | each early stop (no main window, tab fallback raises, no tab, no feed, no posts) happens exactly when its condition holds; otherwise the first `max(n,1)` posts are handled in order: `done` counts the clicks among the posts handled before the first one whose panel search raises, or among all of them when none raises |
| FeedLike.HandleBatch | wxauto4/test_moments_like.py:317-340 | the post loop stops at the first post that raises; `done` is `CountLiked` of the posts handled before it, or of all of them |
| FeedLike.HandlePosts | wxauto4/test_moments_like.py:317-340 | the loop over `post_items[:max(n,1)]` ends either with every post handled, none raising, and `done` the clicks among them, or at the first post whose panel search raises, with `done` the clicks before it |
| FeedLike.TryPost | wxauto4/test_moments_like.py:324-338 | one post reports whether it ended in a click and whether its panel search raised, as `PostOf` says |
| ProbeScope.KeywordHit | wxauto4/probe_moments_scope.py:71-76 | the keyword loop computes `HitsKeyword` |
| ProbeScope.HitsKeyword | wxauto4/probe_moments_scope.py:71-76 | `keyword_hit`: some keyword occurs in the lower-cased text; `KeywordHitSpec` states it |
| ProbeScope.HitsFromIff | wxauto4/probe_moments_scope.py:73-76 | the loop from keyword i on hits exactly when one of those keywords occurs |
| ProbeScope.KeywordHitSpec | wxauto4/probe_moments_scope.py:71-76 | a hit exactly when some keyword occurs in the lower-cased text; case-insensitive; false for the empty text |
| ProbeScope.NodePoints | wxauto4/probe_moments_scope.py:95-101 | one element adds at most 11, and at least 10 when named 赞/取消/评论 |
| ProbeScope.HeaderScore | wxauto4/probe_moments_scope.py:84-87 | the scope-level weights add up to at most 28 |
| ProbeScope.ScopeHeader | wxauto4/probe_moments_scope.py:84-87 | the four scope-level tests compute `HeaderScore` |
| ProbeScope.PointsOf | wxauto4/probe_moments_scope.py:89-106 | a run of elements adds at most 11 per element |
| ProbeScope.ScanPoints | wxauto4/probe_moments_scope.py:95-101 | the per-element tests compute `NodePoints` |
| ProbeScope.ScoreScope | wxauto4/probe_moments_scope.py:78-107 | the scan computes `ScopeScore` |
| ProbeScope.ScopeScore | wxauto4/probe_moments_scope.py:78-107 | `score_scope`: the header score plus the points of the first 3000 elements visited; `ScopeScoreSpec` states it |
| ProbeScope.PointsOfSplit | wxauto4/probe_moments_scope.py:95-101 | the scan's points are one per keyword element plus ten per mark element |
| ProbeScope.CountWhereIsCard | wxauto4/probe_moments_scope.py:96-101 | the running count is the number of positions that qualify |
| ProbeScope.PointsOfCard | wxauto4/probe_moments_scope.py:89-106 | the scan's points are the number of keyword elements plus ten times the number of mark elements |
| ProbeScope.ScopeScoreSpec | wxauto4/probe_moments_scope.py:78-107 | the score is the header score plus one per keyword element and ten per mark element among at most 3000 visited, and at most 28 + 11·3000 |
| ProbeScope.WindowsOf | wxauto4/probe_moments_scope.py:112-115 | exactly the root's window children |
| ProbeScope.Scored | wxauto4/probe_moments_scope.py:117 | one `(score, window)` pair per window, in order |
| ProbeScope.ListCandidateWindows | wxauto4/probe_moments_scope.py:109-119 | the function computes `CandidateWindows` with `score_scope` as the score |
| ProbeScope.CandidateWindows | wxauto4/probe_moments_scope.py:109-119 | the window children paired with their scores, sorted by descending score; `CandidateWindowsSpec` states it |
| ProbeScope.ScoreAll | wxauto4/probe_moments_scope.py:117 | the scoring loop pairs every window with its score, in order |
| ProbeScope.SortedScoresOrdered | wxauto4/probe_moments_scope.py:118 | the sorted list is in descending score order |
| ProbeScope.SortedScoresMembers | wxauto4/probe_moments_scope.py:117-118 | every sorted pair is a window with its own score, and every window appears |
| ProbeScope.CandidateWindowsSpec | wxauto4/probe_moments_scope.py:109-119 | lists exactly the window children, each with its score, in descending score order |
| ProbeScope.CandidateWindowsHead | wxauto4/probe_moments_scope.py:117-118 | the head is the earliest window child of highest score |
| ProbeScope.SortedScoresHead | wxauto4/probe_moments_scope.py:118 | the head of a descending sort is the earliest pair of highest score |

## Left out

- Mouse, keyboard and clipboard injection (`win32.Click`, `mouse_event`, `SendKeys`, `SetClipboardText`): a click is a point or control returned by the model.
- Scrolling between pages and the pre-scroll: each page is a new snapshot supplied by the caller.
- `SetFocus`, `Exists`, `SwitchToMoments`, window enumeration and `GetRootControl`: the screen is a supplied snapshot; `Exists` and the library's `ButtonControl(Name=...)` tab search are supplied booleans and results.
- Wall-clock time: `time.sleep` is dropped, and each timeout loop runs over a supplied finite sequence of polls.
- Square roots: distances are compared squared against the squared radius.
- Floating point: `x_ratio` 0.92 is the exact ratio 92/100, truncated toward zero; the child bonus `min(count, 50) / 10.0` is kept in integer tenths, so every feed score is ten times the source's.
- General regular expressions: the five time patterns, the `[,:，]` split and the comment pattern are hand-written predicates; the image-count pattern `re_图片数` comes from the language table, which is not part of this model, so it is a parameter of the parser (`MomentFeed.Parser`).
- `languages.py` is not part of this model: the label table is a parameter (`MomentText.Config`).
- Control types other than window, button, text, list item, list, table, custom and edit read as one kind; in `ProbeScope.TypeName` its name reads as the empty text.
- `Text.Lower` lower-cases ASCII letters only; `str.lower()` also folds other scripts.
- Exceptions: a vanished element is an element id outside the snapshot whose every read fails. A `Click()` that raises is a supplied boolean in `ProbeAfterMore` and `LikeV2`. An exception raised elsewhere by a click is not modelled.
- The desktop root's own `GetChildren()` is taken to succeed: each poll supplies the list of top-level windows (`Screen.windows`).
- Text.FirstNumber: treats only the ASCII digits `0`-`9` as `\d`, while Python's `re` and `int()` also accept every other Unicode decimal digit, so "３张" gives no image count in the model and 3 in the source.
- MomentText.IsTimeLine: the digit classes of the date, month-day and clock patterns are ASCII only, so a full-width "１２:３０" is no time line in the model, while Python's `\d` matches it.
- `MomentList._locate_list`, `Moment._ensure_list`, `GetMoments`, `FindMomentByPublisher`, `_invoke_action_menu`, `MomentActionMenu._locate`, `comment`, `close`, and `MomentCommentDialog._locate`: these are lookups over live windows. The model takes their results as given.
- Logging and printing (`wxlog`, `summary`, `dump_controls`, `print_hits` and every `print`): they decide nothing.
- The sample script `one.py` is not part of this model: it only calls into the `WeChat` class. Nor are the `__main__` drivers.
- FeedLike.FeedIsBest: it does not state which list wins a tie of equal scores; the sort is stable, so that is the earliest found.
