/**
 * The few Python string builtins the moments code relies on, written out
 * over `seq<char>`: whitespace in the sense of `str.isspace`, `strip`,
 * `startswith`, `in` (substring), `str.split(sep)`, `splitlines` and the
 * ASCII part of `lower`.
 */
module Text {

  datatype Option<+T> = None | Some(value: T)

  /** Characters for which Python's `str.isspace()` (and the regex class `\s`) holds. */
  predicate IsSpace(c: char) {
    c == ' ' || ('\t' <= c <= '\r') || ('\U{1c}' <= c <= '\U{1f}') || c == '\U{85}' || c == '\U{a0}'
    || c == '\U{1680}' || ('\U{2000}' <= c <= '\U{200a}') || c == '\U{2028}' || c == '\U{2029}'
    || c == '\U{202f}' || c == '\U{205f}' || c == '\U{3000}'
  }

  /** Characters at which `str.splitlines()` breaks a line. */
  predicate IsLineBreak(c: char) {
    c == '\n' || c == '\r' || c == '\U{0b}' || c == '\U{0c}' || ('\U{1c}' <= c <= '\U{1e}')
    || c == '\U{85}' || c == '\U{2028}' || c == '\U{2029}'
  }

  predicate IsDigit(c: char) { '0' <= c <= '9' }

  predicate AllSpace(s: string) { forall i :: 0 <= i < |s| ==> IsSpace(s[i]) }

  function TrimLeft(s: string): (r: string)
    ensures |r| <= |s|
    ensures r != [] ==> !IsSpace(r[0])
  {
    if s != [] && IsSpace(s[0]) then TrimLeft(s[1..]) else s
  }

  /** `TrimLeft` keeps a suffix of its argument. */
  lemma {:induction false} TrimLeftSuffix(s: string)
    ensures TrimLeft(s) == s[|s| - |TrimLeft(s)|..]
    decreases |s|
  {
    if s != [] && IsSpace(s[0]) {
      TrimLeftSuffix(s[1..]);
      assert s[1..][|s| - 1 - |TrimLeft(s)|..] == s[|s| - |TrimLeft(s)|..];
    }
  }

  /** What `TrimLeft` removes is whitespace. */
  lemma {:induction false} TrimLeftDropsSpace(s: string)
    ensures AllSpace(s[..|s| - |TrimLeft(s)|])
    decreases |s|
  {
    if s != [] && IsSpace(s[0]) {
      TrimLeftDropsSpace(s[1..]);
      var r := TrimLeft(s[1..]);
      assert s[..|s| - |r|] == [s[0]] + s[1..][..|s| - 1 - |r|];
    }
  }

  function TrimRight(s: string): (r: string)
    ensures |r| <= |s| && r == s[..|r|]
    ensures r != [] ==> !IsSpace(r[|r| - 1])
  {
    if s != [] && IsSpace(s[|s| - 1]) then TrimRight(s[..|s| - 1]) else s
  }

  /** What `TrimRight` removes is whitespace. */
  lemma {:induction false} TrimRightDropsSpace(s: string)
    ensures AllSpace(s[|TrimRight(s)|..])
    decreases |s|
  {
    if s != [] && IsSpace(s[|s| - 1]) {
      TrimRightDropsSpace(s[..|s| - 1]);
      var r := TrimRight(s[..|s| - 1]);
      assert s[|r|..] == s[..|s| - 1][|r|..] + [s[|s| - 1]];
    }
  }

  /** Neither end is whitespace: `s.strip() == s`. */
  predicate Trimmed(s: string) { s == [] || (!IsSpace(s[0]) && !IsSpace(s[|s| - 1])) }

  /** `s.strip()` */
  function Strip(s: string): (r: string)
    ensures Trimmed(r)
    ensures |r| <= |s|
  {
    TrimRight(TrimLeft(s))
  }

  lemma StripFixed(s: string)
    requires Trimmed(s)
    ensures Strip(s) == s
  {
  }

  /** `s.strip()` is empty exactly when every character of `s` is whitespace. */
  lemma StripEmptyIffAllSpace(s: string)
    ensures Strip(s) == [] <==> AllSpace(s)
  {
    var l := TrimLeft(s);
    TrimLeftSuffix(s);
    TrimLeftDropsSpace(s);
    TrimRightDropsSpace(l);
    if l != [] {
      assert !IsSpace(l[0]) && s[|s| - |l|] == l[0];
      assert l[0..] == l;
    } else {
      assert s[..|s| - |l|] == s;
    }
  }

  lemma StripIdempotent(s: string)
    ensures Strip(Strip(s)) == Strip(s)
  {
    StripFixed(Strip(s));
  }

  /** The result of `s.strip()` is a contiguous piece of `s`. */
  lemma StripIsInfix(s: string) returns (i: nat)
    ensures i + |Strip(s)| <= |s| && Strip(s) == s[i..i + |Strip(s)|]
  {
    var l := TrimLeft(s);
    TrimLeftSuffix(s);
    i := |s| - |l|;
    assert Strip(s) == l[..|Strip(s)|];
  }

  predicate StartsWith(s: string, prefix: string) {
    |prefix| <= |s| && s[..|prefix|] == prefix
  }

  predicate OccursAt(s: string, k: string, i: nat) {
    i + |k| <= |s| && s[i..i + |k|] == k
  }

  /** Python's `k in s` for strings. */
  predicate Contains(s: string, k: string) {
    exists i :: 0 <= i <= |s| && OccursAt(s, k, i)
  }

  lemma ContainsWitness(s: string, k: string, i: nat)
    requires OccursAt(s, k, i)
    ensures Contains(s, k)
  {
  }

  /** `s.lstrip(chars)` for the character set `{'：', ':', ' '}` used on a like line. */
  function LStripColonsAndSpaces(s: string): (r: string)
    ensures |r| <= |s|
    ensures r != [] ==> r[0] != '：' && r[0] != ':' && r[0] != ' '
  {
    if s != [] && (s[0] == '：' || s[0] == ':' || s[0] == ' ') then LStripColonsAndSpaces(s[1..]) else s
  }

  /** `s.split(sep)` for a non-empty separator: leftmost, non-overlapping occurrences. */
  function SplitOn(s: string, sep: string): (r: seq<string>)
    requires |sep| > 0
    ensures |r| >= 1
    decreases |s|
  {
    if |s| < |sep| then [s]
    else if s[..|sep|] == sep then [[]] + SplitOn(s[|sep|..], sep)
    else
      var rest := SplitOn(s[1..], sep);
      [[s[0]] + rest[0]] + rest[1..]
  }

  /** Splits at every character satisfying `isSep` (`re.split` on a character class). */
  function SplitWhere(s: string, isSep: char -> bool): (r: seq<string>)
    ensures |r| >= 1
  {
    if s == [] then [[]]
    else
      var rest := SplitWhere(s[1..], isSep);
      if isSep(s[0]) then [[]] + rest else [[s[0]] + rest[0]] + rest[1..]
  }

  /** No piece of a `SplitWhere` holds a separator character. */
  lemma {:induction false} SplitWhereNoSep(s: string, isSep: char -> bool)
    ensures forall k :: 0 <= k < |SplitWhere(s, isSep)| ==>
              forall j :: 0 <= j < |SplitWhere(s, isSep)[k]| ==> !isSep(SplitWhere(s, isSep)[k][j])
    decreases |s|
  {
    if s != [] {
      SplitWhereNoSep(s[1..], isSep);
      var rest := SplitWhere(s[1..], isSep);
      var r := SplitWhere(s, isSep);
      if !isSep(s[0]) {
        forall j | 0 <= j < |r[0]| ensures !isSep(r[0][j]) {
          if j > 0 { assert r[0][j] == rest[0][j - 1]; }
        }
        forall k | 1 <= k < |r| ensures r[k] == rest[k] { }
      }
    }
  }

  /** `[p.strip() for p in parts if p.strip()]` */
  function StripNonBlank(parts: seq<string>): (r: seq<string>)
    ensures |r| <= |parts|
    ensures forall k :: 0 <= k < |r| ==> r[k] != [] && Trimmed(r[k])
  {
    if parts == [] then []
    else
      var head := Strip(parts[0]);
      (if head != [] then [head] else []) + StripNonBlank(parts[1..])
  }

  lemma StripNonBlankUnfold(parts: seq<string>)
    requires parts != []
    ensures StripNonBlank(parts)
            == (if Strip(parts[0]) != [] then [Strip(parts[0])] else []) + StripNonBlank(parts[1..])
  {
  }

  /** Parts that are already trimmed and non-empty pass through unchanged. */
  lemma {:induction false} StripNonBlankFixed(parts: seq<string>)
    requires forall k :: 0 <= k < |parts| ==> parts[k] != [] && Trimmed(parts[k])
    ensures StripNonBlank(parts) == parts
  {
    if parts != [] {
      var tail := parts[1..];
      forall k | 0 <= k < |tail| ensures tail[k] != [] && Trimmed(tail[k]) {
        assert tail[k] == parts[k + 1];
      }
      StripNonBlankFixed(tail);
      StripFixed(parts[0]);
      StripNonBlankUnfold(parts);
      assert [parts[0]] + tail == parts;
    }
  }

  /** Stripping and dropping blanks introduces no character that was not in the parts. */
  lemma {:induction false} StripNonBlankKeepsChars(parts: seq<string>, bad: char -> bool)
    requires forall k :: 0 <= k < |parts| ==> forall j :: 0 <= j < |parts[k]| ==> !bad(parts[k][j])
    ensures forall k :: 0 <= k < |StripNonBlank(parts)| ==>
              forall j :: 0 <= j < |StripNonBlank(parts)[k]| ==> !bad(StripNonBlank(parts)[k][j])
  {
    if parts != [] {
      var tail := parts[1..];
      forall k | 0 <= k < |tail| ensures forall j :: 0 <= j < |tail[k]| ==> !bad(tail[k][j]) {
        assert tail[k] == parts[k + 1];
      }
      StripNonBlankKeepsChars(tail, bad);
      var i := StripIsInfix(parts[0]);
      var h := Strip(parts[0]);
      forall j | 0 <= j < |h| ensures !bad(h[j]) {
        assert h[j] == parts[0][i + j];
      }
      StripNonBlankUnfold(parts);
      var hs := if h != [] then [h] else [];
      var rt := StripNonBlank(tail);
      forall k | 0 <= k < |hs + rt| ensures forall j :: 0 <= j < |(hs + rt)[k]| ==> !bad((hs + rt)[k][j]) {
        if k < |hs| { assert (hs + rt)[k] == h; } else { assert (hs + rt)[k] == rt[k - |hs|]; }
      }
    }
  }

  /** `[l.strip() for l in s.splitlines() if l.strip()]` */
  function NonBlankLines(s: string): (r: seq<string>)
    ensures forall k :: 0 <= k < |r| ==> r[k] != [] && Trimmed(r[k])
  {
    StripNonBlank(SplitWhere(s, IsLineBreak))
  }

  /** `sep.join(parts)` */
  function Join(parts: seq<string>, sep: string): string {
    if parts == [] then []
    else if |parts| == 1 then parts[0]
    else parts[0] + sep + Join(parts[1..], sep)
  }

  /** ASCII part of `str.lower()`. */
  function LowerChar(c: char): char {
    if 'A' <= c <= 'Z' then (c as int + 32) as char else c
  }

  function Lower(s: string): (r: string)
    ensures |r| == |s|
    ensures forall i :: 0 <= i < |s| ==> r[i] == LowerChar(s[i])
  {
    if s == [] then [] else [LowerChar(s[0])] + Lower(s[1..])
  }

  /** Value of a run of ASCII digits (`int(...)`). */
  function DigitsValue(s: string): nat
    requires forall i :: 0 <= i < |s| ==> IsDigit(s[i])
  {
    if s == [] then 0
    else
      assert IsDigit(s[|s| - 1]);
      DigitsValue(s[..|s| - 1]) * 10 + (s[|s| - 1] as int - '0' as int)
  }

  /** Length of the run of digits at the start of `s`. */
  function DigitRun(s: string): (n: nat)
    ensures n <= |s|
    ensures forall i :: 0 <= i < n ==> IsDigit(s[i])
    ensures n < |s| ==> !IsDigit(s[n])
  {
    if s != [] && IsDigit(s[0]) then 1 + DigitRun(s[1..]) else 0
  }

  /** `re.findall(r'\d+', s)`, first match, as an int; None when `s` holds no digit. */
  function FirstNumber(s: string): (r: Option<nat>)
    ensures r.None? <==> forall i :: 0 <= i < |s| ==> !IsDigit(s[i])
  {
    if s == [] then None
    else if IsDigit(s[0]) then Some(DigitsValue(s[..DigitRun(s)]))
    else FirstNumber(s[1..])
  }

  /** Decimal rendering of a natural number (Python `str(n)`). */
  function NatToString(n: nat): (r: string)
    ensures |r| >= 1
    ensures forall i :: 0 <= i < |r| ==> IsDigit(r[i])
  {
    if n < 10 then [('0' as int + n) as char]
    else NatToString(n / 10) + [('0' as int + n % 10) as char]
  }
}
