/**
  The parts of Python's `str` that the rule engine relies on: the whitespace
  class shared by `str.strip()` and the regular-expression class `\s`,
  stripping, lower-casing, `sep.join(...)`, `str.splitlines()` and searching
  for a character or a two-character pattern.
 */
module Strings {

  /** Python's `str.isspace()` (also the meaning of `\s` in a `str` pattern). */
  predicate IsSpace(c: char) {
    || ('\t' <= c <= '\r')
    || ('\U{1C}' <= c <= '\U{1F}')
    || c == ' ' || c == '\U{85}' || c == '\U{A0}' || c == '\U{1680}'
    || ('\U{2000}' <= c <= '\U{200A}')
    || c == '\U{2028}' || c == '\U{2029}' || c == '\U{202F}' || c == '\U{205F}' || c == '\U{3000}'
  }

  /** Every character of `s` has property `p`. */
  predicate AllChars(s: string, p: char -> bool) {
    forall i :: 0 <= i < |s| ==> p(s[i])
  }

  /** A property of every character of two strings holds of every character of their concatenation. */
  lemma AllCharsConcat(a: string, b: string, p: char -> bool)
    requires AllChars(a, p) && AllChars(b, p)
    ensures AllChars(a + b, p)
  {
    assert forall i :: 0 <= i < |a| ==> (a + b)[i] == a[i];
    assert forall i :: |a| <= i < |a + b| ==> (a + b)[i] == b[i - |a|];
  }

  /** No leading and no trailing whitespace. */
  predicate Trimmed(s: string) {
    s != [] ==> !IsSpace(s[0]) && !IsSpace(s[|s| - 1])
  }

  /** `str.rstrip()`. */
  function TrimEnd(s: string): (r: string)
    ensures |r| <= |s|
  {
    if |s| > 0 && IsSpace(s[|s| - 1]) then TrimEnd(s[..|s| - 1]) else s
  }

  /** `rstrip` keeps a prefix that ends in a non-space and cuts only whitespace. */
  lemma {:induction false} TrimEndSpec(s: string)
    ensures TrimEnd(s) == s[..|TrimEnd(s)|]
    ensures TrimEnd(s) != [] ==> !IsSpace(TrimEnd(s)[|TrimEnd(s)| - 1])
    ensures forall k :: |TrimEnd(s)| <= k < |s| ==> IsSpace(s[k])
  {
    if |s| > 0 && IsSpace(s[|s| - 1]) {
      TrimEndSpec(s[..|s| - 1]);
    }
  }

  /** `str.lstrip()`. */
  function TrimStart(s: string): (r: string)
    ensures |r| <= |s|
  {
    if |s| > 0 && IsSpace(s[0]) then TrimStart(s[1..]) else s
  }

  /** `lstrip` keeps a suffix that starts with a non-space and cuts only whitespace. */
  lemma {:induction false} TrimStartSpec(s: string)
    ensures TrimStart(s) == s[|s| - |TrimStart(s)|..]
    ensures TrimStart(s) != [] ==> !IsSpace(TrimStart(s)[0])
    ensures forall k :: 0 <= k < |s| - |TrimStart(s)| ==> IsSpace(s[k])
  {
    if |s| > 0 && IsSpace(s[0]) {
      TrimStartSpec(s[1..]);
    }
  }

  /** `str.strip()`. */
  function Strip(s: string): (r: string)
    ensures Trimmed(r)
  {
    StripSpec(s);
    TrimStart(TrimEnd(s))
  }

  /**
    The strip of `s` is the slice of `s` that ends where `rstrip` stops;
    everything cut away on either side is whitespace.
   */
  lemma StripSpec(s: string)
    ensures Trimmed(TrimStart(TrimEnd(s)))
    ensures var r := TrimStart(TrimEnd(s)); var e := |TrimEnd(s)|;
      && |r| <= e <= |s| && r == s[e - |r|..e]
      && (forall k :: 0 <= k < e - |r| ==> IsSpace(s[k]))
      && (forall k :: e <= k < |s| ==> IsSpace(s[k]))
  {
    var t := TrimEnd(s);
    TrimEndSpec(s);
    TrimStartSpec(t);
    var r := TrimStart(t);
    if r != [] {
      assert r[|r| - 1] == t[|t| - 1];
    }
  }

  /** A string without whitespace at either end is its own strip. */
  lemma StripTrimmed(s: string)
    requires Trimmed(s)
    ensures Strip(s) == s
  {
  }

  /** Stripping is idempotent. */
  lemma StripIdempotent(s: string)
    ensures Strip(Strip(s)) == Strip(s)
  {
    StripTrimmed(Strip(s));
  }

  /** Strip yields the empty string exactly when `s` is all whitespace. */
  lemma StripEmpty(s: string)
    ensures Strip(s) == [] <==> forall k :: 0 <= k < |s| ==> IsSpace(s[k])
  {
    StripSpec(s);
    if forall k :: 0 <= k < |s| ==> IsSpace(s[k]) {
      TrimEndBlank(s);
    }
  }

  /** `rstrip` of a string of whitespace is empty. */
  lemma {:induction false} TrimEndBlank(s: string)
    requires forall k :: 0 <= k < |s| ==> IsSpace(s[k])
    ensures TrimEnd(s) == []
  {
    if s != [] {
      TrimEndBlank(s[..|s| - 1]);
    }
  }

  /** Trailing whitespace added to a trimmed non-empty string is stripped away again. */
  lemma StripTrailingSpace(s: string, pad: string)
    requires s != [] && Trimmed(s)
    requires forall k :: 0 <= k < |pad| ==> IsSpace(pad[k])
    ensures Strip(s + pad) == s
  {
    if pad != [] {
      assert (s + pad)[..|s + pad| - 1] == s + pad[..|pad| - 1];
      StripTrailingSpace(s, pad[..|pad| - 1]);
    }
  }

  /** Leading whitespace added to a trimmed non-empty string is stripped away again. */
  lemma StripLeadingSpace(pad: string, s: string)
    requires s != [] && Trimmed(s)
    requires forall k :: 0 <= k < |pad| ==> IsSpace(pad[k])
    ensures Strip(pad + s) == s
  {
    assert TrimEnd(pad + s) == pad + s;
    if pad != [] {
      assert (pad + s)[1..] == pad[1..] + s;
      StripLeadingSpace(pad[1..], s);
    }
  }

  /** The length of the whitespace run that `s` starts with. */
  function Spaces(s: string): (n: nat)
    ensures n <= |s|
    ensures forall k :: 0 <= k < n ==> IsSpace(s[k])
    ensures n < |s| ==> !IsSpace(s[n])
  {
    if s != [] && IsSpace(s[0]) then 1 + Spaces(s[1..]) else 0
  }

  /** A run of whitespace that stops inside `w` is not affected by what follows `w`. */
  lemma {:induction false} SpacesConcat(w: string, t: string)
    requires Spaces(w) < |w|
    ensures Spaces(w + t) == Spaces(w)
  {
    if IsSpace(w[0]) {
      assert (w + t)[1..] == w[1..] + t;
      SpacesConcat(w[1..], t);
    }
  }

  /** Python's `str.lower()` on one character: ASCII letters and the Kelvin sign U+212A. */
  function LowerChar(c: char): (r: char)
    ensures 'A' <= c <= 'Z' ==> 'a' <= r <= 'z'
    ensures !('A' <= c <= 'Z') && c != '\U{212A}' ==> r == c
  {
    if 'A' <= c <= 'Z' then (c as int + 32) as char
    else if c == '\U{212A}' then 'k'
    else c
  }

  /** `str.lower()`, character by character. */
  function Lower(s: string): string {
    if s == [] then [] else [LowerChar(s[0])] + Lower(s[1..])
  }

  /** A word of lower-case ASCII letters is its own lower-case form. */
  lemma {:induction false} LowerOfLower(s: string)
    requires forall i :: 0 <= i < |s| ==> 'a' <= s[i] <= 'z'
    ensures Lower(s) == s
  {
    if s != [] {
      LowerOfLower(s[1..]);
    }
  }

  /** `sep.join(parts)`. */
  function Join(sep: string, parts: seq<string>): string {
    if parts == [] then []
    else if |parts| == 1 then parts[0]
    else parts[0] + sep + Join(sep, parts[1..])
  }

  /** A joined string starts with the first part and ends with the last one. */
  lemma {:induction false} JoinEnds(sep: string, parts: seq<string>)
    requires |parts| > 0 && forall k :: 0 <= k < |parts| ==> parts[k] != []
    ensures Join(sep, parts) != []
    ensures Join(sep, parts)[0] == parts[0][0]
    ensures Join(sep, parts)[|Join(sep, parts)| - 1] == parts[|parts| - 1][|parts[|parts| - 1]| - 1]
  {
    if |parts| > 1 {
      JoinEnds(sep, parts[1..]);
    }
  }

  /** A property of every character of the separator and of the parts holds of the joined string. */
  lemma {:induction false} JoinKeeps(sep: string, parts: seq<string>, p: char -> bool)
    requires AllChars(sep, p) && forall k :: 0 <= k < |parts| ==> AllChars(parts[k], p)
    ensures AllChars(Join(sep, parts), p)
  {
    if |parts| > 1 {
      JoinKeeps(sep, parts[1..], p);
    }
  }

  /** The position of the first occurrence of `c`, if any (`str.find` for one character). */
  function FindChar(s: string, c: char): (r: Option<nat>)
    ensures r.Some? ==> r.value < |s| && s[r.value] == c && c !in s[..r.value]
    ensures r.None? <==> c !in s
  {
    if s == [] then None
    else if s[0] == c then Some(0)
    else match FindChar(s[1..], c)
      case None => None
      case Some(i) => assert s[..i + 1] == [s[0]] + s[1..][..i]; Some(i + 1)
  }

  /** A two-character pattern `xy` occurs at position `i` of `s`. */
  predicate PairAt(s: string, i: int, x: char, y: char) {
    0 <= i && i + 1 < |s| && s[i] == x && s[i + 1] == y
  }

  /** The position of the first occurrence of the pattern `xy`, if any. */
  function FindPair(s: string, x: char, y: char): (r: Option<nat>)
    ensures r.Some? ==> PairAt(s, r.value, x, y) && forall i :: 0 <= i < r.value ==> !PairAt(s, i, x, y)
    ensures r.None? ==> forall i :: 0 <= i < |s| ==> !PairAt(s, i, x, y)
  {
    if |s| < 2 then None
    else if s[0] == x && s[1] == y then Some(0)
    else match FindPair(s[1..], x, y)
      case None =>
        assert forall i :: 1 <= i < |s| ==> (PairAt(s, i, x, y) <==> PairAt(s[1..], i - 1, x, y));
        None
      case Some(i) =>
        assert forall j :: 1 <= j < |s| ==> (PairAt(s, j, x, y) <==> PairAt(s[1..], j - 1, x, y));
        Some(i + 1)
  }

  /** `s.replace(x + y, rep)`: left-to-right, non-overlapping. */
  function ReplacePair(s: string, x: char, y: char, rep: string): string {
    if |s| < 2 then s
    else if s[0] == x && s[1] == y then rep + ReplacePair(s[2..], x, y, rep)
    else [s[0]] + ReplacePair(s[1..], x, y, rep)
  }

  /** Every character of the result comes from `s` or `rep`, so a property of all of theirs holds of it. */
  lemma {:induction false} ReplacePairKeeps(s: string, x: char, y: char, rep: string, p: char -> bool)
    requires AllChars(s, p) && AllChars(rep, p)
    ensures AllChars(ReplacePair(s, x, y, rep), p)
  {
    if |s| >= 2 {
      if s[0] == x && s[1] == y {
        ReplacePairKeeps(s[2..], x, y, rep, p);
      } else {
        ReplacePairKeeps(s[1..], x, y, rep, p);
      }
    }
  }

  /** Replacing a pattern that does not occur leaves the string unchanged. */
  lemma {:induction false} ReplacePairAbsent(s: string, x: char, y: char, rep: string)
    requires forall i :: 0 <= i < |s| ==> !PairAt(s, i, x, y)
    ensures ReplacePair(s, x, y, rep) == s
  {
    if |s| >= 2 {
      assert !PairAt(s, 0, x, y);
      assert forall i :: 0 <= i < |s| - 1 ==> (PairAt(s[1..], i, x, y) ==> PairAt(s, i + 1, x, y));
      ReplacePairAbsent(s[1..], x, y, rep);
    }
  }

  /** `s.replace(c, rep)` for a one-character pattern. */
  function ReplaceChar(s: string, c: char, rep: string): string {
    if s == [] then []
    else if s[0] == c then rep + ReplaceChar(s[1..], c, rep)
    else [s[0]] + ReplaceChar(s[1..], c, rep)
  }

  /** Every character of the result comes from `s` or `rep`. */
  lemma {:induction false} ReplaceCharKeeps(s: string, c: char, rep: string, p: char -> bool)
    requires AllChars(s, p) && AllChars(rep, p)
    ensures AllChars(ReplaceChar(s, c, rep), p)
  {
    if s != [] {
      ReplaceCharKeeps(s[1..], c, rep, p);
    }
  }

  /** Replacing a character that does not occur leaves the string unchanged. */
  lemma {:induction false} ReplaceCharAbsent(s: string, c: char, rep: string)
    requires forall i :: 0 <= i < |s| ==> s[i] != c
    ensures ReplaceChar(s, c, rep) == s
  {
    if s != [] {
      ReplaceCharAbsent(s[1..], c, rep);
    }
  }

  /** The characters at which `str.splitlines()` ends a line. */
  predicate IsLineBreak(c: char) {
    c == '\n' || c == '\r' || c == '\U{0B}' || c == '\U{0C}' || c == '\U{1C}' || c == '\U{1D}'
    || c == '\U{1E}' || c == '\U{85}' || c == '\U{2028}' || c == '\U{2029}'
  }

  /** The position of the first line break of `s`, if any. */
  function FindLineBreak(s: string): (r: Option<nat>)
    ensures r.Some? ==> r.value < |s| && IsLineBreak(s[r.value])
    ensures r.Some? ==> forall k :: 0 <= k < r.value ==> !IsLineBreak(s[k])
    ensures r.None? ==> forall k :: 0 <= k < |s| ==> !IsLineBreak(s[k])
  {
    if s == [] then None
    else if IsLineBreak(s[0]) then Some(0)
    else match FindLineBreak(s[1..])
      case None => None
      case Some(i) => Some(i + 1)
  }

  /**
    `str.splitlines()`: the lines without their terminators; "\r\n" counts
    as one terminator, and a final terminator does not start an empty line.
   */
  function SplitLines(s: string): (lines: seq<string>)
    ensures forall k, c :: 0 <= k < |lines| && c in lines[k] ==> c in s && !IsLineBreak(c)
    decreases |s|
  {
    if s == [] then []
    else match FindLineBreak(s)
      case None => [s]
      case Some(i) =>
        var width := if s[i] == '\r' && i + 1 < |s| && s[i + 1] == '\n' then 2 else 1;
        var rest := SplitLines(s[i + width..]);
        assert forall c :: c in s[i + width..] ==> c in s by {
          forall c | c in s[i + width..] ensures c in s {
            var j :| 0 <= j < |s[i + width..]| && s[i + width..][j] == c;
            assert s[i + width + j] == c;
          }
        }
        [s[..i]] + rest
  }

  /** Text without a line break is a single line. */
  lemma SplitLinesSingle(s: string)
    requires s != [] && forall k :: 0 <= k < |s| ==> !IsLineBreak(s[k])
    ensures SplitLines(s) == [s]
  {
  }

  /** A Windows line ending counts as one break: `"a\r\nb"` is the lines `a` and `b`. */
  lemma SplitLinesCrLf()
    ensures SplitLines("a\r\nb") == ["a", "b"]
  {
    SplitLinesCons("a", "\r\n", "b");
    SplitLinesSingle("b");
    assert "a" + "\r\n" + "b" == "a\r\nb";
  }

  /**
    A line `a` ended by a terminator `t` ("\r\n", or one line-break
    character that is not a "\r" directly followed by "\n") is the first
    line, and the lines of `b` follow it.
   */
  lemma SplitLinesCons(a: string, t: string, b: string)
    requires forall k :: 0 <= k < |a| ==> !IsLineBreak(a[k])
    requires t == "\r\n" || (|t| == 1 && IsLineBreak(t[0]) && (t[0] == '\r' ==> b == [] || b[0] != '\n'))
    ensures SplitLines(a + t + b) == [a] + SplitLines(b)
  {
    var s := a + t + b;
    assert s[|a|] == t[0];
    assert forall k :: 0 <= k < |a| ==> s[k] == a[k];
    assert FindLineBreak(s) == Some(|a|);
    assert s[..|a|] == a;
    if t == "\r\n" {
      assert s[|a| + 1] == '\n';
      assert s[|a| + 2..] == b;
    } else {
      assert s[|a| + 1..] == b;
    }
  }

  /** The lines of non-empty text are never an empty list. */
  lemma SplitLinesNonEmpty(s: string)
    requires s != []
    ensures SplitLines(s) != []
  {
  }

  /**
    For text whose only line breaks are "\n" and which does not end in one,
    joining the lines with "\n" gives the text back.
   */
  lemma {:induction false} JoinSplitLines(s: string)
    requires forall k :: 0 <= k < |s| ==> IsLineBreak(s[k]) ==> s[k] == '\n'
    requires s == [] || s[|s| - 1] != '\n'
    ensures Join("\n", SplitLines(s)) == s
    decreases |s|
  {
    if s != [] && FindLineBreak(s).Some? {
      var i := FindLineBreak(s).value;
      var b := s[i + 1..];
      assert b != [] && b[|b| - 1] == s[|s| - 1];
      SplitLinesAtNewline(s, i);
      SplitLinesNonEmpty(b);
      JoinSplitLines(b);
      JoinCons("\n", s[..i], SplitLines(b));
      assert s == s[..i] + "\n" + b;
    }
  }

  /** At a first line break "\n" the text splits into the line before it and the lines after it. */
  lemma SplitLinesAtNewline(s: string, i: nat)
    requires FindLineBreak(s) == Some(i) && s[i] == '\n'
    ensures SplitLines(s) == [s[..i]] + SplitLines(s[i + 1..])
  {
  }

  /** Joining a part in front of at least one more part puts the separator between them. */
  lemma JoinCons(sep: string, x: string, rest: seq<string>)
    requires rest != []
    ensures Join(sep, [x] + rest) == x + sep + Join(sep, rest)
  {
    assert ([x] + rest)[1..] == rest;
  }

  /**
    A slice that starts and ends with a non-space, with only whitespace
    before and after it, is the strip of the text.
   */
  lemma StripOf(s: string, i: nat, j: nat)
    requires i < j <= |s| && !IsSpace(s[i]) && !IsSpace(s[j - 1])
    requires forall k :: 0 <= k < i ==> IsSpace(s[k])
    requires forall k :: j <= k < |s| ==> IsSpace(s[k])
    ensures Strip(s) == s[i..j]
  {
    StripSpec(s);
    StripEmpty(s);
    var r := Strip(s);
    var e := |TrimEnd(s)|;
    assert r[|r| - 1] == s[e - 1] && r[0] == s[e - |r|];
    assert e == j;
    assert e - |r| == i;
  }

  /** Stripping what `lstrip` left gives the strip of the whole text. */
  lemma {:induction false} StripTrimStart(s: string)
    ensures Strip(TrimStart(s)) == Strip(s)
    decreases |s|
  {
    if |s| > 0 && IsSpace(s[0]) {
      StripTrimStart(s[1..]);
      StripDropSpace(s);
    }
  }

  /** A leading whitespace character does not change the strip. */
  lemma StripDropSpace(s: string)
    requires |s| > 0 && IsSpace(s[0])
    ensures Strip(s) == Strip(s[1..])
  {
    var t := s[1..];
    TrimEndCons(s[0], t);
    assert [s[0]] + t == s;
    if TrimEnd(t) != [] {
      var u := [s[0]] + TrimEnd(t);
      assert u[1..] == TrimEnd(t);
    }
  }

  /** `rstrip` of a text with one more character in front. */
  lemma {:induction false} TrimEndCons(c: char, t: string)
    ensures TrimEnd([c] + t) == if TrimEnd(t) == [] && IsSpace(c) then [] else [c] + TrimEnd(t)
    decreases |t|
  {
    var s := [c] + t;
    if t == [] {
      assert s[..0] == [];
    } else if IsSpace(t[|t| - 1]) {
      var init := t[..|t| - 1];
      TrimEndCons(c, init);
      assert s[..|s| - 1] == [c] + init;
    }
  }

  /** `lstrip` splits the text into leading whitespace and a rest that starts with a non-space. */
  lemma LeadingParts(s: string)
    ensures var a := TrimStart(s); var p := |s| - |a|;
      && s == s[..p] + a && a == s[p..] && (a == [] || !IsSpace(a[0]))
      && (forall k :: 0 <= k < p ==> IsSpace(s[k]))
      && (forall k :: 0 <= k < |s[..p]| ==> IsSpace(s[..p][k]))
  {
    TrimStartSpec(s);
  }

  /** `rstrip` splits the text into a rest that ends with a non-space and trailing whitespace. */
  lemma TrailingParts(s: string)
    ensures var b := TrimEnd(s); var q := |b|;
      && s == b + s[q..] && b == s[..q] && (b == [] || !IsSpace(s[q - 1]))
      && (forall k :: q <= k < |s| ==> IsSpace(s[k]))
      && (forall k :: 0 <= k < |s[q..]| ==> IsSpace(s[q..][k]))
  {
    TrimEndSpec(s);
  }

  /** Stripping what `rstrip` left gives the strip of the whole text. */
  lemma StripTrimEnd(s: string)
    ensures Strip(TrimEnd(s)) == Strip(s)
  {
    TrimEndSpec(s);
  }

  /**
    Around a middle part that starts and ends with a non-space, the strip
    takes the leading whitespace off the left part and the trailing
    whitespace off the right part.
   */
  lemma StripAround(l: string, m: string, r: string)
    requires m != [] && !IsSpace(m[0]) && !IsSpace(m[|m| - 1])
    ensures Strip(l + m + r) == TrimStart(l) + m + TrimEnd(r)
  {
    var a := TrimStart(l);
    var b := TrimEnd(r);
    var pre := l[..|l| - |a|];
    var post := r[|b|..];
    LeadingParts(l);
    TrailingParts(r);
    TrimmedAround(a, m, b);
    Regroup(pre, a, m, b, post);
    StripPadded(pre, a + m + b, post);
  }

  /** A middle part that starts and ends with a non-space, between trimmed parts, gives a trimmed whole. */
  lemma TrimmedAround(a: string, m: string, b: string)
    requires m != [] && !IsSpace(m[0]) && !IsSpace(m[|m| - 1])
    requires a == [] || !IsSpace(a[0])
    requires b == [] || !IsSpace(b[|b| - 1])
    ensures a + m + b != [] && Trimmed(a + m + b)
  {
    var w := a + m + b;
    assert w[0] == if a == [] then m[0] else a[0];
    assert w[|w| - 1] == if b == [] then m[|m| - 1] else b[|b| - 1];
  }

  /** Five strings concatenated, grouped two ways. */
  lemma Regroup(a: string, b: string, c: string, d: string, e: string)
    ensures (a + b) + c + (d + e) == a + (b + c + d) + e
  {
  }

  /** Whitespace on both sides of a trimmed non-empty string is stripped away. */
  lemma StripPadded(pre: string, body: string, post: string)
    requires body != [] && Trimmed(body)
    requires forall k :: 0 <= k < |pre| ==> IsSpace(pre[k])
    requires forall k :: 0 <= k < |post| ==> IsSpace(post[k])
    ensures Strip(pre + body + post) == body
  {
    var s := pre + body + post;
    var j := |pre| + |body|;
    assert s[|pre|] == body[0] && s[j - 1] == body[|body| - 1];
    assert forall k :: 0 <= k < |pre| ==> s[k] == pre[k];
    assert forall k :: j <= k < |s| ==> s[k] == post[k - j];
    StripOf(s, |pre|, j);
    assert s[|pre|..j] == body;
  }

  /** `replace` of one character distributes over concatenation. */
  lemma {:induction false} ReplaceCharConcat(a: string, b: string, c: char, rep: string)
    ensures ReplaceChar(a + b, c, rep) == ReplaceChar(a, c, rep) + ReplaceChar(b, c, rep)
  {
    if a == [] {
      assert a + b == b;
    } else {
      var h := if a[0] == c then rep else [a[0]];
      assert (a + b)[0] == a[0];
      assert (a + b)[1..] == a[1..] + b;
      assert ReplaceChar(a + b, c, rep) == h + ReplaceChar(a[1..] + b, c, rep);
      assert ReplaceChar(a, c, rep) == h + ReplaceChar(a[1..], c, rep);
      ReplaceCharConcat(a[1..], b, c, rep);
    }
  }

  /** An occurrence of the pattern at the front is replaced, and the replacement goes on after it. */
  lemma ReplacePairHead(x: char, y: char, r: string, rep: string)
    ensures ReplacePair([x, y] + r, x, y, rep) == rep + ReplacePair(r, x, y, rep)
  {
    assert ([x, y] + r)[2..] == r;
  }

  /**
    A prefix in which no occurrence of the pattern `xy` starts is copied
    unchanged, and the replacement goes on in the rest.
   */
  lemma {:induction false} ReplacePairPrefix(a: string, b: string, x: char, y: char, rep: string)
    requires forall i :: 0 <= i < |a| ==> !PairAt(a + b, i, x, y)
    ensures ReplacePair(a + b, x, y, rep) == a + ReplacePair(b, x, y, rep)
  {
    if a == [] {
      assert a + b == b;
    } else if |a + b| < 2 {
      assert b == [] && a + b == a;
    } else {
      assert (a + b)[0] == a[0];
      assert !PairAt(a + b, 0, x, y);
      assert (a + b)[1..] == a[1..] + b;
      forall i | 0 <= i < |a[1..]| ensures !PairAt(a[1..] + b, i, x, y) {
        assert !PairAt(a + b, i + 1, x, y);
      }
      ReplacePairPrefix(a[1..], b, x, y, rep);
    }
  }

  datatype Option<+T> = None | Some(value: T)
}
