/**
  The rule-text grammar: atoms are trimmed strings, premise lists are
  split on `,` `&` `?` `^` and on "and" in any letter case (with the
  whitespace around them), and a rule is `premises -> conclusion`, where
  `=>`, `→` and `:>` count as `->` and control characters are dropped.
  Also the validation of option strings.
 */
module Utils {
  import opened Strings
  import opened Seqs
  import opened Results
  import opened Models

  // ---------------------------------------------------------------------
  // Atoms
  // ---------------------------------------------------------------------

  /** `normalize_atom`: strip surrounding whitespace; blank text becomes empty. */
  function NormalizeAtom(atom: string): (r: string)
    ensures Trimmed(r)
  {
    Strip(atom)
  }

  /** An atom normalises to the empty string exactly when it is blank. */
  lemma NormalizeAtomBlank(atom: string)
    ensures NormalizeAtom(atom) == [] <==> forall k :: 0 <= k < |atom| ==> IsSpace(atom[k])
  {
    StripEmpty(atom);
  }

  /** Normalising an atom twice is normalising it once. */
  lemma NormalizeAtomIdempotent(atom: string)
    ensures NormalizeAtom(NormalizeAtom(atom)) == NormalizeAtom(atom)
  {
    StripIdempotent(atom);
  }

  /** A character that separates atoms on its own. */
  predicate IsSepChar(c: char) {
    c == ',' || c == '&' || c == '?' || c == '^'
  }

  /** `s` begins with "and" in any mix of letter cases. */
  predicate StartsWithAnd(s: string) {
    |s| >= 3 && LowerChar(s[0]) == 'a' && LowerChar(s[1]) == 'n' && LowerChar(s[2]) == 'd'
  }

  /** The length of the separator word `(?:,|&|\?|\^|and)` at the start of `s`, 0 when there is none. */
  function SepLen(s: string): (n: nat)
    ensures n <= |s|
  {
    if s != [] && IsSepChar(s[0]) then 1
    else if StartsWithAnd(s) then 3
    else 0
  }

  /**
    The length of a match of `ATOM_SPLIT_PATTERN` (`\s*` separator `\s*`,
    ignoring case) at the start of `s`, 0 when it does not match there.
    Backtracking in the leading `\s*` cannot help, since a separator never
    starts with whitespace.
   */
  function MatchLen(s: string): (n: nat)
    ensures n <= |s|
  {
    var a := Spaces(s);
    var b := SepLen(s[a..]);
    if b == 0 then 0 else a + b + Spaces(s[a + b..])
  }

  /** No separator word begins anywhere in `t`. */
  predicate NoSeparator(t: string) {
    forall k :: 0 <= k < |t| ==> SepLen(t[k..]) == 0
  }

  /** A separator at the start of `u` is still there, with the same length, whatever follows. */
  lemma SepLenPrefix(u: string, t: string)
    requires SepLen(u) > 0
    ensures SepLen(u + t) == SepLen(u)
  {
    if !(u != [] && IsSepChar(u[0])) {
      assert (u + t)[..3] == u[..3];
    }
  }

  /** Followed by nothing or by whitespace, a non-empty `u` has the same separator as on its own. */
  lemma SepLenSpace(u: string, t: string)
    requires u != []
    requires t == [] || IsSpace(t[0])
    ensures SepLen(u + t) == SepLen(u)
  {
    assert (u + t)[0] == u[0];
    if |u| < 3 && t != [] {
      assert (u + t)[|u|] == t[0];
      assert LowerChar(t[0]) == t[0];
    } else if |u| >= 3 {
      assert (u + t)[1] == u[1] && (u + t)[2] == u[2];
    }
  }

  /** Where the pattern does not match, no separator word starts either. */
  lemma NoMatchNoSep(s: string)
    requires s != [] && MatchLen(s) == 0
    ensures SepLen(s) == 0
  {
    if Spaces(s) > 0 {
      assert IsSpace(s[0]);
      assert LowerChar(s[0]) == s[0];
    }
  }

  /** No separator word starts in `cur`, read as continued by `s`. */
  predicate Clean(cur: string, s: string) {
    forall k :: 0 <= k < |cur| ==> SepLen(cur[k..] + s) == 0
  }

  /**
    `ATOM_SPLIT_PATTERN.split(...)` as a left-to-right scan of `s`: at each
    position either the pattern matches, which ends the current piece, or
    the character joins the current piece `cur`. The final piece is kept
    even when empty, as `re.split` does.
   */
  function SplitFrom(s: string, cur: string): (pieces: seq<string>)
    ensures |pieces| >= 1
    decreases |s|
  {
    if s == [] then [cur]
    else
      var m := MatchLen(s);
      if m > 0 then [cur] + SplitFrom(s[m..], [])
      else SplitFrom(s[1..], cur + [s[0]])
  }

  /** The pieces hold no separator word, when none starts in `cur` continued by `s`. */
  lemma {:induction false} SplitFromClean(s: string, cur: string)
    requires Clean(cur, s)
    ensures forall k :: 0 <= k < |SplitFrom(s, cur)| ==> NoSeparator(SplitFrom(s, cur)[k])
    decreases |s|
  {
    if s == [] {
      CleanPiece(cur, s);
    } else if MatchLen(s) > 0 {
      var m := MatchLen(s);
      CleanPiece(cur, s);
      SplitFromClean(s[m..], []);
      assert SplitFrom(s, cur) == [cur] + SplitFrom(s[m..], []);
    } else {
      CleanNext(cur, s);
      SplitFromClean(s[1..], cur + [s[0]]);
    }
  }

  /** Where the scan ends a piece, the piece holds no separator word. */
  lemma CleanPiece(cur: string, s: string)
    requires Clean(cur, s)
    ensures NoSeparator(cur)
  {
    forall k | 0 <= k < |cur| ensures SepLen(cur[k..]) == 0 {
      if s == [] {
        assert cur[k..] + s == cur[k..];
      } else if SepLen(cur[k..]) > 0 {
        SepLenPrefix(cur[k..], s);
      }
    }
  }

  /** Where the pattern does not match, moving a character into the piece keeps it clean. */
  lemma CleanNext(cur: string, s: string)
    requires Clean(cur, s) && s != [] && MatchLen(s) == 0
    ensures Clean(cur + [s[0]], s[1..])
  {
    NoMatchNoSep(s);
    var next := cur + [s[0]];
    forall k | 0 <= k < |next| ensures SepLen(next[k..] + s[1..]) == 0 {
      if k < |cur| {
        ConcatSuffix(cur, [s[0]], k);
        assert next[k..] + s[1..] == cur[k..] + s;
      } else {
        assert next[k..] + s[1..] == s;
      }
    }
  }

  /** Separator-freedom carries over to every slice. */
  lemma NoSeparatorSlice(t: string, i: nat, j: nat)
    requires NoSeparator(t) && i <= j <= |t|
    ensures NoSeparator(t[i..j])
  {
    forall k | 0 <= k < j - i ensures SepLen(t[i..j][k..]) == 0 {
      assert t[i + k..] == t[i..j][k..] + t[j..];
      if SepLen(t[i..j][k..]) > 0 {
        SepLenPrefix(t[i..j][k..], t[j..]);
      }
    }
  }

  /** An atom as `split_atoms` produces it: non-empty, stripped and separator-free. */
  predicate WellFormedAtom(a: string) {
    a != [] && Trimmed(a) && NoSeparator(a)
  }

  /** `[normalize_atom(t) for t in tokens if normalize_atom(t)]`. */
  function NormalizeAll(tokens: seq<string>): (atoms: seq<string>)
    ensures |atoms| <= |tokens|
    ensures forall k :: 0 <= k < |atoms| ==> atoms[k] != [] && Trimmed(atoms[k])
  {
    if tokens == [] then []
    else
      var a := NormalizeAtom(tokens[0]);
      (if a == [] then [] else [a]) + NormalizeAll(tokens[1..])
  }

  /** Normalising only trims: separator-free tokens give separator-free atoms. */
  lemma {:induction false} NormalizeAllNoSeparator(tokens: seq<string>)
    requires forall j :: 0 <= j < |tokens| ==> NoSeparator(tokens[j])
    ensures forall k :: 0 <= k < |NormalizeAll(tokens)| ==> NoSeparator(NormalizeAll(tokens)[k])
  {
    if tokens != [] {
      NormalizeAtomNoSeparator(tokens[0]);
      NormalizeAllNoSeparator(tokens[1..]);
    }
  }

  /** A normalised atom is a slice of the token, so separator-freedom carries over. */
  lemma NormalizeAtomNoSeparator(t: string)
    requires NoSeparator(t)
    ensures NoSeparator(NormalizeAtom(t))
  {
    var a := NormalizeAtom(t);
    var e := |TrimEnd(t)|;
    StripSpec(t);
    NoSeparatorSlice(t, e - |a|, e);
  }

  /** A property of every character of the tokens holds of the atoms. */
  lemma {:induction false} NormalizeAllKeeps(tokens: seq<string>, p: char -> bool)
    requires forall j :: 0 <= j < |tokens| ==> AllChars(tokens[j], p)
    ensures forall k :: 0 <= k < |NormalizeAll(tokens)| ==> AllChars(NormalizeAll(tokens)[k], p)
  {
    if tokens != [] {
      NormalizeAtomKeeps(tokens[0], p);
      NormalizeAllKeeps(tokens[1..], p);
    }
  }

  /** A normalised atom is a slice of the token, so character properties carry over. */
  lemma NormalizeAtomKeeps(t: string, p: char -> bool)
    requires AllChars(t, p)
    ensures AllChars(NormalizeAtom(t), p)
  {
    StripSpec(t);
  }

  /** Atoms that are already normalised pass through unchanged. */
  lemma {:induction false} NormalizeAllIdentity(atoms: seq<string>)
    requires forall k :: 0 <= k < |atoms| ==> atoms[k] != [] && Trimmed(atoms[k])
    ensures NormalizeAll(atoms) == atoms
  {
    if atoms != [] {
      StripTrimmed(atoms[0]);
      NormalizeAllIdentity(atoms[1..]);
    }
  }

  /** Every piece of the scan is made of characters of `cur` and `s`. */
  lemma {:induction false} SplitFromKeeps(s: string, cur: string, p: char -> bool)
    requires AllChars(s, p) && AllChars(cur, p)
    ensures forall k :: 0 <= k < |SplitFrom(s, cur)| ==> AllChars(SplitFrom(s, cur)[k], p)
    decreases |s|
  {
    if s != [] {
      var m := MatchLen(s);
      if m > 0 {
        SplitFromKeeps(s[m..], [], p);
      } else {
        SplitFromKeeps(s[1..], cur + [s[0]], p);
      }
    }
  }

  /** `split_atoms`: the separator-delimited, trimmed, non-blank atoms of `raw`. */
  function SplitAtoms(raw: string): (atoms: seq<string>)
    ensures raw == [] ==> atoms == []
    ensures forall k :: 0 <= k < |atoms| ==> WellFormedAtom(atoms[k])
  {
    if raw == [] then []
    else
      var tokens := SplitFrom(Strip(raw), []);
      assert Clean([], Strip(raw));
      SplitFromClean(Strip(raw), []);
      NormalizeAllNoSeparator(tokens);
      NormalizeAll(tokens)
  }

  /** A property of every character of `raw` holds of every character of its atoms. */
  lemma SplitAtomsKeeps(raw: string, p: char -> bool)
    requires AllChars(raw, p)
    ensures forall k :: 0 <= k < |SplitAtoms(raw)| ==> AllChars(SplitAtoms(raw)[k], p)
  {
    if raw != [] {
      var text := Strip(raw);
      var e := |TrimEnd(raw)|;
      StripSpec(raw);
      assert text == raw[e - |text|..e];
      SplitFromKeeps(text, [], p);
      NormalizeAllKeeps(SplitFrom(text, []), p);
    }
  }

  // ---------------------------------------------------------------------
  // Rule text
  // ---------------------------------------------------------------------

  /** The characters `re.sub(r"[\u0000-\u001F\u007F]", "", ...)` removes. */
  predicate IsControl(c: char) {
    c <= '\U{1F}' || c == '\U{7F}'
  }

  /** A character the cleaning step keeps. */
  predicate NotControl(c: char) {
    !IsControl(c)
  }

  /** The text with every control character removed. */
  function RemoveControl(s: string): (r: string)
    ensures AllChars(r, NotControl)
    ensures AllChars(s, NotControl) ==> r == s
  {
    if s == [] then []
    else (if IsControl(s[0]) then [] else [s[0]]) + RemoveControl(s[1..])
  }

  /** Cleaning works character by character: it distributes over concatenation. */
  lemma {:induction false} RemoveControlConcat(a: string, b: string)
    ensures RemoveControl(a + b) == RemoveControl(a) + RemoveControl(b)
    decreases |a|
  {
    if a != [] {
      RemoveControlConcat(a[1..], b);
      RemoveControlStep(a[0], a[1..], b);
      assert [a[0]] + a[1..] == a;
    } else {
      assert a + b == b;
    }
  }

  /** One induction step of `RemoveControlConcat`: a character put in front of both sides. */
  lemma RemoveControlStep(c: char, t: string, b: string)
    requires RemoveControl(t + b) == RemoveControl(t) + RemoveControl(b)
    ensures RemoveControl([c] + t + b) == RemoveControl([c] + t) + RemoveControl(b)
  {
    RemoveControlCons(c, t + b);
    RemoveControlCons(c, t);
    ConcatAssoc([c], t, b);
    ConcatAssoc(if IsControl(c) then [] else [c], RemoveControl(t), RemoveControl(b));
  }

  /** Cleaning a character in front of a text cleans the character, then the text. */
  lemma RemoveControlCons(c: char, s: string)
    ensures RemoveControl([c] + s) == (if IsControl(c) then [] else [c]) + RemoveControl(s)
  {
    assert ([c] + s)[1..] == s;
  }

  /** On one character, cleaning drops a control character and keeps any other. */
  lemma RemoveControlChar(c: char)
    ensures RemoveControl([c]) == if IsControl(c) then [] else [c]
  {
  }

  /** Cleaning only drops characters, so a property of every character survives it. */
  lemma {:induction false} RemoveControlKeeps(s: string, p: char -> bool)
    requires AllChars(s, p)
    ensures AllChars(RemoveControl(s), p)
  {
    if s != [] {
      assert AllChars(s[1..], p);
      RemoveControlKeeps(s[1..], p);
    }
  }

  /** `.replace("=>", "->").replace("→", "->").replace(":>", "->")`. */
  function NormalizeArrows(s: string): string {
    ReplacePair(ReplaceChar(ReplacePair(s, '=', '>', "->"), '→', "->"), ':', '>', "->")
  }

  /** Normalising the arrows brings in no control character. */
  lemma NormalizeArrowsClean(s: string)
    requires AllChars(s, NotControl)
    ensures AllChars(NormalizeArrows(s), NotControl)
  {
    assert AllChars("->", NotControl);
    ReplacePairKeeps(s, '=', '>', "->", NotControl);
    ReplaceCharKeeps(ReplacePair(s, '=', '>', "->"), '→', "->", NotControl);
    ReplacePairKeeps(ReplaceChar(ReplacePair(s, '=', '>', "->"), '→', "->"), ':', '>', "->", NotControl);
  }

  /** The two sides of a rule text. */
  datatype Sides = Sides(left: string, right: string)

  /**
    Where the stripped text `text` is cut: at the first `->` of the
    cleaned, arrow-normalised text; failing that at the first U+001A of
    `text` itself, uncleaned, which older editors wrote for an arrow.
   */
  function Cut(text: string): (r: Option<Sides>)
    ensures r.None? <==> FindPair(NormalizeArrows(RemoveControl(text)), '-', '>').None? && '\U{1A}' !in text
  {
    var normalized := NormalizeArrows(RemoveControl(text));
    match FindPair(normalized, '-', '>')
    case Some(i) => Some(Sides(normalized[..i], normalized[i + 2..]))
    case None =>
      match FindChar(text, '\U{1A}')
      case Some(j) => Some(Sides(text[..j], text[j + 1..]))
      case None => None
  }

  /** A parsed rule text. */
  datatype Parsed = Parsed(premises: seq<string>, conclusion: string)

  /**
    `parse_rule_text`: the premises are the atoms left of the cut, the
    conclusion is the stripped right side, taken whole.
   */
  function ParseRuleText(raw: string): (r: Result<Parsed>)
    ensures r == Err(EmptyRuleText) <==> forall k :: 0 <= k < |raw| ==> IsSpace(raw[k])
    ensures r.Ok? ==> r.value.premises != [] && forall k :: 0 <= k < |r.value.premises| ==> WellFormedAtom(r.value.premises[k])
    ensures r.Ok? ==> r.value.conclusion != [] && Trimmed(r.value.conclusion)
  {
    var text := Strip(raw);
    StripEmpty(raw);
    if text == [] then Err(EmptyRuleText)
    else match Cut(text)
      case None => Err(MissingArrow)
      case Some(sides) =>
        var premises := SplitAtoms(sides.left);
        var conclusion := NormalizeAtom(sides.right);
        if premises == [] then Err(MissingPremises)
        else if conclusion == [] then Err(MissingConclusion)
        else Ok(Parsed(premises, conclusion))
  }

  /** Text with no arrow, no arrow variant and no U+001A is refused, unless it is blank. */
  lemma ParseMissingArrow(raw: string)
    ensures ParseRuleText(raw) == Err(MissingArrow) <==>
      Strip(raw) != [] && FindPair(NormalizeArrows(RemoveControl(Strip(raw))), '-', '>').None? && '\U{1A}' !in Strip(raw)
  {
  }

  /**
    When the text holds no U+001A, the premises and the conclusion come
    from the cleaned text, so they hold no control character.
   */
  lemma ParseRemovesControl(raw: string)
    requires '\U{1A}' !in raw
    ensures ParseRuleText(raw).Ok? ==>
      && (forall k :: 0 <= k < |ParseRuleText(raw).value.premises| ==> AllChars(ParseRuleText(raw).value.premises[k], NotControl))
      && AllChars(ParseRuleText(raw).value.conclusion, NotControl)
  {
    var text := Strip(raw);
    if ParseRuleText(raw).Ok? {
      assert '\U{1A}' !in text by {
        var e := |TrimEnd(raw)|;
        StripSpec(raw);
        assert text == raw[e - |text|..e];
      }
      CutClean(text);
      var sides := Cut(text).value;
      SplitAtomsKeeps(sides.left, NotControl);
      NormalizeAtomKeeps(sides.right, NotControl);
    }
  }

  /** Without U+001A, both sides are cut from the cleaned text, so they hold no control character. */
  lemma CutClean(text: string)
    requires '\U{1A}' !in text
    ensures Cut(text).Some? ==> AllChars(Cut(text).value.left, NotControl) && AllChars(Cut(text).value.right, NotControl)
  {
    var normalized := NormalizeArrows(RemoveControl(text));
    NormalizeArrowsClean(RemoveControl(text));
    if Cut(text).Some? {
      var i := FindPair(normalized, '-', '>').value;
      assert Cut(text).value == Sides(normalized[..i], normalized[i + 2..]);
    }
  }

  // ---------------------------------------------------------------------
  // Arrows
  // ---------------------------------------------------------------------

  /** Neither a `>` nor a `→`: no character that can be part of an arrow's head. */
  predicate NoArrowChar(c: char) {
    c != '>' && c != '→'
  }

  /** Text holding none of `=>`, `:>` and `→`: nothing the arrow normalisation rewrites. */
  predicate NoArrowVariant(s: string) {
    && (forall i :: 0 <= i < |s| ==> s[i] != '→')
    && (forall i :: 0 <= i < |s| ==> !PairAt(s, i, '=', '>') && !PairAt(s, i, ':', '>'))
  }

  /** A slice of text without arrow variants, control characters or `->` has none of them either. */
  lemma ArrowSlice(s: string, i: nat, j: nat)
    requires i <= j <= |s|
    ensures NoArrowVariant(s) ==> NoArrowVariant(s[i..j])
    ensures AllChars(s, NotControl) ==> AllChars(s[i..j], NotControl)
    ensures FindPair(s, '-', '>').None? ==> FindPair(s[i..j], '-', '>').None?
  {
    var t := s[i..j];
    assert forall k :: 0 <= k < |t| ==> t[k] == s[i + k];
    assert forall k, x, y :: 0 <= k < |t| && PairAt(t, k, x, y) ==> PairAt(s, i + k, x, y);
  }

  /** Text without arrow variants is left alone by the arrow normalisation. */
  lemma NormalizeArrowsIdentity(s: string)
    requires NoArrowVariant(s)
    ensures NormalizeArrows(s) == s
  {
    ReplacePairAbsent(s, '=', '>', "->");
    ReplaceCharAbsent(s, '→', "->");
    ReplacePairAbsent(s, ':', '>', "->");
  }

  /**
    The arrow normalisation leaves a variant-free left part and the arrow
    after it alone, and works on the rest on its own.
   */
  lemma NormalizeArrowsAfter(l: string, r: string)
    requires NoArrowVariant(l)
    ensures NormalizeArrows(l + "->" + r) == l + "->" + NormalizeArrows(r)
  {
    var a := l + "->";
    assert forall k :: 0 <= k < |l| ==> a[k] == l[k];
    assert forall k :: 0 <= k < |a| ==> a[k] != '→';
    ArrowPrefixFree(l, r, '=');
    ReplacePairPrefix(a, r, '=', '>', "->");
    var r1 := ReplacePair(r, '=', '>', "->");
    ReplaceCharConcat(a, r1, '→', "->");
    ReplaceCharAbsent(a, '→', "->");
    var r2 := ReplaceChar(r1, '→', "->");
    ArrowPrefixFree(l, r2, ':');
    ReplacePairPrefix(a, r2, ':', '>', "->");
  }

  /** No `=>` or `:>` starts inside a variant-free `l` followed by `->`. */
  lemma ArrowPrefixFree(l: string, r: string, x: char)
    requires NoArrowVariant(l) && (x == '=' || x == ':')
    ensures forall i :: 0 <= i < |l + "->"| ==> !PairAt(l + "->" + r, i, x, '>')
  {
    var s := l + "->" + r;
    assert forall k :: 0 <= k < |l| ==> s[k] == l[k];
    assert s[|l|] == '-' && s[|l| + 1] == '>';
    forall i | 0 <= i < |l + "->"| ensures !PairAt(s, i, x, '>') {
      if i + 1 < |l| {
        assert !PairAt(l, i, x, '>');
      }
    }
  }

  /** In `l + w + r` with a two-character `w` and `l`, `r` free of `>`, a `>` can only be `w`'s second character. */
  lemma OnlyHead(l: string, w: string, r: string)
    requires |w| == 2 && w[0] != '>' && AllChars(l, NoArrowChar) && AllChars(r, NoArrowChar)
    ensures forall i, x :: PairAt(l + w + r, i, x, '>') ==> i == |l| && w[0] == x && w[1] == '>'
    ensures forall i :: 0 <= i < |l + w + r| && i != |l| && i != |l| + 1 ==> NoArrowChar((l + w + r)[i])
  {
    var s := l + w + r;
    assert forall k :: 0 <= k < |l| ==> s[k] == l[k];
    assert s[|l|] == w[0] && s[|l| + 1] == w[1];
    assert forall k :: |l| + 2 <= k < |s| ==> s[k] == r[k - |l| - 2];
    forall i | 0 <= i < |s| && i != |l| && i != |l| + 1 ensures NoArrowChar(s[i]) {
      if i < |l| {
        assert NoArrowChar(l[i]);
      } else {
        assert NoArrowChar(r[i - |l| - 2]);
      }
    }
    forall i, x | PairAt(s, i, x, '>') ensures i == |l| && w[0] == x && w[1] == '>' {
      assert !NoArrowChar(s[i + 1]);
    }
  }

  /**
    `=>`, `→` and `:>` between parts free of `>` and `→` all become `->`,
    and `->` itself stays.
   */
  lemma NormalizeArrowsVariant(l: string, v: string, r: string)
    requires AllChars(l, NoArrowChar) && AllChars(r, NoArrowChar)
    requires v == "->" || v == "=>" || v == "→" || v == ":>"
    ensures NormalizeArrows(l + v + r) == l + "->" + r
  {
    var t := l + "->" + r;
    OnlyHead(l, "->", r);
    assert NoArrowVariant(t);
    NormalizeArrowsIdentity(t);
    if v == "→" {
      var s := l + v + r;
      assert forall k :: 0 <= k < |s| && k != |l| ==> NoArrowChar(s[k]) by {
        assert forall k :: 0 <= k < |l| ==> s[k] == l[k];
        assert forall k :: |l| + 1 <= k < |s| ==> s[k] == r[k - |l| - 1];
      }
      ReplacePairAbsent(s, '=', '>', "->");
      ReplaceCharConcat(l + v, r, '→', "->");
      ReplaceCharConcat(l, v, '→', "->");
      ReplaceCharAbsent(l, '→', "->");
      ReplaceCharAbsent(r, '→', "->");
      assert ReplaceChar(v, '→', "->") == "->";
      assert ReplaceChar(s, '→', "->") == t;
      ReplacePairAbsent(t, ':', '>', "->");
    } else if v != "->" {
      OnlyHead(l, v, r);
      VariantPair(l, v, r);
    }
  }

  /** The two-character variants `=>` and `:>` become `->`. */
  lemma VariantPair(l: string, v: string, r: string)
    requires AllChars(l, NoArrowChar) && AllChars(r, NoArrowChar)
    requires v == "=>" || v == ":>"
    requires forall i, x :: PairAt(l + v + r, i, x, '>') ==> i == |l| && v[0] == x
    requires forall i :: 0 <= i < |l + v + r| && i != |l| && i != |l| + 1 ==> NoArrowChar((l + v + r)[i])
    requires NormalizeArrows(l + "->" + r) == l + "->" + r
    ensures NormalizeArrows(l + v + r) == l + "->" + r
  {
    var x := v[0];
    var s := l + v + r;
    var t := l + "->" + r;
    assert ReplacePair(s, x, '>', "->") == t by {
      assert s == l + ([x, '>'] + r);
      assert forall k :: 0 <= k < |l| ==> !PairAt(l + ([x, '>'] + r), k, x, '>');
      ReplacePairPrefix(l, [x, '>'] + r, x, '>', "->");
      ReplacePairHead(x, '>', r, "->");
      NoHeadUnchanged(r, x);
      assert l + ("->" + r) == t;
    }
    if x == '=' {
      ReplacePairAbsent(t, '=', '>', "->");
    } else {
      ReplacePairAbsent(s, '=', '>', "->");
      ReplaceCharAbsent(s, '→', "->");
    }
  }

  /** Text without `>` holds no two-character arrow, so replacing one leaves it unchanged. */
  lemma NoHeadUnchanged(r: string, x: char)
    requires AllChars(r, NoArrowChar)
    ensures ReplacePair(r, x, '>', "->") == r
  {
    forall i | 0 <= i < |r| ensures !PairAt(r, i, x, '>') {
      if i + 1 < |r| {
        assert NoArrowChar(r[i + 1]);
      }
    }
    ReplacePairAbsent(r, x, '>', "->");
  }

  /** The arrow and its variants are non-blank at both ends and hold no control character. */
  lemma ArrowShape(w: string)
    requires w == "->" || w == "=>" || w == "→" || w == ":>"
    ensures w != [] && !IsSpace(w[0]) && !IsSpace(w[|w| - 1]) && AllChars(w, NotControl)
  {
  }

  /** The first `->` of `l + "->" + r` is the one after `l`, when `l` holds none. */
  lemma FirstArrowAt(l: string, r: string)
    requires FindPair(l, '-', '>').None?
    ensures FindPair(l + "->" + r, '-', '>') == Some(|l|)
  {
    var s := l + "->" + r;
    assert forall k :: 0 <= k < |l| ==> s[k] == l[k];
    assert s[|l|] == '-' && s[|l| + 1] == '>';
    assert PairAt(s, |l|, '-', '>');
    forall i | 0 <= i < |l| ensures !PairAt(s, i, '-', '>') {
      if i + 1 < |l| {
        assert !PairAt(l, i, '-', '>');
      }
    }
  }

  /**
    Only the first arrow splits a rule text: for a left side without
    control characters, arrow variants or `->`, and a right side without
    control characters or arrow variants, the premises are the atoms of the
    left side and the conclusion is the whole trimmed right side, further
    `->` included.
   */
  lemma ParseFirstArrow(l: string, rr: string)
    requires AllChars(l, NotControl) && AllChars(rr, NotControl)
    requires NoArrowVariant(l) && NoArrowVariant(rr) && FindPair(l, '-', '>').None?
    ensures ParseRuleText(l + "->" + rr) ==
      if SplitAtoms(l) == [] then Err(MissingPremises)
      else if NormalizeAtom(rr) == [] then Err(MissingConclusion)
      else Ok(Parsed(SplitAtoms(l), NormalizeAtom(rr)))
  {
    var left := TrimStart(l);
    var right := TrimEnd(rr);
    assert Strip(l + "->" + rr) == left + "->" + right by {
      StripAround(l, "->", rr);
    }
    CutTrimmedArrow(l, rr);
    SplitAtomsTrimStart(l);
    StripTrimEnd(rr);
    ParseCut(l + "->" + rr, Sides(left, right));
  }

  /** With the outer whitespace trimmed off, clean text is still cut at its first `->`. */
  lemma CutTrimmedArrow(l: string, rr: string)
    requires AllChars(l, NotControl) && AllChars(rr, NotControl)
    requires NoArrowVariant(l) && NoArrowVariant(rr) && FindPair(l, '-', '>').None?
    ensures Cut(TrimStart(l) + "->" + TrimEnd(rr)) == Some(Sides(TrimStart(l), TrimEnd(rr)))
  {
    ArrowTrimStart(l);
    ArrowTrimEnd(rr);
    CutFirstArrow(TrimStart(l), TrimEnd(rr));
  }

  /** Clean text without arrows stays so once its leading whitespace is cut. */
  lemma ArrowTrimStart(l: string)
    requires AllChars(l, NotControl) && NoArrowVariant(l) && FindPair(l, '-', '>').None?
    ensures AllChars(TrimStart(l), NotControl) && NoArrowVariant(TrimStart(l))
    ensures FindPair(TrimStart(l), '-', '>').None?
  {
    TrimStartSpec(l);
    ArrowSlice(l, |l| - |TrimStart(l)|, |l|);
    assert l[|l| - |TrimStart(l)|..|l|] == l[|l| - |TrimStart(l)|..];
  }

  /** Clean text without arrows stays so once its trailing whitespace is cut. */
  lemma ArrowTrimEnd(r: string)
    requires AllChars(r, NotControl) && NoArrowVariant(r)
    ensures AllChars(TrimEnd(r), NotControl) && NoArrowVariant(TrimEnd(r))
  {
    TrimEndSpec(r);
    ArrowSlice(r, 0, |TrimEnd(r)|);
    assert r[0..|TrimEnd(r)|] == r[..|TrimEnd(r)|];
  }

  /** Clean text is cut at its first `->`, and the right side is taken whole. */
  lemma CutFirstArrow(left: string, right: string)
    requires AllChars(left, NotControl) && AllChars(right, NotControl)
    requires NoArrowVariant(left) && NoArrowVariant(right) && FindPair(left, '-', '>').None?
    ensures Cut(left + "->" + right) == Some(Sides(left, right))
  {
    var text := left + "->" + right;
    assert RemoveControl(text) == text by {
      AllCharsConcat(left, "->", NotControl);
      AllCharsConcat(left + "->", right, NotControl);
    }
    assert NormalizeArrows(text) == text by {
      NormalizeArrowsAfter(left, right);
      NormalizeArrowsIdentity(right);
    }
    FirstArrowAt(left, right);
    CutFrom(text, text, |left|);
    assert text[..|left|] == left && text[|left| + 2..] == right;
  }

  /** The premises of a left side do not depend on its leading whitespace. */
  lemma SplitAtomsTrimStart(l: string)
    ensures SplitAtoms(TrimStart(l)) == SplitAtoms(l)
  {
    StripTrimStart(l);
    if l != [] && TrimStart(l) == [] {
      assert SplitFrom(Strip(l), []) == [[]];
    }
  }

  /**
    Between parts free of `>` and `→`, any of `->`, `=>`, `→` and `:>`
    splits the text: the premises are the atoms of the cleaned left part and
    the conclusion the cleaned, trimmed right part.
   */
  lemma ParseAroundArrow(l: string, w: string, rr: string)
    requires AllChars(l, NoArrowChar) && AllChars(rr, NoArrowChar)
    requires w == "->" || w == "=>" || w == "→" || w == ":>"
    ensures var left := RemoveControl(TrimStart(l)); var right := RemoveControl(TrimEnd(rr));
      ParseRuleText(l + w + rr) ==
        if SplitAtoms(left) == [] then Err(MissingPremises)
        else if NormalizeAtom(right) == [] then Err(MissingConclusion)
        else Ok(Parsed(SplitAtoms(left), NormalizeAtom(right)))
  {
    ArrowShape(w);
    StripAround(l, w, rr);
    TrimStartSpec(l);
    TrimEndSpec(rr);
    assert AllChars(TrimStart(l), NoArrowChar) by {
      assert forall k :: 0 <= k < |TrimStart(l)| ==> TrimStart(l)[k] == l[|l| - |TrimStart(l)| + k];
    }
    CutVariant(TrimStart(l), w, TrimEnd(rr));
    ParseCut(l + w + rr, Sides(RemoveControl(TrimStart(l)), RemoveControl(TrimEnd(rr))));
  }

  /** Text with one arrow or arrow variant between parts free of `>` and `→` is cut there, after cleaning. */
  lemma CutVariant(a: string, w: string, b: string)
    requires AllChars(a, NoArrowChar) && AllChars(b, NoArrowChar)
    requires w == "->" || w == "=>" || w == "→" || w == ":>"
    ensures Cut(a + w + b) == Some(Sides(RemoveControl(a), RemoveControl(b)))
  {
    var left := RemoveControl(a);
    var right := RemoveControl(b);
    var normalized := left + "->" + right;
    assert RemoveControl(a + w + b) == left + w + right by {
      RemoveControlConcat(a + w, b);
      RemoveControlConcat(a, w);
      ArrowShape(w);
    }
    assert NormalizeArrows(left + w + right) == normalized by {
      RemoveControlKeeps(a, NoArrowChar);
      RemoveControlKeeps(b, NoArrowChar);
      NormalizeArrowsVariant(left, w, right);
    }
    assert FindPair(normalized, '-', '>') == Some(|left|) by {
      RemoveControlKeeps(a, NoArrowChar);
      assert forall i :: 0 <= i < |left| ==> !PairAt(left, i, '-', '>');
      FirstArrowAt(left, right);
    }
    CutFrom(a + w + b, normalized, |left|);
    assert normalized[..|left|] == left && normalized[|left| + 2..] == right;
  }

  /**
    `=>`, `→` and `:>` are read as `->`: between parts free of `>` and `→`,
    each of them parses exactly like `->`.
   */
  lemma ParseArrowVariant(l: string, v: string, rr: string)
    requires AllChars(l, NoArrowChar) && AllChars(rr, NoArrowChar)
    requires v == "=>" || v == "→" || v == ":>"
    ensures ParseRuleText(l + v + rr) == ParseRuleText(l + "->" + rr)
  {
    ParseAroundArrow(l, v, rr);
    ParseAroundArrow(l, "->", rr);
  }

  // ---------------------------------------------------------------------
  // Round trip through `to_text`
  // ---------------------------------------------------------------------

  /** No control character, no `>` and no `→`: nothing the arrow handling could touch. */
  predicate ArrowFree(a: string) {
    AllChars(a, Printable)
  }

  /** Neither a control character nor part of an arrow. */
  predicate Printable(c: char) {
    !IsControl(c) && c != '>' && c != '→'
  }

  /** An atom that prints and parses back as itself. */
  predicate PlainAtom(a: string) {
    WellFormedAtom(a) && ArrowFree(a)
  }

  /** Scanning across an atom followed by nothing or by whitespace adds the whole atom to the piece. */
  lemma {:induction false} ScanAtom(w: string, k: nat, t: string, cur: string)
    requires WellFormedAtom(w) && k <= |w|
    requires t == [] || IsSpace(t[0])
    ensures SplitFrom(w[k..] + t, cur) == SplitFrom(t, cur + w[k..])
    decreases |w| - k
  {
    if k < |w| {
      var next := cur + [w[k]];
      assert next + w[k + 1..] == cur + w[k..] by {
        assert w[k..] == [w[k]] + w[k + 1..];
      }
      ScanStep(w, k, t, cur);
      ScanAtom(w, k + 1, t, next);
    } else {
      assert w[k..] + t == t;
      assert cur + w[k..] == cur;
    }
  }

  /** Inside an atom the scan moves the next character into the current piece. */
  lemma ScanStep(w: string, k: nat, t: string, cur: string)
    requires WellFormedAtom(w) && k < |w|
    requires t == [] || IsSpace(t[0])
    ensures SplitFrom(w[k..] + t, cur) == SplitFrom(w[k + 1..] + t, cur + [w[k]])
  {
    NoMatchInAtom(w, k, t);
    SplitFromNoMatchBefore(w[k..], t, cur);
    assert w[k..][1..] == w[k + 1..];
  }

  /** `SplitFromNoMatch` for a text made of a non-empty head and a tail. */
  lemma SplitFromNoMatchBefore(u: string, t: string, cur: string)
    requires u != [] && MatchLen(u + t) == 0
    ensures SplitFrom(u + t, cur) == SplitFrom(u[1..] + t, cur + [u[0]])
  {
    SplitFromNoMatch(u + t, cur);
    assert (u + t)[1..] == u[1..] + t;
  }

  /** Where the pattern does not match, the scan moves one character into the current piece. */
  lemma SplitFromNoMatch(s: string, cur: string)
    requires s != [] && MatchLen(s) == 0
    ensures SplitFrom(s, cur) == SplitFrom(s[1..], cur + [s[0]])
  {
  }

  /** Inside an atom, followed by nothing or by whitespace, the pattern never matches. */
  lemma NoMatchInAtom(w: string, k: nat, t: string)
    requires WellFormedAtom(w) && k < |w|
    requires t == [] || IsSpace(t[0])
    ensures MatchLen(w[k..] + t) == 0
  {
    var u := w[k..];
    var a := Spaces(u);
    assert u[|u| - 1] == w[|w| - 1];
    assert a < |u|;
    SpacesConcat(u, t);
    assert (u + t)[a..] == w[k + a..] + t;
    SepLenSpace(w[k + a..], t);
  }

  /** The pattern matches `" ^ "` exactly, when an atom follows. */
  lemma MatchCaret(rest: string)
    requires rest != [] && !IsSpace(rest[0])
    ensures MatchLen(" ^ " + rest) == 3
  {
    var t := " ^ " + rest;
    assert t[1..] == "^ " + rest;
    assert Spaces(t[1..]) == 0;
    assert t[1..][0..] == t[1..];
    assert t[2..] == " " + rest;
    assert t[2..][1..] == rest;
    assert Spaces(t[2..]) == 1;
  }

  /** Splitting atoms joined by `" ^ "` gives the atoms back. */
  lemma {:induction false} JoinSplit(ps: seq<string>)
    requires ps != [] && forall k :: 0 <= k < |ps| ==> WellFormedAtom(ps[k])
    ensures SplitFrom(Join(" ^ ", ps), []) == ps
  {
    if |ps| == 1 {
      assert Join(" ^ ", ps) == ps[0];
      SplitOne(ps[0]);
      assert ps == [ps[0]];
    } else {
      JoinSplitStep(ps);
      JoinSplit(ps[1..]);
      assert ps == [ps[0]] + ps[1..];
    }
  }

  /** A single atom splits into itself. */
  lemma SplitOne(w: string)
    requires WellFormedAtom(w)
    ensures SplitFrom(w, []) == [w]
  {
    var empty: string := [];
    ScanAtom(w, 0, empty, empty);
    assert w[0..] + empty == w && empty + w[0..] == w;
  }

  /** The first atom and the `" ^ "` after it yield the first piece. */
  lemma JoinSplitStep(ps: seq<string>)
    requires |ps| > 1 && WellFormedAtom(ps[0]) && WellFormedAtom(ps[1])
    ensures SplitFrom(Join(" ^ ", ps), []) == [ps[0]] + SplitFrom(Join(" ^ ", ps[1..]), [])
  {
    var rest := Join(" ^ ", ps[1..]);
    var t := " ^ " + rest;
    assert SplitFrom(Join(" ^ ", ps), []) == SplitFrom(t, ps[0]) by {
      assert Join(" ^ ", ps) == ps[0][0..] + t;
      ScanAtom(ps[0], 0, t, []);
      assert [] + ps[0][0..] == ps[0];
    }
    assert rest != [] && !IsSpace(rest[0]) by {
      JoinEndsFirst(ps[1..]);
    }
    MatchCaret(rest);
    assert t[3..] == rest;
  }

  /** A join of atoms starts with the first atom's first character. */
  lemma JoinEndsFirst(ps: seq<string>)
    requires ps != [] && WellFormedAtom(ps[0])
    ensures Join(" ^ ", ps) != [] && Join(" ^ ", ps)[0] == ps[0][0]
  {
  }

  /** In `j + " -> " + c` with `j` and `c` arrow-free, the only `>` is the printed arrow's. */
  lemma OnlyArrow(j: string, c: string)
    requires ArrowFree(j) && ArrowFree(c)
    ensures (j + " -> " + c)[|j| + 1] == '-' && (j + " -> " + c)[|j| + 2] == '>'
    ensures forall i :: 0 <= i < |j + " -> " + c| && (j + " -> " + c)[i] == '>' ==> i == |j| + 2
    ensures forall i :: 0 <= i < |j + " -> " + c| ==>
      !IsControl((j + " -> " + c)[i]) && (j + " -> " + c)[i] != '→'
  {
    var text := j + " -> " + c;
    assert forall x :: 0 <= x < |j| ==> text[x] == j[x];
    assert forall x :: |j| + 4 <= x < |text| ==> text[x] == c[x - |j| - 4];
    assert text[|j|] == ' ' && text[|j| + 1] == '-' && text[|j| + 2] == '>' && text[|j| + 3] == ' ';
  }

  /**
    A text without control characters and `→`, whose only `>` closes a `->`
    at `a`, is left alone by the cleaning and the arrow normalisation, and
    is cut at `a`.
   */
  lemma ArrowTextClean(text: string, a: nat)
    requires a + 1 < |text| && text[a] == '-' && text[a + 1] == '>'
    requires forall i :: 0 <= i < |text| ==> !IsControl(text[i]) && text[i] != '→'
    requires forall i :: 0 <= i < |text| && text[i] == '>' ==> i == a + 1
    ensures NormalizeArrows(RemoveControl(text)) == text
    ensures FindPair(text, '-', '>') == Some(a)
  {
    assert AllChars(text, NotControl);
    assert forall i :: 0 <= i < |text| ==> !PairAt(text, i, '=', '>') && !PairAt(text, i, ':', '>');
    ReplacePairAbsent(text, '=', '>', "->");
    ReplaceCharAbsent(text, '→', "->");
    ReplacePairAbsent(text, ':', '>', "->");
    assert PairAt(text, a, '-', '>');
  }

  /** Plain atoms joined by `" ^ "` make a trimmed, non-empty, arrow-free text. */
  lemma JoinedPlain(ps: seq<string>)
    requires ps != [] && forall k :: 0 <= k < |ps| ==> PlainAtom(ps[k])
    ensures Join(" ^ ", ps) != [] && Trimmed(Join(" ^ ", ps)) && ArrowFree(Join(" ^ ", ps))
  {
    JoinEnds(" ^ ", ps);
    assert ArrowFree(" ^ ");
    JoinKeeps(" ^ ", ps, Printable);
  }

  /**
    Round trip: a rule whose atoms are plain prints, with the default
    joiner, to a text that parses back to its premises and conclusion; with
    distinct premises, `from_parts` then rebuilds the very same rule.
   */
  lemma ParseToText(r: Rule)
    requires r.premises != [] && forall k :: 0 <= k < |r.premises| ==> PlainAtom(r.premises[k])
    requires r.conclusion != [] && Trimmed(r.conclusion) && ArrowFree(r.conclusion)
    ensures ParseRuleText(DefaultText(r)) == Ok(Parsed(r.premises, r.conclusion))
    ensures Distinct(r.premises) ==> FromParts(r.id, r.premises, r.conclusion) == r
  {
    var ps := r.premises;
    var c := r.conclusion;
    var j := Join(" ^ ", ps);
    assert DefaultText(r) == j + " -> " + c;
    PrintedCut(ps, c);
    PrintedPremises(ps);
    StripLeadingSpace(" ", c);
    ParseCut(j + " -> " + c, Sides(j + " ", " " + c));
    if Distinct(ps) {
      FromPartsExact(r.id, ps, c);
    }
  }

  /** A printed rule text is already stripped and is cut at the printed arrow. */
  lemma PrintedCut(ps: seq<string>, c: string)
    requires ps != [] && forall k :: 0 <= k < |ps| ==> PlainAtom(ps[k])
    requires c != [] && Trimmed(c) && ArrowFree(c)
    ensures var text := Join(" ^ ", ps) + " -> " + c;
      Strip(text) == text && text != [] && Cut(text) == Some(Sides(Join(" ^ ", ps) + " ", " " + c))
  {
    var j := Join(" ^ ", ps);
    JoinedPlain(ps);
    PrintedStripped(j, c);
    PrintedArrow(j, c);
  }

  /** A printed rule text with trimmed, non-empty sides is already stripped. */
  lemma PrintedStripped(j: string, c: string)
    requires j != [] && Trimmed(j) && c != [] && Trimmed(c)
    ensures Strip(j + " -> " + c) == j + " -> " + c
  {
    var text := j + " -> " + c;
    assert text[0] == j[0] && text[|text| - 1] == c[|c| - 1];
    StripTrimmed(text);
  }

  /** A printed rule text with arrow-free sides is cut at the printed arrow. */
  lemma PrintedArrow(j: string, c: string)
    requires ArrowFree(j) && ArrowFree(c)
    ensures Cut(j + " -> " + c) == Some(Sides(j + " ", " " + c))
  {
    var text := j + " -> " + c;
    assert NormalizeArrows(RemoveControl(text)) == text && FindPair(text, '-', '>') == Some(|j| + 1) by {
      OnlyArrow(j, c);
      ArrowTextClean(text, |j| + 1);
    }
    CutFrom(text, text, |j| + 1);
    assert text[..|j| + 1] == j + " " by {
      CutInside(j, " -> ", c, 1);
      assert " -> "[..1] == " ";
    }
    assert text[|j| + 3..] == " " + c by {
      CutInside(j, " -> ", c, 3);
      assert " -> "[3..] == " ";
    }
  }

  /** A text whose cleaned, normalised form `n` has its first `->` at `a` is cut there. */
  lemma CutFrom(text: string, n: string, a: nat)
    requires NormalizeArrows(RemoveControl(text)) == n && FindPair(n, '-', '>') == Some(a)
    ensures Cut(text) == Some(Sides(n[..a], n[a + 2..]))
  {
  }

  /** The left side of a printed rule text splits into the printed premises. */
  lemma PrintedPremises(ps: seq<string>)
    requires ps != [] && forall k :: 0 <= k < |ps| ==> PlainAtom(ps[k])
    ensures SplitAtoms(Join(" ^ ", ps) + " ") == ps
  {
    var j := Join(" ^ ", ps);
    assert Strip(j + " ") == j by {
      JoinedPlain(ps);
      StripTrailingSpace(j, " ");
    }
    assert SplitFrom(j, []) == ps by {
      forall k | 0 <= k < |ps| ensures WellFormedAtom(ps[k]) {
        assert PlainAtom(ps[k]);
      }
      JoinSplit(ps);
    }
    assert NormalizeAll(ps) == ps by {
      forall k | 0 <= k < |ps| ensures ps[k] != [] && Trimmed(ps[k]) {
        assert PlainAtom(ps[k]);
      }
      NormalizeAllIdentity(ps);
    }
    SplitAtomsOf(j + " ");
  }

  /** `split_atoms` of a non-empty text, unfolded. */
  lemma SplitAtomsOf(raw: string)
    requires raw != []
    ensures SplitAtoms(raw) == NormalizeAll(SplitFrom(Strip(raw), []))
  {
  }

  /** How a text that is cut into two sides parses. */
  lemma ParseCut(raw: string, sides: Sides)
    requires Strip(raw) != [] && Cut(Strip(raw)) == Some(sides)
    ensures ParseRuleText(raw) ==
      if SplitAtoms(sides.left) == [] then Err(MissingPremises)
      else if NormalizeAtom(sides.right) == [] then Err(MissingConclusion)
      else Ok(Parsed(SplitAtoms(sides.left), NormalizeAtom(sides.right)))
  {
  }

  // ---------------------------------------------------------------------
  // Options
  // ---------------------------------------------------------------------

  /** The position of the first choice whose lower-case form is `lowered`, if any. */
  function FindChoice(lowered: string, choices: seq<string>): (r: Option<nat>)
    ensures r.Some? ==> (r.value < |choices| && Lower(choices[r.value]) == lowered
      && forall i :: 0 <= i < r.value ==> Lower(choices[i]) != lowered)
    ensures r.None? ==> forall i :: 0 <= i < |choices| ==> Lower(choices[i]) != lowered
  {
    if choices == [] then None
    else if Lower(choices[0]) == lowered then Some(0)
    else match FindChoice(lowered, choices[1..])
      case None => None
      case Some(k) => Some(k + 1)
  }

  /**
    `ensure_choice`: the first choice whose lower-case form equals the
    stripped, lower-cased value, in its canonical spelling; an error naming
    `what` and the choices when there is none.
   */
  function EnsureChoice(value: string, choices: seq<string>, what: string): (r: Result<string>)
    ensures r.Ok? <==> exists k :: 0 <= k < |choices| && Lower(choices[k]) == Lower(Strip(value))
    ensures r.Ok? ==> exists k :: (0 <= k < |choices| && r.value == choices[k]
      && Lower(choices[k]) == Lower(Strip(value))
      && forall i :: 0 <= i < k ==> Lower(choices[i]) != Lower(Strip(value)))
    ensures r.Err? ==> r.error == InvalidChoice(what, choices)
  {
    match FindChoice(Lower(Strip(value)), choices)
    case Some(k) => Ok(choices[k])
    case None => Err(InvalidChoice(what, choices))
  }

  /** Between two distinct lower-case choices, the value is accepted as the one it spells. */
  lemma ChoiceOfTwo(value: string, a: string, b: string, what: string)
    requires Lower(a) == a && Lower(b) == b && a != b
    ensures var r := EnsureChoice(value, [a, b], what);
      && (r == Ok(a) <==> Lower(Strip(value)) == a)
      && (r == Ok(b) <==> Lower(Strip(value)) == b)
      && (r.Ok? ==> r.value == a || r.value == b)
      && (r.Err? ==> r.error == InvalidChoice(what, [a, b]))
  {
    var choices := [a, b];
    assert choices[0] == a && choices[1] == b;
  }
}
