/**
 * `SubtitleProcessor._normalize_text_for_matching`: lower-case, drop every
 * character that is neither a word character nor whitespace, turn each run of
 * whitespace into one space, and strip the ends.
 */
module Normalize {
  import opened Text

  /** `re.sub(r'[^\w\s]', '', s)` */
  function RemovePunctuation(s: string): (r: string)
    ensures forall i :: 0 <= i < |r| ==> IsWordChar(r[i]) || IsSpace(r[i])
    ensures (forall i :: 0 <= i < |s| ==> IsLower(s[i])) ==> forall i :: 0 <= i < |r| ==> IsLower(r[i])
  {
    if s == [] then []
    else (if IsWordChar(s[0]) || IsSpace(s[0]) then [s[0]] else []) + RemovePunctuation(s[1..])
  }

  /** `re.sub(r'\s+', ' ', s)` */
  function CollapseSpaces(s: string): (r: string)
    decreases |s|
  {
    if s == [] then []
    else if IsSpace(s[0]) then [' '] + CollapseSpaces(TrimLeft(s[1..]))
    else [s[0]] + CollapseSpaces(s[1..])
  }

  function NormalizeText(text: string): string {
    if text == [] then ""
    else Strip(CollapseSpaces(RemovePunctuation(Lower(text))))
  }

  /** A character that may survive normalisation besides the space. */
  predicate Kept(c: char) {
    IsWordChar(c) && IsLower(c)
  }

  ghost predicate SpacesAndKept(s: string) {
    forall i :: 0 <= i < |s| ==> s[i] == ' ' || Kept(s[i])
  }

  ghost predicate NoDoubleSpace(s: string) {
    forall i, j :: 0 <= i < j < |s| && j == i + 1 ==> !(IsSpace(s[i]) && IsSpace(s[j]))
  }

  /**
   * The shape every normalised string has: lower-case word characters and
   * single spaces, with no space at either end.
   */
  ghost predicate IsNormalized(s: string) {
    && SpacesAndKept(s)
    && (s != [] ==> !IsSpace(s[0]) && !IsSpace(s[|s| - 1]))
    && NoDoubleSpace(s)
  }

  ghost predicate SpacesOrKept(s: string) {
    forall i :: 0 <= i < |s| ==> IsSpace(s[i]) || Kept(s[i])
  }

  lemma {:induction false} CollapseShape(s: string)
    requires SpacesOrKept(s)
    ensures SpacesAndKept(CollapseSpaces(s))
    ensures NoDoubleSpace(CollapseSpaces(s))
    ensures s == [] <==> CollapseSpaces(s) == []
    ensures s != [] ==> (IsSpace(CollapseSpaces(s)[0]) <==> IsSpace(s[0]))
    decreases |s|
  {
    if s != [] {
      var head, rest;
      if IsSpace(s[0]) {
        head := ' ';
        var t := s[1..];
        rest := TrimLeft(t);
        forall i | 0 <= i < |rest| ensures IsSpace(rest[i]) || Kept(rest[i]) {
          assert rest[i] == t[|t| - |rest| + i];
        }
      } else {
        head := s[0];
        rest := s[1..];
        forall i | 0 <= i < |rest| ensures IsSpace(rest[i]) || Kept(rest[i]) {
          assert rest[i] == s[i + 1];
        }
      }
      CollapseShape(rest);
      CollapsedCons(head, rest);
    }
  }

  /** One step of `CollapseShape`: a head put before the collapsed rest. */
  lemma CollapsedCons(head: char, rest: string)
    requires head == ' ' || Kept(head)
    requires IsSpace(head) ==> rest == [] || !IsSpace(rest[0])
    requires SpacesAndKept(CollapseSpaces(rest)) && NoDoubleSpace(CollapseSpaces(rest))
    requires rest != [] ==> (IsSpace(CollapseSpaces(rest)[0]) <==> IsSpace(rest[0]))
    requires rest == [] <==> CollapseSpaces(rest) == []
    ensures SpacesAndKept([head] + CollapseSpaces(rest)) && NoDoubleSpace([head] + CollapseSpaces(rest))
  {
    var cr := CollapseSpaces(rest);
    var r := [head] + cr;
    forall i | 0 <= i < |r| ensures r[i] == ' ' || Kept(r[i]) {
      if i > 0 { assert r[i] == cr[i - 1]; }
    }
    forall i, j | 0 <= i < j < |r| && j == i + 1 ensures !(IsSpace(r[i]) && IsSpace(r[j])) {
      if i > 0 { assert r[i] == cr[i - 1] && r[j] == cr[j - 1]; }
    }
  }

  lemma SliceShape(c: string, lo: nat, hi: nat)
    requires lo <= hi <= |c|
    requires SpacesAndKept(c) && NoDoubleSpace(c)
    ensures SpacesAndKept(c[lo..hi]) && NoDoubleSpace(c[lo..hi])
  {
    var r := c[lo..hi];
    forall i | 0 <= i < |r| ensures r[i] == ' ' || Kept(r[i]) {
      assert r[i] == c[lo + i];
    }
    forall i, j | 0 <= i < j < |r| && j == i + 1 ensures !(IsSpace(r[i]) && IsSpace(r[j])) {
      assert r[i] == c[lo + i] && r[j] == c[lo + j];
    }
  }

  lemma StrippedSlice(c: string, l: string, r: string)
    requires SpacesAndKept(c) && NoDoubleSpace(c)
    requires |l| <= |c| && l == c[|c| - |l|..]
    requires |r| <= |l| && r == l[..|r|]
    requires r != [] ==> !IsSpace(r[0]) && !IsSpace(r[|r| - 1])
    ensures IsNormalized(r)
  {
    var off := |c| - |l|;
    assert r == c[off..off + |r|];
    SliceShape(c, off, off + |r|);
  }

  lemma StripCollapsed(c: string)
    requires SpacesAndKept(c) && NoDoubleSpace(c)
    ensures IsNormalized(Strip(c))
  {
    var l := TrimLeft(c);
    var r := TrimRight(l);
    assert r != [] ==> r[0] == l[0];
    StrippedSlice(c, l, r);
  }

  /** The result is lower-case, free of punctuation, and single-spaced with no space at either end. */
  lemma NormalizeShape(text: string)
    ensures IsNormalized(NormalizeText(text))
  {
    if text != [] {
      var low := Lower(text);
      assert forall i :: 0 <= i < |low| ==> IsLower(low[i]);
      var kept := RemovePunctuation(low);
      assert SpacesOrKept(kept);
      CollapseShape(kept);
      StripCollapsed(CollapseSpaces(kept));
    }
  }

  lemma {:induction false} RemovePunctuationKeeps(s: string)
    requires forall i :: 0 <= i < |s| ==> IsWordChar(s[i]) || IsSpace(s[i])
    ensures RemovePunctuation(s) == s
  {
    if s != [] { RemovePunctuationKeeps(s[1..]); }
  }

  lemma {:induction false} CollapseKeeps(s: string)
    requires SpacesAndKept(s) && NoDoubleSpace(s)
    ensures CollapseSpaces(s) == s
  {
    if s != [] {
      if IsSpace(s[0]) {
        if |s| > 1 { assert !IsSpace(s[1]); }
        assert TrimLeft(s[1..]) == s[1..];
      }
      CollapseKeeps(s[1..]);
    }
  }

  lemma {:induction false} LowerKeeps(s: string)
    requires forall i :: 0 <= i < |s| ==> IsLower(s[i])
    ensures Lower(s) == s
  {
  }

  /** Normalising a second time changes nothing. */
  lemma NormalizeIdempotent(text: string)
    ensures NormalizeText(NormalizeText(text)) == NormalizeText(text)
  {
    var n := NormalizeText(text);
    NormalizeShape(text);
    if n != [] {
      LowerKeeps(n);
      RemovePunctuationKeeps(n);
      CollapseKeeps(n);
      assert TrimLeft(n) == n;
      assert TrimRight(n) == n;
    }
  }

  /** A normalised string is empty exactly when it has no words. */
  lemma NormalizedWordsEmpty(text: string)
    ensures Words(NormalizeText(text)) == [] <==> NormalizeText(text) == ""
  {
    var n := NormalizeText(text);
    NormalizeShape(text);
    WordsEmptyIffAllSpace(n);
    if n != [] { assert !IsSpace(n[0]); }
  }

  /**
   * `RemovePunctuation` works character by character: it keeps exactly the
   * word characters and the whitespace, in order.
   */
  lemma {:induction false} RemovePunctuationFilter(u: string, v: string)
    ensures RemovePunctuation(u + v) == RemovePunctuation(u) + RemovePunctuation(v)
    ensures |u| == 1 ==> RemovePunctuation(u) == (if IsWordChar(u[0]) || IsSpace(u[0]) then u else [])
    decreases |u|
  {
    if u == [] {
      assert u + v == v;
    } else {
      assert (u + v)[1..] == u[1..] + v;
      RemovePunctuationFilter(u[1..], v);
    }
  }

  /** A collapsed string starts a word exactly when the original does. */
  lemma CollapseStartsWord(s: string)
    ensures StartsWord(CollapseSpaces(s)) == StartsWord(s)
  {
  }

  /** Collapsing whitespace runs leaves the words unchanged. */
  lemma {:induction false} CollapseWords(s: string)
    ensures Words(CollapseSpaces(s)) == Words(s)
    decreases |s|
  {
    if s != [] {
      var c := CollapseSpaces(s);
      if IsSpace(s[0]) {
        var rest := TrimLeft(s[1..]);
        assert c[1..] == CollapseSpaces(rest);
        WordsSpaceCons(c);
        CollapseWords(rest);
        WordsTrimLeft(s[1..]);
        WordsSpaceCons(s);
      } else {
        assert c[0] == s[0] && c[1..] == CollapseSpaces(s[1..]);
        WordsCharCons(c);
        CollapseWords(s[1..]);
        CollapseStartsWord(s[1..]);
        WordsCharCons(s);
      }
    }
  }

  /**
   * Normalisation keeps the words: the normalised text splits into the same
   * words as the lower-cased text with its punctuation removed.
   */
  lemma NormalizeWords(text: string)
    ensures Words(NormalizeText(text)) == Words(RemovePunctuation(Lower(text)))
  {
    if text != [] {
      var kept := RemovePunctuation(Lower(text));
      WordsStrip(CollapseSpaces(kept));
      CollapseWords(kept);
    }
  }
}
