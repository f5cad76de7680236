/**
 * Character classes and string helpers shared by the model, restricted to
 * ASCII: `IsSpace` is Python's `\s`, `IsWordChar` is `\w`, `LowerChar` is
 * `str.lower` on one character.
 */
module Text {

  /**
   * Python's `\s` (and `str.isspace`) on ASCII: space, tab, newline, vertical
   * tab, form feed, carriage return, and the separators `\x1c` to `\x1f`.
   */
  predicate IsSpace(c: char) {
    c == ' ' || ('\t' <= c <= '\r') || ('\U{1C}' <= c <= '\U{1F}')
  }

  /** Python's `\w` on ASCII: letters, digits and underscore. */
  predicate IsWordChar(c: char) {
    ('a' <= c <= 'z') || ('A' <= c <= 'Z') || ('0' <= c <= '9') || c == '_'
  }

  predicate IsLower(c: char) {
    !('A' <= c <= 'Z')
  }

  function LowerChar(c: char): (r: char)
    ensures IsLower(r)
    ensures IsWordChar(r) <==> IsWordChar(c)
    ensures IsSpace(r) <==> IsSpace(c)
    ensures IsLower(c) ==> r == c
  {
    if 'A' <= c <= 'Z' then (c as int + 32) as char else c
  }

  /** `str.lower()` */
  function Lower(s: string): (r: string)
    ensures |r| == |s|
    ensures forall i :: 0 <= i < |s| ==> r[i] == LowerChar(s[i])
  {
    seq(|s|, i requires 0 <= i < |s| => LowerChar(s[i]))
  }

  predicate AllSpace(s: string) {
    forall i :: 0 <= i < |s| ==> IsSpace(s[i])
  }

  /** `str.lstrip()` */
  function TrimLeft(s: string): (r: string)
    ensures |r| <= |s| && r == s[|s| - |r|..]
    ensures r == [] || !IsSpace(r[0])
    ensures AllSpace(s[..|s| - |r|])
  {
    if s != [] && IsSpace(s[0]) then
      var t := s[1..];
      var r := TrimLeft(t);
      assert forall i :: 0 < i < |s| - |r| ==> s[i] == t[..|t| - |r|][i - 1];
      r
    else s
  }

  /** `str.rstrip()` */
  function TrimRight(s: string): (r: string)
    ensures |r| <= |s| && r == s[..|r|]
    ensures r == [] || !IsSpace(r[|r| - 1])
    ensures AllSpace(s[|r|..])
  {
    if s != [] && IsSpace(s[|s| - 1]) then
      var t := s[..|s| - 1];
      var r := TrimRight(t);
      assert forall i :: |r| <= i < |t| ==> s[i] == t[|r|..][i - |r|];
      r
    else s
  }

  /** `str.strip()` */
  function Strip(s: string): (r: string)
  {
    TrimRight(TrimLeft(s))
  }

  /** A string holding only whitespace, possibly none. */
  predicate IsBlank(s: string) {
    AllSpace(s)
  }

  /** Blank is exactly Python's `not s or not s.strip()`: stripping leaves nothing. */
  lemma BlankIffStripEmpty(s: string)
    ensures IsBlank(s) <==> Strip(s) == []
  {
    var l := TrimLeft(s);
    if l == [] {
      assert s[..|s|] == s;
    } else {
      assert !IsSpace(s[|s| - |l|]);
    }
  }

  /** Python's `sep.join(parts)`. */
  function Join(parts: seq<string>, sep: string): string
  {
    if parts == [] then ""
    else if |parts| == 1 then parts[0]
    else parts[0] + sep + Join(parts[1..], sep)
  }

  /** Python's `s.endswith(suffix)`. */
  predicate EndsWith(s: string, suffix: string) {
    |suffix| <= |s| && s[|s| - |suffix|..] == suffix
  }

  /** Index of the first whitespace character of `s`, or `|s|` when there is none. */
  function FirstSpace(s: string): (k: nat)
    ensures k <= |s|
    ensures k < |s| ==> IsSpace(s[k])
    ensures forall i :: 0 <= i < k ==> !IsSpace(s[i])
  {
    if s == [] then 0
    else if IsSpace(s[0]) then 0
    else 1 + FirstSpace(s[1..])
  }

  /** A non-empty run of non-whitespace characters. */
  predicate IsWord(w: string) {
    w != [] && forall i :: 0 <= i < |w| ==> !IsSpace(w[i])
  }

  /** Python's `s.split()` with no separator: maximal runs of non-whitespace. */
  function Words(s: string): seq<string>
    decreases |s|
  {
    var t := TrimLeft(s);
    if t == [] then []
    else
      var k := FirstSpace(t);
      assert k > 0 by { assert !IsSpace(t[0]); }
      [t[..k]] + Words(t[k..])
  }

  /** Every piece `split()` returns is a non-empty run without whitespace. */
  lemma {:induction false} WordsAreWords(s: string)
    ensures forall k :: 0 <= k < |Words(s)| ==> IsWord(Words(s)[k])
    decreases |s|
  {
    var t := TrimLeft(s);
    if t != [] {
      var k := FirstSpace(t);
      var rest := Words(t[k..]);
      FirstWord(t);
      WordsStep(s);
      WordsAreWords(t[k..]);
      forall j | 0 <= j < |Words(s)| ensures IsWord(Words(s)[j]) {
        if j > 0 { assert Words(s)[j] == rest[j - 1]; }
      }
    }
  }

  /** The first piece of a string that starts with a non-space is a word. */
  lemma FirstWord(t: string)
    requires t != [] && !IsSpace(t[0])
    ensures IsWord(t[..FirstSpace(t)])
  {
  }

  /** One step of `Words` on a string that is not all whitespace. */
  lemma WordsStep(s: string)
    requires TrimLeft(s) != []
    ensures FirstSpace(TrimLeft(s)) > 0
    ensures Words(s) == [TrimLeft(s)[..FirstSpace(TrimLeft(s))]] + Words(TrimLeft(s)[FirstSpace(TrimLeft(s))..])
  {
  }

  lemma {:induction false} WordsEmptyIffAllSpace(s: string)
    ensures Words(s) == [] <==> AllSpace(s)
  {
    var t := TrimLeft(s);
    if t == [] {
      assert s[..|s|] == s;
    } else {
      assert !IsSpace(s[|s| - |t|]);
    }
  }

  /** Whether a non-space character put in front of `s` joins its first word. */
  predicate StartsWord(s: string) {
    s != [] && !IsSpace(s[0])
  }

  lemma TrimLeftAtWord(t: string)
    requires t == [] || StartsWord(t)
    ensures TrimLeft(t) == t
  {
  }

  /** Leading whitespace does not change the words. */
  lemma WordsTrimLeft(s: string)
    ensures Words(TrimLeft(s)) == Words(s)
  {
    TrimLeftAtWord(TrimLeft(s));
  }

  /** A leading whitespace character does not change the words. */
  lemma WordsSpaceCons(t: string)
    requires t != [] && IsSpace(t[0])
    ensures Words(t) == Words(t[1..])
  {
    assert TrimLeft(t) == TrimLeft(t[1..]);
  }

  /** The first word of a string that starts with one, and the words after it. */
  lemma WordsAtWord(t: string)
    requires StartsWord(t)
    ensures 0 < FirstSpace(t) && Words(t) == [t[..FirstSpace(t)]] + Words(t[FirstSpace(t)..])
  {
    TrimLeftAtWord(t);
  }

  lemma WordsSplitAt(t: string, k: nat)
    requires StartsWord(t) && k == FirstSpace(t)
    ensures Words(t) == [t[..k]] + Words(t[k..])
  {
    WordsAtWord(t);
  }

  /**
   * The words of `[c] + ws`-style text: a non-space character in front joins
   * the first word when the rest starts with one, and is a word of its own
   * otherwise.
   */
  function Glue(c: char, ws: seq<string>, glued: bool): seq<string> {
    if glued && ws != [] then [[c] + ws[0]] + ws[1..] else [[c]] + ws
  }

  lemma WordsCharCons(t: string)
    requires StartsWord(t)
    ensures Words(t) == Glue(t[0], Words(t[1..]), StartsWord(t[1..]))
  {
    if StartsWord(t[1..]) {
      WordsJoinFirst(t);
    } else {
      WordsAlone(t);
    }
  }

  /** A non-space character before a word joins that word. */
  lemma WordsJoinFirst(t: string)
    requires StartsWord(t) && StartsWord(t[1..])
    ensures Words(t[1..]) != [] && Words(t) == [[t[0]] + Words(t[1..])[0]] + Words(t[1..])[1..]
  {
    var u := t[1..];
    var k, m := FirstSpace(t), FirstSpace(u);
    WordsAtWord(t);
    WordsAtWord(u);
    FirstSpaceCons(t);
    SliceCons(t, k);
  }

  /** A non-space character before whitespace or the end is a word of its own. */
  lemma WordsAlone(t: string)
    requires StartsWord(t) && !StartsWord(t[1..])
    ensures Words(t) == [[t[0]]] + Words(t[1..])
  {
    FirstSpaceCons(t);
    WordsSplitAt(t, 1);
    TakeOne(t);
  }

  lemma TakeOne(t: string)
    requires t != []
    ensures t[..1] == [t[0]]
  {
    assert |t[..1]| == 1 && t[..1][0] == t[0];
  }

  lemma SliceCons(t: string, k: nat)
    requires 1 <= k <= |t|
    ensures t[..k] == [t[0]] + t[1..][..k - 1] && t[k..] == t[1..][k - 1..]
  {
  }

  lemma FirstSpaceCons(t: string)
    requires StartsWord(t)
    ensures FirstSpace(t) == 1 + FirstSpace(t[1..])
    ensures !StartsWord(t[1..]) ==> FirstSpace(t) == 1
  {
  }

  /** Trailing whitespace does not change the words. */
  lemma {:induction false} WordsTrailingSpace(r: string, sp: string)
    requires AllSpace(sp)
    ensures Words(r + sp) == Words(r)
    decreases |r|
  {
    var u := r + sp;
    if r == [] {
      assert u == sp;
      WordsEmptyIffAllSpace(sp);
    } else {
      assert u[0] == r[0] && u[1..] == r[1..] + sp;
      WordsTrailingSpace(r[1..], sp);
      if IsSpace(r[0]) {
        WordsSpaceCons(u);
        WordsSpaceCons(r);
      } else {
        WordsCharCons(u);
        WordsCharCons(r);
        assert StartsWord(u[1..]) == StartsWord(r[1..]) by {
          if r[1..] != [] { assert u[1..][0] == r[1..][0]; }
          else if sp != [] { assert u[1..][0] == sp[0]; }
        }
      }
    }
  }

  /** `strip()` does not change the words. */
  lemma WordsStrip(s: string)
    ensures Words(Strip(s)) == Words(s)
  {
    var l := TrimLeft(s);
    var r := TrimRight(l);
    assert l == r + l[|r|..];
    WordsTrailingSpace(r, l[|r|..]);
    WordsTrimLeft(s);
  }

  /** `os.path.join(dir, name)` for a relative `name`. */
  function JoinPath(dir: string, name: string): (r: string)
    ensures |r| >= |name| && r[|r| - |name|..] == name
  {
    if dir == [] then name
    else if dir[|dir| - 1] == '/' then dir + name
    else dir + "/" + name
  }

  /** What `os.path.join` puts in front of the name. */
  function DirPrefix(dir: string): string {
    if dir == [] then "" else if dir[|dir| - 1] == '/' then dir else dir + "/"
  }

  lemma JoinPathInjective(dir: string, x: string, y: string)
    ensures JoinPath(dir, x) == JoinPath(dir, y) ==> x == y
  {
    var c := DirPrefix(dir);
    assert JoinPath(dir, x) == c + x && JoinPath(dir, y) == c + y;
    assert (c + x)[|c|..] == x && (c + y)[|c|..] == y;
  }
}

/**
 * Python's ordering of strings: code point by code point, a proper prefix
 * before the longer string.
 */
module StringOrder {

  predicate LexLess(a: string, b: string)
  {
    if a == [] then b != []
    else if b == [] then false
    else if a[0] != b[0] then a[0] < b[0]
    else LexLess(a[1..], b[1..])
  }

  lemma {:induction false} LexLessIrreflexive(a: string)
    ensures !LexLess(a, a)
  {
    if a != [] { LexLessIrreflexive(a[1..]); }
  }

  lemma {:induction false} LexLessAsymmetric(a: string, b: string)
    ensures !(LexLess(a, b) && LexLess(b, a))
  {
    if a != [] && b != [] && a[0] == b[0] { LexLessAsymmetric(a[1..], b[1..]); }
  }

  lemma {:induction false} LexLessTransitive(a: string, b: string, c: string)
    requires LexLess(a, b) && LexLess(b, c)
    ensures LexLess(a, c)
  {
    if a != [] && a[0] == b[0] && b[0] == c[0] {
      LexLessTransitive(a[1..], b[1..], c[1..]);
    }
  }

  lemma {:induction false} LexLessTotal(a: string, b: string)
    ensures a == b || LexLess(a, b) || LexLess(b, a)
  {
    if a != [] && b != [] && a[0] == b[0] {
      LexLessTotal(a[1..], b[1..]);
      if a[1..] == b[1..] {
        assert a == [a[0]] + a[1..] && b == [b[0]] + b[1..];
      }
    }
  }

  /** Two strings that differ first inside equally long heads compare as the heads do. */
  lemma {:induction false} LexLessHeads(x1: string, y1: string, x2: string, y2: string)
    requires |x1| == |x2| && LexLess(x1, x2)
    ensures LexLess(x1 + y1, x2 + y2)
  {
    if x1[0] == x2[0] {
      assert (x1 + y1)[1..] == x1[1..] + y1;
      assert (x2 + y2)[1..] == x2[1..] + y2;
      LexLessHeads(x1[1..], y1, x2[1..], y2);
    }
  }

  /** A common head does not change the comparison. */
  lemma {:induction false} LexLessCommonHead(x: string, y1: string, y2: string)
    ensures LexLess(x + y1, x + y2) <==> LexLess(y1, y2)
  {
    if x != [] {
      assert (x + y1)[1..] == x[1..] + y1;
      assert (x + y2)[1..] == x[1..] + y2;
      LexLessCommonHead(x[1..], y1, y2);
    } else {
      assert x + y1 == y1 && x + y2 == y2;
    }
  }
}
