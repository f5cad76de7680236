/**
 * The dialogue part of `SubtitleProcessor.process` (subtitle_gen.py): one
 * `HeadingStyle` line per aligned heading, the remaining words grouped
 * greedily into `Default` lines, and all lines sorted by their start stamp.
 *
 * Times are whole milliseconds: word times, the global offset and the line
 * rules (`max_line_duration_s`, `gap_threshold_s`) are all in ms.
 */
module Subtitles {
  import opened Text
  import opened Wrappers
  import opened StringOrder
  import opened StableSort
  import opened AssTime
  import opened AudioAnalyzer
  import opened HeadingAlign

  /** `style_config['line_rules']`: `max_words_per_line`, `max_line_duration_s`, `gap_threshold_s`. */
  datatype LineRules = LineRules(maxWords: int, maxDurationMs: int, gapMs: int)

  /** The defaults when the configuration leaves a rule out: 7 words, 12 s, 0.4 s. */
  const DefaultRules := LineRules(7, 12000, 400)

  /** A `Default` line: the words `lo..hi-1` of the transcript. */
  datatype LineSpan = LineSpan(lo: nat, hi: nat)

  // ---------------------------------------------------------------------
  // Line breaking

  /**
   * With the pending line holding words `s..h-1`, word `h` starts a new
   * line: the line is full, would last too long, or `h` follows a pause.
   */
  predicate Break(words: seq<Word>, rules: LineRules, s: nat, h: nat)
    requires s < h < |words|
  {
    || h - s >= rules.maxWords
    || words[h].end - words[s].start > rules.maxDurationMs
    || words[h].start - words[h - 1].end > rules.gapMs
  }

  /**
   * One turn of the loop on word `i`, given the lines emitted so far and the
   * start `s` of the pending line `words[s..i]`: a word used by a heading
   * flushes the pending line; a word that breaks it flushes it and starts
   * the next one; any other word joins it.
   */
  function Next(words: seq<Word>, used: set<nat>, rules: LineRules, st: (seq<LineSpan>, nat), i: nat)
    : (seq<LineSpan>, nat)
    requires st.1 <= i < |words|
  {
    var (done, s) := st;
    if i in used then
      if s < i then (done + [LineSpan(s, i)], i + 1) else (done, i + 1)
    else if s < i && Break(words, rules, s, i) then (done + [LineSpan(s, i)], i)
    else (done, s)
  }

  /** A word not used by a heading closes the pending line exactly when it breaks it. */
  lemma NextFree(words: seq<Word>, used: set<nat>, rules: LineRules, st: (seq<LineSpan>, nat), i: nat)
    requires st.1 <= i < |words| && i !in used
    ensures Next(words, used, rules, st, i)
         == if st.1 < i && Break(words, rules, st.1, i) then (st.0 + [LineSpan(st.1, i)], i) else st
  {
  }

  /**
   * The lines emitted after the loop has seen `words[..h]`, and the start
   * `s` of the pending line `words[s..h]` (empty when `s == h`).
   */
  function GroupUpTo(words: seq<Word>, used: set<nat>, rules: LineRules, h: nat): (r: (seq<LineSpan>, nat))
    requires h <= |words|
    ensures r.1 <= h
  {
    if h == 0 then ([], 0)
    else
      var prev := GroupUpTo(words, used, rules, h - 1);
      Next(words, used, rules, prev, h - 1)
  }

  /** Every `Default` line, the last pending one included, in the order they are emitted. */
  function Lines(words: seq<Word>, used: set<nat>, rules: LineRules): seq<LineSpan> {
    var (done, s) := GroupUpTo(words, used, rules, |words|);
    if s < |words| then done + [LineSpan(s, |words|)] else done
  }

  /** The most words a line can hold: one word always fits. */
  function MaxLen(rules: LineRules): nat {
    if rules.maxWords < 1 then 1 else rules.maxWords
  }

  /**
   * A well-formed line: non-empty, no word of it used by a heading, at most
   * `MaxLen` words, and no word after its first one would have broken it.
   */
  ghost predicate LineOk(words: seq<Word>, used: set<nat>, rules: LineRules, sp: LineSpan) {
    && sp.lo < sp.hi <= |words|
    && (forall i :: sp.lo <= i < sp.hi ==> i !in used)
    && sp.hi - sp.lo <= MaxLen(rules)
    && (forall k :: sp.lo < k < sp.hi ==> !Break(words, rules, sp.lo, k))
  }

  /**
   * Why line `j` starts where it does: it holds the first word, or the word
   * before it went to a heading, or it follows line `j - 1` directly and its
   * first word broke that line.
   */
  ghost predicate StartsLine(words: seq<Word>, used: set<nat>, rules: LineRules, spans: seq<LineSpan>, j: nat)
    requires j < |spans|
  {
    var lo := spans[j].lo;
    || lo == 0
    || lo - 1 in used
    || (j > 0 && spans[j - 1].lo < spans[j - 1].hi == lo < |words| && Break(words, rules, spans[j - 1].lo, lo))
  }

  ghost predicate InSomeLine(spans: seq<LineSpan>, i: nat) {
    exists j :: 0 <= j < |spans| && spans[j].lo <= i < spans[j].hi
  }

  /**
   * `spans` groups the words before `h`: well-formed lines, in order and
   * not overlapping, each starting for a reason, and every word before `h`
   * not used by a heading in one of them.
   */
  ghost predicate Grouping(words: seq<Word>, used: set<nat>, rules: LineRules, spans: seq<LineSpan>, h: nat) {
    && h <= |words|
    && LinesOk(words, used, rules, spans, h)
    && LinesStart(words, used, rules, spans)
    && LinesOrdered(spans)
    && Covered(used, spans, h)
  }

  ghost predicate LinesOk(words: seq<Word>, used: set<nat>, rules: LineRules, spans: seq<LineSpan>, h: nat) {
    forall j :: 0 <= j < |spans| ==> LineOk(words, used, rules, spans[j]) && spans[j].hi <= h
  }

  ghost predicate LinesStart(words: seq<Word>, used: set<nat>, rules: LineRules, spans: seq<LineSpan>) {
    forall j :: 0 <= j < |spans| ==> StartsLine(words, used, rules, spans, j)
  }

  ghost predicate LinesOrdered(spans: seq<LineSpan>) {
    forall j1, j2 :: 0 <= j1 < j2 < |spans| ==> spans[j1].hi <= spans[j2].lo
  }

  /** Every word before `h` not used by a heading is in some line. */
  ghost predicate Covered(used: set<nat>, spans: seq<LineSpan>, h: nat) {
    forall i :: 0 <= i < h && i !in used ==> InSomeLine(spans, i)
  }

  /** The pending line as a list of at most one span. */
  function Open(s: nat, h: nat): seq<LineSpan> {
    if s < h then [LineSpan(s, h)] else []
  }

  /** A word used by a heading joins no line. */
  lemma SkipUsed(words: seq<Word>, used: set<nat>, rules: LineRules, spans: seq<LineSpan>, i: nat)
    requires Grouping(words, used, rules, spans, i) && i < |words| && i in used
    ensures Grouping(words, used, rules, spans, i + 1)
  {
  }

  /** A word that starts a line for one of the reasons of `StartsLine` opens a one-word line. */
  lemma NewLine(words: seq<Word>, used: set<nat>, rules: LineRules, spans: seq<LineSpan>, i: nat)
    requires Grouping(words, used, rules, spans, i) && i < |words| && i !in used
    requires || i == 0
             || i - 1 in used
             || (spans != [] && spans[|spans| - 1].lo < spans[|spans| - 1].hi == i
                 && Break(words, rules, spans[|spans| - 1].lo, i))
    ensures Grouping(words, used, rules, spans + [LineSpan(i, i + 1)], i + 1)
  {
    NewLinesOk(words, used, rules, spans, i);
    NewLinesStart(words, used, rules, spans, i);
    NewLinesOrdered(spans, i);
    NewCovered(used, spans, i);
  }

  lemma NewLinesOk(words: seq<Word>, used: set<nat>, rules: LineRules, spans: seq<LineSpan>, i: nat)
    requires LinesOk(words, used, rules, spans, i) && i < |words| && i !in used
    ensures LinesOk(words, used, rules, spans + [LineSpan(i, i + 1)], i + 1)
  {
    var r := spans + [LineSpan(i, i + 1)];
    forall j | 0 <= j < |r| ensures LineOk(words, used, rules, r[j]) && r[j].hi <= i + 1 {
      if j < |spans| { assert r[j] == spans[j]; }
    }
  }

  lemma NewLinesStart(words: seq<Word>, used: set<nat>, rules: LineRules, spans: seq<LineSpan>, i: nat)
    requires LinesStart(words, used, rules, spans) && i < |words|
    requires || i == 0
             || i - 1 in used
             || (spans != [] && spans[|spans| - 1].lo < spans[|spans| - 1].hi == i
                 && Break(words, rules, spans[|spans| - 1].lo, i))
    ensures LinesStart(words, used, rules, spans + [LineSpan(i, i + 1)])
  {
    var r := spans + [LineSpan(i, i + 1)];
    forall j | 0 <= j < |r| ensures StartsLine(words, used, rules, r, j) {
      if j < |spans| {
        assert r[j] == spans[j];
        assert StartsLine(words, used, rules, spans, j);
        if j > 0 { assert r[j - 1] == spans[j - 1]; }
      } else if i > 0 && i - 1 !in used {
        assert r[j - 1] == spans[|spans| - 1];
      }
    }
  }

  lemma NewLinesOrdered(spans: seq<LineSpan>, i: nat)
    requires LinesOrdered(spans) && forall j :: 0 <= j < |spans| ==> spans[j].hi <= i
    ensures LinesOrdered(spans + [LineSpan(i, i + 1)])
  {
    var r := spans + [LineSpan(i, i + 1)];
    forall j1, j2 | 0 <= j1 < j2 < |r| ensures r[j1].hi <= r[j2].lo {
      if j2 < |spans| { assert r[j1] == spans[j1] && r[j2] == spans[j2]; }
      else { assert r[j1] == spans[j1]; }
    }
  }

  lemma NewCovered(used: set<nat>, spans: seq<LineSpan>, i: nat)
    requires Covered(used, spans, i)
    ensures Covered(used, spans + [LineSpan(i, i + 1)], i + 1)
  {
    var r := spans + [LineSpan(i, i + 1)];
    forall x | 0 <= x < i + 1 && x !in used ensures InSomeLine(r, x) {
      if x < i {
        var j :| 0 <= j < |spans| && spans[j].lo <= x < spans[j].hi;
        assert r[j] == spans[j];
      } else {
        assert r[|spans|].lo <= x < r[|spans|].hi;
      }
    }
  }

  /** A word that does not break the pending line joins it. */
  lemma ExtendLine(words: seq<Word>, used: set<nat>, rules: LineRules, done: seq<LineSpan>, s: nat, i: nat)
    requires s < i < |words| && i !in used
    requires Grouping(words, used, rules, done + [LineSpan(s, i)], i)
    requires !Break(words, rules, s, i)
    ensures Grouping(words, used, rules, done + [LineSpan(s, i + 1)], i + 1)
  {
    ExtendLinesOk(words, used, rules, done, s, i);
    ExtendLinesStart(words, used, rules, done, s, i);
    ExtendLinesOrdered(done, s, i);
    ExtendCovered(used, done, s, i);
  }

  lemma ExtendLinesOk(words: seq<Word>, used: set<nat>, rules: LineRules, done: seq<LineSpan>, s: nat, i: nat)
    requires s < i < |words| && i !in used
    requires LinesOk(words, used, rules, done + [LineSpan(s, i)], i) && !Break(words, rules, s, i)
    ensures LinesOk(words, used, rules, done + [LineSpan(s, i + 1)], i + 1)
  {
    var p := done + [LineSpan(s, i)];
    var r := done + [LineSpan(s, i + 1)];
    assert LineOk(words, used, rules, p[|done|]);
    ExtendedLineOk(words, used, rules, s, i);
    forall j | 0 <= j < |r| ensures LineOk(words, used, rules, r[j]) && r[j].hi <= i + 1 {
      if j < |done| { assert r[j] == p[j]; }
    }
  }

  lemma ExtendLinesStart(words: seq<Word>, used: set<nat>, rules: LineRules, done: seq<LineSpan>, s: nat, i: nat)
    requires s < i < |words|
    requires LinesStart(words, used, rules, done + [LineSpan(s, i)])
    ensures LinesStart(words, used, rules, done + [LineSpan(s, i + 1)])
  {
    var p := done + [LineSpan(s, i)];
    var r := done + [LineSpan(s, i + 1)];
    forall j | 0 <= j < |r| ensures StartsLine(words, used, rules, r, j) {
      assert StartsLine(words, used, rules, p, j);
      if j < |done| { assert r[j] == p[j]; }
      if 0 < j { assert r[j - 1] == p[j - 1]; }
    }
  }

  lemma ExtendLinesOrdered(done: seq<LineSpan>, s: nat, i: nat)
    requires LinesOrdered(done + [LineSpan(s, i)])
    ensures LinesOrdered(done + [LineSpan(s, i + 1)])
  {
    var p := done + [LineSpan(s, i)];
    var r := done + [LineSpan(s, i + 1)];
    forall j1, j2 | 0 <= j1 < j2 < |r| ensures r[j1].hi <= r[j2].lo {
      assert r[j1] == p[j1];
      assert r[j2].lo == p[j2].lo;
    }
  }

  lemma ExtendCovered(used: set<nat>, done: seq<LineSpan>, s: nat, i: nat)
    requires s < i
    requires Covered(used, done + [LineSpan(s, i)], i)
    ensures Covered(used, done + [LineSpan(s, i + 1)], i + 1)
  {
    var p := done + [LineSpan(s, i)];
    var r := done + [LineSpan(s, i + 1)];
    forall x | 0 <= x < i + 1 && x !in used ensures InSomeLine(r, x) {
      if x < i {
        var j :| 0 <= j < |p| && p[j].lo <= x < p[j].hi;
        assert r[j].lo <= x < r[j].hi;
      } else {
        assert r[|done|].lo <= x < r[|done|].hi;
      }
    }
  }

  /** A line stays well formed when a word that neither is used nor breaks it joins. */
  lemma ExtendedLineOk(words: seq<Word>, used: set<nat>, rules: LineRules, s: nat, i: nat)
    requires s < i < |words| && i !in used
    requires LineOk(words, used, rules, LineSpan(s, i)) && !Break(words, rules, s, i)
    ensures LineOk(words, used, rules, LineSpan(s, i + 1))
  {
  }

  /**
   * The loop's state after `h` words: the emitted lines and the pending one
   * group `words[..h]`, and the pending line is empty only at the start or
   * right after a word used by a heading.
   */
  ghost predicate GroupState(words: seq<Word>, used: set<nat>, rules: LineRules, st: (seq<LineSpan>, nat), h: nat) {
    && st.1 <= h
    && Grouping(words, used, rules, st.0 + Open(st.1, h), h)
    && (st.1 == h ==> h == 0 || h - 1 in used)
  }

  /** One turn of the loop keeps the grouping. */
  lemma NextGrouping(words: seq<Word>, used: set<nat>, rules: LineRules, st: (seq<LineSpan>, nat), i: nat)
    requires i < |words| && GroupState(words, used, rules, st, i)
    ensures GroupState(words, used, rules, Next(words, used, rules, st, i), i + 1)
  {
    var (done, s) := st;
    var p := done + Open(s, i);
    if i in used {
      SkipUsed(words, used, rules, p, i);
      assert Next(words, used, rules, st, i).0 + Open(i + 1, i + 1) == p;
    } else if s < i && Break(words, rules, s, i) {
      assert p[|done|] == LineSpan(s, i);
      NewLine(words, used, rules, p, i);
    } else if s == i {
      assert p == done;
      NewLine(words, used, rules, done, i);
    } else {
      ExtendLine(words, used, rules, done, s, i);
    }
  }

  lemma {:induction false} GroupUpToGrouping(words: seq<Word>, used: set<nat>, rules: LineRules, h: nat)
    requires h <= |words|
    ensures GroupState(words, used, rules, GroupUpTo(words, used, rules, h), h)
  {
    if h == 0 {
      assert Open(0, 0) == [];
    } else {
      GroupUpToGrouping(words, used, rules, h - 1);
      ghost var st := GroupUpTo(words, used, rules, h - 1);
      assert GroupUpTo(words, used, rules, h) == Next(words, used, rules, st, h - 1);
      NextGrouping(words, used, rules, st, h - 1);
    }
  }

  /** The emitted lines lie inside the transcript, before the pending one. */
  lemma GroupStateSpans(words: seq<Word>, used: set<nat>, rules: LineRules, st: (seq<LineSpan>, nat), h: nat)
    requires GroupState(words, used, rules, st, h)
    ensures SpansIn(words, st.0)
    ensures forall k :: 0 <= k < |st.0| ==> st.0[k].hi <= st.1
  {
    var all := st.0 + Open(st.1, h);
    forall k | 0 <= k < |st.0| ensures st.0[k].lo < st.0[k].hi <= |words| && st.0[k].hi <= st.1 {
      assert all[k] == st.0[k];
      assert LineOk(words, used, rules, all[k]);
      if st.1 < h { assert all[|st.0|].lo == st.1; }
    }
  }

  /** The lines emitted after `h` words lie inside the transcript, before the pending line. */
  lemma GroupUpToSpans(words: seq<Word>, used: set<nat>, rules: LineRules, h: nat)
    requires h <= |words|
    ensures SpansIn(words, GroupUpTo(words, used, rules, h).0)
    ensures forall k :: 0 <= k < |GroupUpTo(words, used, rules, h).0| ==>
      GroupUpTo(words, used, rules, h).0[k].hi <= GroupUpTo(words, used, rules, h).1
  {
    GroupUpToGrouping(words, used, rules, h);
    GroupStateSpans(words, used, rules, GroupUpTo(words, used, rules, h), h);
  }

  /**
   * The lines of `process`: every word not used by a heading lies in
   * exactly one line, the lines follow the transcript order, no line has
   * more than `max_words_per_line` words (or one), and a line ends exactly
   * when its next word is used by a heading, breaks it, or is missing.
   */
  lemma LinesGrouping(words: seq<Word>, used: set<nat>, rules: LineRules)
    ensures Grouping(words, used, rules, Lines(words, used, rules), |words|)
  {
    var (done, s) := GroupUpTo(words, used, rules, |words|);
    GroupUpToGrouping(words, used, rules, |words|);
    assert Lines(words, used, rules) == done + Open(s, |words|);
  }


  // ---------------------------------------------------------------------
  // Dialogue lines

  /**
   * A `Dialogue:` line before it is written out: its start and end (ms,
   * offset included), its style and its text. `Render` gives the string
   * `process` builds.
   */
  datatype DialogueLine = DialogueLine(startMs: int, endMs: int, style: string, text: string)

  /** The first field of every dialogue line. */
  const DialogueTag: string := "Dialogue: 0"

  lemma DialogueTagNoComma()
    ensures ',' !in DialogueTag
  {
    assert DialogueTag == "Dialogue" + ": 0";
  }

  /**
   * `f"Dialogue: 0,{start},{end},{style},,0,0,0,,{text}"` with both times
   * formatted: ten comma-separated fields, the text last.
   */
  function Render(d: DialogueLine): string {
    Join([DialogueTag, FormatAssTime(d.startMs), FormatAssTime(d.endMs), d.style, "", "0", "0", "0", "", d.text], ",")
  }

  /** Every line written out, in order. */
  function RenderAll(ds: seq<DialogueLine>): (r: seq<string>)
    ensures |r| == |ds|
  {
    if ds == [] then [] else RenderAll(ds[..|ds| - 1]) + [Render(ds[|ds| - 1])]
  }

  /** `text.replace('\n', '\\N')`: a line break becomes the two characters `\N`. */
  function EscapeNewlines(s: string): (r: string) {
    if s == [] then [] else (if s[0] == '\n' then "\\N" else [s[0]]) + EscapeNewlines(s[1..])
  }

  /** The escaped text holds no line break, and text without one is left as it is. */
  lemma {:induction false} EscapeNewlinesFacts(s: string)
    ensures '\n' !in EscapeNewlines(s)
    ensures '\n' !in s ==> EscapeNewlines(s) == s
  {
    if s != [] {
      EscapeNewlinesFacts(s[1..]);
      if '\n' !in s { assert '\n' !in s[1..]; }
    }
  }

  /** The `HeadingStyle` line of an aligned heading, shifted by the offset. */
  function HeadingEntry(m: HeadingMatch, offsetMs: int): DialogueLine {
    DialogueLine(m.start + offsetMs, m.end + offsetMs, "HeadingStyle", EscapeNewlines(m.text))
  }

  /** The `Default` line of a group of words: from the first word's start to the last word's end. */
  function LineEntry(line: seq<Word>, offsetMs: int): DialogueLine
    requires line != []
  {
    DialogueLine(line[0].start + offsetMs, line[|line| - 1].end + offsetMs, "Default", Join(Texts(line), " "))
  }

  /** One `HeadingStyle` line per heading, in order. */
  function HeadingEntries(hs: seq<HeadingMatch>, offsetMs: int): (r: seq<DialogueLine>)
    ensures |r| == |hs|
  {
    if hs == [] then [] else HeadingEntries(hs[..|hs| - 1], offsetMs) + [HeadingEntry(hs[|hs| - 1], offsetMs)]
  }

  /** Spans that lie inside the transcript and are not empty. */
  predicate SpansIn(words: seq<Word>, spans: seq<LineSpan>) {
    forall k :: 0 <= k < |spans| ==> spans[k].lo < spans[k].hi <= |words|
  }

  /** One `Default` line per span, in order. */
  function DefaultEntries(words: seq<Word>, spans: seq<LineSpan>, offsetMs: int): (r: seq<DialogueLine>)
    requires SpansIn(words, spans)
    ensures |r| == |spans|
  {
    if spans == [] then []
    else
      var last := spans[|spans| - 1];
      DefaultEntries(words, spans[..|spans| - 1], offsetMs) + [LineEntry(words[last.lo..last.hi], offsetMs)]
  }

  /** The text before the first comma (all of `s` when there is none). */
  function UpToComma(s: string): string {
    if s == [] || s[0] == ',' then [] else [s[0]] + UpToComma(s[1..])
  }

  /** The text after the first comma, if there is one. */
  function AfterComma(s: string): Option<string> {
    if s == [] then None else if s[0] == ',' then Some(s[1..]) else AfterComma(s[1..])
  }

  /**
   * `x.split(',')[1]`, the sort key: the second comma-separated field.
   * Every dialogue line has commas; for a string without one Python raises
   * and the model answers "".
   */
  function SortKey(s: string): string {
    match AfterComma(s)
    case None => ""
    case Some(rest) => UpToComma(rest)
  }

  /** `dialogue_entries.sort(key=lambda x: x.split(',')[1])` orders the written lines by this. */
  function EntryLe(x: DialogueLine, y: DialogueLine): bool {
    !LexLess(SortKey(Render(y)), SortKey(Render(x)))
  }

  lemma EntryLeTotalPreorder()
    ensures TotalPreorder(EntryLe)
  {
    forall x, y ensures EntryLe(x, y) || EntryLe(y, x) {
      LexLessAsymmetric(SortKey(Render(x)), SortKey(Render(y)));
    }
    forall x, y, z | EntryLe(x, y) && EntryLe(y, z) ensures EntryLe(x, z) {
      var a, b, c := SortKey(Render(x)), SortKey(Render(y)), SortKey(Render(z));
      if LexLess(c, a) {
        LexLessTotal(b, c);
        if LexLess(b, c) { LexLessTransitive(b, c, a); }
      }
    }
  }

  /** Text without a comma, a comma, and anything: the two halves come apart at that comma. */
  lemma {:induction false} CommaSplit(a: string, b: string)
    requires ',' !in a
    ensures UpToComma(a + "," + b) == a
    ensures AfterComma(a + "," + b) == Some(b)
  {
    if a != [] {
      assert (a + "," + b)[1..] == a[1..] + "," + b;
      assert ',' !in a[1..];
      CommaSplit(a[1..], b);
    } else {
      assert a + "," + b == [','] + b;
    }
  }

  lemma DigitsNoComma(s: string)
    requires Decimal.AllDigits(s)
    ensures ',' !in s
  {
  }

  lemma FormatNoComma(ms: int)
    ensures ',' !in FormatAssTime(ms)
  {
    var t := ClampMs(ms);
    DigitsNoComma(Decimal.NatToString(Hours(t)));
    DigitsNoComma(Decimal.ZeroPad(Minutes(t), 2));
    DigitsNoComma(Decimal.ZeroPad(Seconds(t), 2));
    DigitsNoComma(Decimal.ZeroPad(Centis(t), 2));
  }

  /** Of comma-joined fields, the first two without a comma, the sort key is the second. */
  lemma SortKeyOfFields(fields: seq<string>)
    requires |fields| >= 3 && ',' !in fields[0] && ',' !in fields[1]
    ensures SortKey(Join(fields, ",")) == fields[1]
  {
    assert fields[1..][1..] == fields[2..];
    CommaSplit(fields[0], Join(fields[1..], ","));
    CommaSplit(fields[1], Join(fields[2..], ","));
  }

  /** The sort key of a written dialogue line is its formatted start time. */
  lemma SortKeyOfDialogue(d: DialogueLine)
    ensures SortKey(Render(d)) == FormatAssTime(d.startMs)
  {
    FormatNoComma(d.startMs);
    DialogueTagNoComma();
    SortKeyOfFields([DialogueTag, FormatAssTime(d.startMs), FormatAssTime(d.endMs), d.style, "", "0", "0", "0", "", d.text]);
  }

  /**
   * Sorting by the start stamp text agrees with time order while the hour
   * numerals have the same number of digits (`HourWidthBreaksStringOrder`
   * shows that it does not across 9 h to 10 h).
   */
  lemma DialogueOrder(x: DialogueLine, y: DialogueLine)
    requires ClampMs(x.startMs) <= ClampMs(y.startMs)
    requires |Decimal.NatToString(Hours(ClampMs(x.startMs)))| == |Decimal.NatToString(Hours(ClampMs(y.startMs)))|
    ensures EntryLe(x, y)
  {
    SortKeyOfDialogue(x);
    SortKeyOfDialogue(y);
    FormatOrderedWithinHourWidth(ClampMs(x.startMs), ClampMs(y.startMs));
    assert FormatAssTime(ClampMs(x.startMs)) == FormatAssTime(x.startMs);
    assert FormatAssTime(ClampMs(y.startMs)) == FormatAssTime(y.startMs);
  }
  // ---------------------------------------------------------------------
  // The whole dialogue section

  /** The `Default` lines of the words not used by a heading, in the order they are emitted. */
  function DefaultLines(words: seq<Word>, used: set<nat>, rules: LineRules, offsetMs: int): seq<DialogueLine> {
    LinesGrouping(words, used, rules);
    DefaultEntries(words, Lines(words, used, rules), offsetMs)
  }

  /**
   * The dialogue lines in the order `process` appends them: one per aligned
   * heading, sorted by start, then one per line of the remaining words.
   */
  function Entries(words: seq<Word>, headings: seq<string>, matcher: (seq<string>, seq<string>) -> seq<Block>,
                   offsetMs: int, rules: LineRules): seq<DialogueLine>
    requires MatcherInBounds(matcher)
  {
    var (acc, used) := Aligned(headings, words, matcher);
    HeadingEntries(Sort(acc, StartLe), offsetMs) + DefaultLines(words, used, rules, offsetMs)
  }

  /** The first loop of `process`: one `HeadingStyle` line per aligned heading. */
  method HeadingLines(alignedHeadings: seq<HeadingMatch>, offsetMs: int) returns (entries: seq<DialogueLine>)
    ensures entries == HeadingEntries(alignedHeadings, offsetMs)
  {
    entries := [];
    for k := 0 to |alignedHeadings|
      invariant entries == HeadingEntries(alignedHeadings[..k], offsetMs)
    {
      entries := entries + [HeadingEntry(alignedHeadings[k], offsetMs)];
      assert alignedHeadings[..k + 1] == alignedHeadings[..k] + [alignedHeadings[k]];
    }
    assert alignedHeadings[..|alignedHeadings|] == alignedHeadings;
  }

  /** Emitting one more line adds its entry at the end. */
  lemma DefaultEntriesSnoc(words: seq<Word>, done: seq<LineSpan>, sp: LineSpan, offsetMs: int)
    requires SpansIn(words, done) && sp.lo < sp.hi <= |words|
    ensures SpansIn(words, done + [sp])
    ensures DefaultEntries(words, done + [sp], offsetMs)
         == DefaultEntries(words, done, offsetMs) + [LineEntry(words[sp.lo..sp.hi], offsetMs)]
  {
    assert (done + [sp])[..|done|] == done;
  }

  /**
   * What the grouping loop knows after the first `i` words: the finished
   * lines are those of `GroupUpTo`, their entries are written, and the words
   * of the open line are collected.
   */
  ghost predicate Progress(words: seq<Word>, used: set<nat>, rules: LineRules, offsetMs: int, i: nat,
                           entries: seq<DialogueLine>, current: seq<Word>, st: (seq<LineSpan>, nat))
  {
    i <= |words| && st == GroupUpTo(words, used, rules, i) && st.1 <= i && current == words[st.1..i]
    && SpansIn(words, st.0) && entries == DefaultEntries(words, st.0, offsetMs)
  }

  /** A word taken by a heading closes the open line, if any, and is skipped. */
  lemma UsedStep(words: seq<Word>, used: set<nat>, rules: LineRules, offsetMs: int, i: nat,
                 entries: seq<DialogueLine>, current: seq<Word>, st: (seq<LineSpan>, nat))
    requires i < |words| && i in used
    requires Progress(words, used, rules, offsetMs, i, entries, current, st)
    ensures Progress(words, used, rules, offsetMs, i + 1,
                     if current != [] then entries + [LineEntry(current, offsetMs)] else entries, [],
                     Next(words, used, rules, st, i))
  {
    GroupUpToSpans(words, used, rules, i + 1);
    assert GroupUpTo(words, used, rules, i + 1) == Next(words, used, rules, st, i);
    if current != [] {
      DefaultEntriesSnoc(words, st.0, LineSpan(st.1, i), offsetMs);
    }
  }

  /**
   * A free word starts a new line when there is none open or when the open
   * line is full, too long or separated from it by a pause; it then joins
   * the open line.
   */
  lemma FreeStep(words: seq<Word>, used: set<nat>, rules: LineRules, offsetMs: int, i: nat,
                 entries: seq<DialogueLine>, current: seq<Word>, st: (seq<LineSpan>, nat), startNewLine: bool)
    requires i < |words| && i !in used
    requires Progress(words, used, rules, offsetMs, i, entries, current, st)
    requires startNewLine == (current == [] || |current| >= rules.maxWords
                              || words[i].end - current[0].start > rules.maxDurationMs
                              || words[i].start - words[i - 1].end > rules.gapMs)
    ensures Progress(words, used, rules, offsetMs, i + 1,
                     if startNewLine && current != [] then entries + [LineEntry(current, offsetMs)] else entries,
                     (if startNewLine then [] else current) + [words[i]],
                     Next(words, used, rules, st, i))
  {
    assert words[i..i + 1] == [words[i]];
    assert words[st.1..i + 1] == current + [words[i]];
    GroupUpToSpans(words, used, rules, i + 1);
    var st' := Next(words, used, rules, st, i);
    assert GroupUpTo(words, used, rules, i + 1) == st';
    NextFree(words, used, rules, st, i);
    if startNewLine {
      if current != [] {
        assert Break(words, rules, st.1, i);
        DefaultEntriesSnoc(words, st.0, LineSpan(st.1, i), offsetMs);
        assert st' == (st.0 + [LineSpan(st.1, i)], i);
      } else {
        assert st' == st;
      }
    } else {
      assert !Break(words, rules, st.1, i);
      assert st' == st;
    }
  }

  /**
   * The second loop of `process` and the flush after it: the words not used
   * by a heading, grouped greedily into `Default` lines.
   */
  method GroupLines(words: seq<Word>, usedWordIndices: set<nat>, rules: LineRules, offsetMs: int)
    returns (entries: seq<DialogueLine>)
    ensures entries == DefaultLines(words, usedWordIndices, rules, offsetMs)
  {
    entries := [];
    var currentLineWords: seq<Word> := [];
    ghost var st: (seq<LineSpan>, nat) := ([], 0);
    for i := 0 to |words|
      invariant Progress(words, usedWordIndices, rules, offsetMs, i, entries, currentLineWords, st)
    {
      var word := words[i];
      if i in usedWordIndices {
        UsedStep(words, usedWordIndices, rules, offsetMs, i, entries, currentLineWords, st);
        if currentLineWords != [] {
          entries := entries + [LineEntry(currentLineWords, offsetMs)];
          currentLineWords := [];
        }
        st := Next(words, usedWordIndices, rules, st, i);
        continue;
      }
      var startNewLine := false;
      if currentLineWords == [] {
        startNewLine := true;
      } else {
        var gap := word.start - words[i - 1].end;
        var lineDur := word.end - currentLineWords[0].start;
        if |currentLineWords| >= rules.maxWords || lineDur > rules.maxDurationMs || gap > rules.gapMs {
          startNewLine := true;
        }
      }
      FreeStep(words, usedWordIndices, rules, offsetMs, i, entries, currentLineWords, st, startNewLine);
      ghost var entries' := if startNewLine && currentLineWords != [] then entries + [LineEntry(currentLineWords, offsetMs)] else entries;
      ghost var current' := (if startNewLine then [] else currentLineWords) + [word];
      if startNewLine {
        if currentLineWords != [] {
          entries := entries + [LineEntry(currentLineWords, offsetMs)];
        }
        currentLineWords := [];
      }
      currentLineWords := currentLineWords + [word];
      assert entries == entries' && currentLineWords == current';
      st := Next(words, usedWordIndices, rules, st, i);
    }
    if currentLineWords != [] {
      DefaultEntriesSnoc(words, st.0, LineSpan(st.1, |words|), offsetMs);
      entries := entries + [LineEntry(currentLineWords, offsetMs)];
    }
  }

  /**
   * The lines `process` writes are exactly its entries (as a multiset),
   * ordered by sort key, and entries with equal keys keep the order in
   * which they were appended (Python's sort is stable).
   */
  lemma WrittenOrder(entries: seq<DialogueLine>)
    ensures multiset(Sort(entries, EntryLe)) == multiset(entries)
    ensures Sorted(Sort(entries, EntryLe), EntryLe)
    ensures forall x :: SameKey(Sort(entries, EntryLe), x, EntryLe) == SameKey(entries, x, EntryLe)
  {
    EntryLeTotalPreorder();
    SortPermutes(entries, EntryLe);
    SortSorted(entries, EntryLe);
    forall x ensures SameKey(Sort(entries, EntryLe), x, EntryLe) == SameKey(entries, x, EntryLe) {
      SortStable(entries, x, EntryLe);
    }
  }

  /**
   * `SubtitleProcessor.process` on pre-computed word timestamps: the header,
   * then every dialogue line sorted by its start stamp, one per text line.
   * Without word timestamps `process` turns to a fresh audio analysis,
   * which is not modelled: the result is then `None`.
   */
  method Process(header: string, words: seq<Word>, headings: seq<string>,
                 matcher: (seq<string>, seq<string>) -> seq<Block>, offsetMs: int, rules: LineRules)
    returns (content: Option<string>)
    requires MatcherInBounds(matcher)
    ensures content.None? <==> words == []
    ensures words != [] ==>
      content == Some(header + Join(RenderAll(Sort(Entries(words, headings, matcher, offsetMs, rules), EntryLe)), "\n"))
  {
    if words == [] {
      return None;
    }
    var alignedHeadings, usedWordIndices := AlignHeadings(headings, words, matcher);
    var dialogueEntries := HeadingLines(alignedHeadings, offsetMs);
    var defaultEntries := GroupLines(words, usedWordIndices, rules, offsetMs);
    dialogueEntries := dialogueEntries + defaultEntries;
    dialogueEntries := Sort(dialogueEntries, EntryLe);
    content := Some(header + Join(RenderAll(dialogueEntries), "\n"));
  }
}
