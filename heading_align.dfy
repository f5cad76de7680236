/**
 * `SubtitleProcessor._align_headings` (subtitle_gen.py): finds, for each
 * heading of the script, the run of transcript words that matches it best,
 * without reusing a word another heading already took.
 *
 * `difflib.SequenceMatcher(...).get_matching_blocks()` is the parameter
 * `matcher`: given the heading's words and the normalised transcript words it
 * returns blocks `(a, b, size)`, each lying inside the transcript.
 */
module HeadingAlign {
  import opened Text
  import opened Wrappers
  import opened Normalize
  import opened StableSort
  import opened AudioAnalyzer

  /** Heading words `a..a+size-1` equal transcript words `b..b+size-1`. */
  datatype Block = Block(a: nat, b: nat, size: nat)

  /** `{'text', 'start_s', 'end_s', 'indices', 'ratio'}` */
  datatype HeadingMatch = HeadingMatch(text: string, start: int, end: int, indices: set<nat>, ratio: real)

  /** The initial `highest_ratio`: a block must do strictly better than this. */
  const Threshold: real := 0.7

  /** `match.size / len(heading_words)` */
  function Ratio(size: nat, n: nat): real
    requires n > 0
  {
    size as real / n as real
  }

  /** `set(range(lo, hi))` */
  function IndexRange(lo: nat, hi: nat): set<nat>
    decreases hi - lo
  {
    if hi <= lo then {} else IndexRange(lo, hi - 1) + {hi - 1}
  }

  lemma {:induction false} IndexRangeMembers(lo: nat, hi: nat)
    ensures forall x :: x in IndexRange(lo, hi) <==> lo <= x < hi
    decreases hi - lo
  {
    if hi > lo { IndexRangeMembers(lo, hi - 1); }
  }

  /** The transcript indices a block covers. */
  function Span(blk: Block): set<nat> {
    IndexRange(blk.b, blk.b + blk.size)
  }

  /** A block the inner loop considers: not empty, and no word of it already used. */
  predicate Eligible(blk: Block, used: set<nat>) {
    blk.size > 0 && Span(blk) !! used
  }

  /** What `matcher` promises: every block lies inside the transcript. */
  ghost predicate MatcherInBounds(matcher: (seq<string>, seq<string>) -> seq<Block>) {
    forall hw, sw, k :: 0 <= k < |matcher(hw, sw)| ==> matcher(hw, sw)[k].b + matcher(hw, sw)[k].size <= |sw|
  }

  /** `stt_normalized_words` */
  function SttWords(words: seq<Word>): (r: seq<string>)
    ensures |r| == |words|
  {
    seq(|words|, i requires 0 <= i < |words| => NormalizeText(words[i].text))
  }

  /** The `best_match` dictionary built from a block. */
  function MatchOf(text: string, words: seq<Word>, blk: Block, n: nat): HeadingMatch
    requires n > 0 && blk.size > 0 && blk.b + blk.size <= |words|
  {
    HeadingMatch(text, words[blk.b].start, words[blk.b + blk.size - 1].end, Span(blk), Ratio(blk.size, n))
  }

  // ---------------------------------------------------------------------
  // The inner loop: the best block of one heading

  /** The ratio a block has to beat once `best` is the current winner. */
  function Bar(blocks: seq<Block>, n: nat, best: Option<nat>): real
    requires n > 0
    requires best.Some? ==> best.value < |blocks|
  {
    if best.None? then Threshold else Ratio(blocks[best.value].size, n)
  }

  /** The winner among `blocks[..k]`: `None`, or the index of the block `best_match` holds. */
  function BestIn(blocks: seq<Block>, n: nat, used: set<nat>, k: nat): (r: Option<nat>)
    requires n > 0 && k <= |blocks|
    ensures r.Some? ==> r.value < k && Eligible(blocks[r.value], used)
  {
    if k == 0 then None
    else
      var prev := BestIn(blocks, n, used, k - 1);
      if Eligible(blocks[k - 1], used) && Ratio(blocks[k - 1].size, n) > Bar(blocks, n, prev)
      then Some(k - 1) else prev
  }

  /** No eligible block among the first `k` beats the threshold. */
  ghost predicate NoneAbove(blocks: seq<Block>, n: nat, used: set<nat>, k: nat)
    requires n > 0 && k <= |blocks|
  {
    forall j :: 0 <= j < k && Eligible(blocks[j], used) ==> Ratio(blocks[j].size, n) <= Threshold
  }

  /**
   * Block `w` wins among the first `k`: it is eligible and beats the
   * threshold, no eligible block has a higher ratio, and every eligible
   * block before it has a strictly lower one (ties go to the first).
   */
  ghost predicate Wins(blocks: seq<Block>, n: nat, used: set<nat>, k: nat, w: nat)
    requires n > 0 && k <= |blocks|
  {
    && w < k
    && Eligible(blocks[w], used) && Ratio(blocks[w].size, n) > Threshold
    && (forall j :: 0 <= j < k && Eligible(blocks[j], used) ==> Ratio(blocks[j].size, n) <= Ratio(blocks[w].size, n))
    && (forall j :: 0 <= j < w && Eligible(blocks[j], used) ==> Ratio(blocks[j].size, n) < Ratio(blocks[w].size, n))
  }

  /** `BestIn` finds nothing exactly when nothing clears the threshold, and otherwise finds the winner. */
  lemma {:induction false} BestInWins(blocks: seq<Block>, n: nat, used: set<nat>, k: nat)
    requires n > 0 && k <= |blocks|
    ensures BestIn(blocks, n, used, k).None? <==> NoneAbove(blocks, n, used, k)
    ensures BestIn(blocks, n, used, k).Some? ==> Wins(blocks, n, used, k, BestIn(blocks, n, used, k).value)
  {
    if k > 0 {
      BestInWins(blocks, n, used, k - 1);
    }
  }

  /**
   * The loop over `matcher.get_matching_blocks()`: skips empty blocks and
   * blocks touching a used word, and keeps the first block with the
   * strictly highest ratio above 0.7.
   */
  method BestMatch(text: string, words: seq<Word>, blocks: seq<Block>, n: nat, used: set<nat>)
    returns (best: Option<HeadingMatch>)
    requires n > 0
    requires forall k :: 0 <= k < |blocks| ==> blocks[k].b + blocks[k].size <= |words|
    ensures BestIn(blocks, n, used, |blocks|).None? ==> best.None?
    ensures BestIn(blocks, n, used, |blocks|).Some? ==>
      best == Some(MatchOf(text, words, blocks[BestIn(blocks, n, used, |blocks|).value], n))
  {
    best := None;
    var highestRatio := Threshold;
    ghost var winner: Option<nat> := None;
    for k := 0 to |blocks|
      invariant winner == BestIn(blocks, n, used, k)
      invariant highestRatio == Bar(blocks, n, winner)
      invariant winner.None? ==> best.None?
      invariant winner.Some? ==> best == Some(MatchOf(text, words, blocks[winner.value], n))
    {
      var blk := blocks[k];
      if blk.size == 0 {
        continue;
      }
      var startIdx, endIdx := blk.b, blk.b + blk.size - 1;
      var currentIndices := IndexRange(startIdx, endIdx + 1);
      assert currentIndices == Span(blk);
      if currentIndices * used != {} {
        continue;
      }
      assert Eligible(blk, used) by {
        forall x | x in currentIndices ensures x !in used {
          assert x in currentIndices * used ==> false;
        }
      }
      var ratio := blk.size as real / n as real;
      if ratio > highestRatio {
        highestRatio := ratio;
        best := Some(HeadingMatch(text, words[startIdx].start, words[endIdx].end, currentIndices, ratio));
        winner := Some(k);
      }
    }
  }

  // ---------------------------------------------------------------------
  // The outer loop over the headings

  /** The heading's words as the matcher sees them; empty exactly when the heading normalises to "". */
  function HeadingWords(heading: string): (hw: seq<string>)
    ensures hw == [] <==> NormalizeText(heading) == ""
  {
    NormalizedWordsEmpty(heading);
    Words(NormalizeText(heading))
  }

  /** `HeadingWords` of every heading, in order. */
  function HeadingWordLists(headings: seq<string>): (hws: seq<seq<string>>)
    ensures |hws| == |headings|
  {
    seq(|headings|, i requires 0 <= i < |headings| => HeadingWords(headings[i]))
  }

  /**
   * What one heading adds given the words already used. `hw` is its
   * `HeadingWords` and `stt` the normalised transcript: nothing when `hw`
   * is empty (the heading normalises to "") or no block wins, otherwise the
   * match of the winning block.
   */
  function Admit(heading: string, hw: seq<string>, stt: seq<string>, words: seq<Word>,
                 matcher: (seq<string>, seq<string>) -> seq<Block>, used: set<nat>)
    : Option<HeadingMatch>
    requires MatcherInBounds(matcher) && |stt| == |words|
  {
    if hw == [] then None
    else
      var blocks := matcher(hw, stt);
      var best := BestIn(blocks, |hw|, used, |blocks|);
      if best.None? then None
      else Some(MatchOf(heading, words, blocks[best.value], |hw|))
  }

  /**
   * `(aligned_headings, used_word_indices)` after the loop has seen
   * `headings[..h]`, before the final sort; `hws[i]` is the word list of
   * `headings[i]` and `stt` the normalised transcript.
   */
  function AlignUpTo(headings: seq<string>, hws: seq<seq<string>>, stt: seq<string>, words: seq<Word>,
                     matcher: (seq<string>, seq<string>) -> seq<Block>, h: nat)
    : (seq<HeadingMatch>, set<nat>)
    requires MatcherInBounds(matcher) && |hws| == |headings| && |stt| == |words| && h <= |headings|
  {
    if h == 0 then ([], {})
    else
      var prev := AlignUpTo(headings, hws, stt, words, matcher, h - 1);
      var m := Admit(headings[h - 1], hws[h - 1], stt, words, matcher, prev.1);
      if m.None? then prev else (prev.0 + [m.value], prev.1 + m.value.indices)
  }

  /** `AlignUpTo` over the whole script, with the word lists `_align_headings` computes. */
  function Aligned(headings: seq<string>, words: seq<Word>, matcher: (seq<string>, seq<string>) -> seq<Block>)
    : (seq<HeadingMatch>, set<nat>)
    requires MatcherInBounds(matcher)
  {
    AlignUpTo(headings, HeadingWordLists(headings), SttWords(words), words, matcher, |headings|)
  }

  /**
   * A match of a heading with word list `hw`: `hw` is not empty, and the
   * match is that of a non-empty block the matcher returned for it, with a
   * ratio above 0.7, starting at the block's first word and ending at its
   * last.
   */
  ghost predicate Matched(hw: seq<string>, stt: seq<string>, words: seq<Word>,
                          matcher: (seq<string>, seq<string>) -> seq<Block>, m: HeadingMatch)
    requires MatcherInBounds(matcher) && |stt| == |words|
  {
    && hw != []
    && m.ratio > Threshold
    && exists k :: 0 <= k < |matcher(hw, stt)|
         && matcher(hw, stt)[k].size > 0
         && m == MatchOf(m.text, words, matcher(hw, stt)[k], |hw|)
  }

  /**
   * A heading is passed over exactly when its word list is empty or none of
   * its eligible blocks beats 0.7; what it adds is a match of its own text
   * that avoids every used word.
   */
  lemma AdmitFacts(heading: string, hw: seq<string>, stt: seq<string>, words: seq<Word>,
                   matcher: (seq<string>, seq<string>) -> seq<Block>, used: set<nat>)
    requires MatcherInBounds(matcher) && |stt| == |words|
    ensures Admit(heading, hw, stt, words, matcher, used).None? <==>
      hw == [] || NoneAbove(matcher(hw, stt), |hw|, used, |matcher(hw, stt)|)
    ensures Admit(heading, hw, stt, words, matcher, used).Some? ==>
      var m := Admit(heading, hw, stt, words, matcher, used).value;
      m.text == heading && m.indices !! used && Matched(hw, stt, words, matcher, m)
  {
    if hw != [] {
      var blocks := matcher(hw, stt);
      BestInWins(blocks, |hw|, used, |blocks|);
    }
  }

  /** Once its turn comes, a heading's best block, if any, is the match it adds. */
  lemma AdmitWins(heading: string, hw: seq<string>, stt: seq<string>, words: seq<Word>,
                  matcher: (seq<string>, seq<string>) -> seq<Block>, used: set<nat>)
    requires MatcherInBounds(matcher) && |stt| == |words| && hw != []
    ensures var blocks := matcher(hw, stt);
      Admit(heading, hw, stt, words, matcher, used).Some? ==>
        exists w: nat :: Wins(blocks, |hw|, used, |blocks|, w)
          && Admit(heading, hw, stt, words, matcher, used).value == MatchOf(heading, words, blocks[w], |hw|)
  {
    var blocks := matcher(hw, stt);
    BestInWins(blocks, |hw|, used, |blocks|);
  }

  /** `aligned_headings.sort(key=lambda x: x['start_s'])` orders by this. */
  function StartLe(x: HeadingMatch, y: HeadingMatch): bool {
    x.start <= y.start
  }

  lemma StartLeTotalPreorder()
    ensures TotalPreorder(StartLe)
  {
  }

  /**
   * `_align_headings`: nothing to align without headings or words;
   * otherwise the matches `Aligned` collects, sorted stably by start.
   */
  method AlignHeadings(headings: seq<string>, words: seq<Word>, matcher: (seq<string>, seq<string>) -> seq<Block>)
    returns (aligned: seq<HeadingMatch>, used: set<nat>)
    requires MatcherInBounds(matcher)
    ensures headings == [] || words == [] ==> aligned == [] && used == {}
    ensures headings != [] && words != [] ==>
      aligned == Sort(Aligned(headings, words, matcher).0, StartLe)
      && used == Aligned(headings, words, matcher).1
  {
    if headings == [] || words == [] {
      return [], {};
    }
    var sttNormalizedWords := SttWords(words);
    ghost var hws := HeadingWordLists(headings);
    var alignedHeadings: seq<HeadingMatch> := [];
    used := {};
    for h := 0 to |headings|
      invariant (alignedHeadings, used) == AlignUpTo(headings, hws, sttNormalizedWords, words, matcher, h)
    {
      var headingText := headings[h];
      var normalizedHeading := NormalizeText(headingText);
      if normalizedHeading == "" {
        assert hws[h] == [];
        continue;
      }
      var headingWords := HeadingWords(headingText);
      assert hws[h] == headingWords;
      var blocks := matcher(headingWords, sttNormalizedWords);
      var bestMatch := BestMatch(headingText, words, blocks, |headingWords|, used);
      if bestMatch.Some? {
        AdmitFacts(headingText, headingWords, sttNormalizedWords, words, matcher, used);
        if bestMatch.value.indices * used == {} {
          alignedHeadings := alignedHeadings + [bestMatch.value];
          used := used + bestMatch.value.indices;
        }
      }
    }
    aligned := Sort(alignedHeadings, StartLe);
  }

  // ---------------------------------------------------------------------
  // What the aligned headings satisfy

  /** The union of the matches' index sets. */
  function UnionOf(ms: seq<HeadingMatch>): set<nat> {
    if ms == [] then {} else UnionOf(ms[..|ms| - 1]) + ms[|ms| - 1].indices
  }

  lemma {:induction false} UnionMembers(ms: seq<HeadingMatch>, x: nat)
    ensures x in UnionOf(ms) <==> exists i :: 0 <= i < |ms| && x in ms[i].indices
  {
    if ms != [] {
      var init := ms[..|ms| - 1];
      UnionMembers(init, x);
      if x in UnionOf(init) {
        var i :| 0 <= i < |init| && x in init[i].indices;
        assert ms[i] == init[i];
      }
      forall i | 0 <= i < |init| && x in ms[i].indices ensures x in UnionOf(init) {
        assert init[i] == ms[i];
      }
    }
  }

  function Disjoint(x: HeadingMatch, y: HeadingMatch): bool {
    x.indices !! y.indices
  }

  /** Appending a match that avoids every used word keeps the matches pairwise disjoint. */
  lemma AppendDisjoint(acc: seq<HeadingMatch>, m: HeadingMatch)
    requires AllPairs(acc, Disjoint) && m.indices !! UnionOf(acc)
    ensures AllPairs(acc + [m], Disjoint)
    ensures UnionOf(acc + [m]) == UnionOf(acc) + m.indices
  {
    var r := acc + [m];
    assert r[..|r| - 1] == acc;
    forall i | 0 <= i < |acc| ensures m.indices !! acc[i].indices {
      forall x | x in acc[i].indices ensures x in UnionOf(acc) {
        UnionMembers(acc, x);
      }
    }
    forall i, j | 0 <= i < |r| && 0 <= j < |r| && i != j ensures Disjoint(r[i], r[j]) {
      if i < |acc| && j < |acc| {
        assert r[i] == acc[i] && r[j] == acc[j];
      }
    }
  }

  /**
   * No two accepted headings share a word, and `used_word_indices` is
   * exactly the words they took.
   */
  lemma {:induction false} AlignUpToDisjoint(headings: seq<string>, hws: seq<seq<string>>, stt: seq<string>,
                                             words: seq<Word>, matcher: (seq<string>, seq<string>) -> seq<Block>, h: nat)
    requires MatcherInBounds(matcher) && |hws| == |headings| && |stt| == |words| && h <= |headings|
    ensures AlignUpTo(headings, hws, stt, words, matcher, h).1 == UnionOf(AlignUpTo(headings, hws, stt, words, matcher, h).0)
    ensures AllPairs(AlignUpTo(headings, hws, stt, words, matcher, h).0, Disjoint)
    ensures |AlignUpTo(headings, hws, stt, words, matcher, h).0| <= h
  {
    if h > 0 {
      AlignUpToDisjoint(headings, hws, stt, words, matcher, h - 1);
      var prev := AlignUpTo(headings, hws, stt, words, matcher, h - 1);
      var m := Admit(headings[h - 1], hws[h - 1], stt, words, matcher, prev.1);
      AdmitFacts(headings[h - 1], hws[h - 1], stt, words, matcher, prev.1);
      if m.Some? {
        AppendDisjoint(prev.0, m.value);
      }
    }
  }

  /** A match of heading `i` of the script. */
  ghost predicate MatchesHeading(headings: seq<string>, hws: seq<seq<string>>, stt: seq<string>, words: seq<Word>,
                                 matcher: (seq<string>, seq<string>) -> seq<Block>, m: HeadingMatch, i: int)
    requires MatcherInBounds(matcher) && |hws| == |headings| && |stt| == |words|
  {
    0 <= i < |headings| && m.text == headings[i] && Matched(hws[i], stt, words, matcher, m)
  }

  /** `m` is a match of one of the headings. */
  ghost predicate OfSomeHeading(headings: seq<string>, hws: seq<seq<string>>, stt: seq<string>, words: seq<Word>,
                                matcher: (seq<string>, seq<string>) -> seq<Block>, m: HeadingMatch)
    requires MatcherInBounds(matcher) && |hws| == |headings| && |stt| == |words|
  {
    exists i :: MatchesHeading(headings, hws, stt, words, matcher, m, i)
  }

  /** Every match in `ms` is a match of one of the headings. */
  ghost predicate FromHeadings(headings: seq<string>, hws: seq<seq<string>>, stt: seq<string>, words: seq<Word>,
                               matcher: (seq<string>, seq<string>) -> seq<Block>, ms: seq<HeadingMatch>)
    requires MatcherInBounds(matcher) && |hws| == |headings| && |stt| == |words|
  {
    forall j :: 0 <= j < |ms| ==> OfSomeHeading(headings, hws, stt, words, matcher, ms[j])
  }

  lemma FromHeadingsSnoc(headings: seq<string>, hws: seq<seq<string>>, stt: seq<string>, words: seq<Word>,
                         matcher: (seq<string>, seq<string>) -> seq<Block>, ms: seq<HeadingMatch>, m: HeadingMatch, i: int)
    requires MatcherInBounds(matcher) && |hws| == |headings| && |stt| == |words|
    requires FromHeadings(headings, hws, stt, words, matcher, ms)
    requires MatchesHeading(headings, hws, stt, words, matcher, m, i)
    ensures FromHeadings(headings, hws, stt, words, matcher, ms + [m])
  {
    var r := ms + [m];
    forall j | 0 <= j < |r| ensures OfSomeHeading(headings, hws, stt, words, matcher, r[j]) {
      if j < |ms| {
        assert r[j] == ms[j];
      } else {
        assert MatchesHeading(headings, hws, stt, words, matcher, r[j], i);
      }
    }
  }

  lemma {:induction false} AlignUpToAccepted(headings: seq<string>, hws: seq<seq<string>>, stt: seq<string>,
                                             words: seq<Word>, matcher: (seq<string>, seq<string>) -> seq<Block>, h: nat)
    requires MatcherInBounds(matcher) && |hws| == |headings| && |stt| == |words| && h <= |headings|
    ensures FromHeadings(headings, hws, stt, words, matcher, AlignUpTo(headings, hws, stt, words, matcher, h).0)
  {
    if h > 0 {
      AlignUpToAccepted(headings, hws, stt, words, matcher, h - 1);
      var prev := AlignUpTo(headings, hws, stt, words, matcher, h - 1);
      var m := Admit(headings[h - 1], hws[h - 1], stt, words, matcher, prev.1);
      AdmitFacts(headings[h - 1], hws[h - 1], stt, words, matcher, prev.1);
      if m.Some? {
        FromHeadingsSnoc(headings, hws, stt, words, matcher, prev.0, m.value, h - 1);
      }
    }
  }

  /**
   * An accepted heading: the text of one of `headings`, which does not
   * normalise to "", matched to one of the blocks the matcher returned for it.
   */
  ghost predicate Accepted(headings: seq<string>, words: seq<Word>,
                           matcher: (seq<string>, seq<string>) -> seq<Block>, m: HeadingMatch)
    requires MatcherInBounds(matcher)
  {
    && m.text in headings
    && NormalizeText(m.text) != ""
    && Matched(HeadingWords(m.text), SttWords(words), words, matcher, m)
  }

  /**
   * Sorting by start keeps a pairwise disjoint list disjoint, keeps its
   * length and members, and keeps its union.
   */
  lemma SortMatches(acc: seq<HeadingMatch>)
    requires AllPairs(acc, Disjoint)
    ensures var aligned := Sort(acc, StartLe);
      && Sorted(aligned, StartLe)
      && AllPairs(aligned, Disjoint)
      && |aligned| == |acc|
      && (forall m :: m in aligned <==> m in acc)
      && (forall x :: x in UnionOf(acc) <==> exists i :: 0 <= i < |aligned| && x in aligned[i].indices)
  {
    var aligned := Sort(acc, StartLe);
    StartLeTotalPreorder();
    SortSorted(acc, StartLe);
    SortAllPairs(acc, StartLe, Disjoint);
    SortPermutes(acc, StartLe);
    SortMembers(acc, StartLe);
    assert |aligned| == |acc| by { assert |multiset(aligned)| == |multiset(acc)|; }
    forall x ensures x in UnionOf(acc) <==> exists i :: 0 <= i < |aligned| && x in aligned[i].indices {
      UnionMembers(acc, x);
      if x in UnionOf(acc) {
        var j :| 0 <= j < |acc| && x in acc[j].indices;
        assert acc[j] in aligned;
        var i :| 0 <= i < |aligned| && aligned[i] == acc[j];
      }
      if exists i :: 0 <= i < |aligned| && x in aligned[i].indices {
        var i :| 0 <= i < |aligned| && x in aligned[i].indices;
        assert aligned[i] in aligned;
        var j :| 0 <= j < |acc| && acc[j] == aligned[i];
      }
    }
  }

  /** Matches drawn from a list of heading matches are accepted. */
  lemma AcceptedAll(headings: seq<string>, words: seq<Word>, matcher: (seq<string>, seq<string>) -> seq<Block>,
                    acc: seq<HeadingMatch>, aligned: seq<HeadingMatch>)
    requires MatcherInBounds(matcher)
    requires FromHeadings(headings, HeadingWordLists(headings), SttWords(words), words, matcher, acc)
    requires forall m :: m in aligned ==> m in acc
    ensures forall i :: 0 <= i < |aligned| ==> Accepted(headings, words, matcher, aligned[i])
  {
    var hws, stt := HeadingWordLists(headings), SttWords(words);
    forall i | 0 <= i < |aligned| ensures Accepted(headings, words, matcher, aligned[i]) {
      assert aligned[i] in aligned;
      var j :| 0 <= j < |acc| && acc[j] == aligned[i];
      var k :| MatchesHeading(headings, hws, stt, words, matcher, acc[j], k);
      assert hws[k] == HeadingWords(headings[k]);
    }
  }

  /**
   * Every heading `_align_headings` returns is accepted; the list is ordered
   * by start; no two share a word; and the used indices are exactly the
   * words the returned headings took.
   */
  lemma AlignedHeadingsFacts(headings: seq<string>, words: seq<Word>,
                             matcher: (seq<string>, seq<string>) -> seq<Block>)
    requires MatcherInBounds(matcher)
    ensures var aligned := Sort(Aligned(headings, words, matcher).0, StartLe);
      && Sorted(aligned, StartLe)
      && AllPairs(aligned, Disjoint)
      && |aligned| <= |headings|
      && (forall i :: 0 <= i < |aligned| ==> Accepted(headings, words, matcher, aligned[i]))
      && (forall x :: x in Aligned(headings, words, matcher).1 <==>
            exists i :: 0 <= i < |aligned| && x in aligned[i].indices)
  {
    var hws, stt := HeadingWordLists(headings), SttWords(words);
    var acc := Aligned(headings, words, matcher).0;
    AlignUpToDisjoint(headings, hws, stt, words, matcher, |headings|);
    AlignUpToAccepted(headings, hws, stt, words, matcher, |headings|);
    SortMatches(acc);
    AcceptedAll(headings, words, matcher, acc, Sort(acc, StartLe));
  }

  /**
   * Heading `h` adds nothing exactly when its word list is empty (it
   * normalises to "") or, at its turn, none of its eligible blocks beats 0.7.
   */
  lemma SkippedHeading(headings: seq<string>, hws: seq<seq<string>>, stt: seq<string>,
                       words: seq<Word>, matcher: (seq<string>, seq<string>) -> seq<Block>, h: nat)
    requires MatcherInBounds(matcher) && |hws| == |headings| && |stt| == |words| && h < |headings|
    ensures AlignUpTo(headings, hws, stt, words, matcher, h + 1) == AlignUpTo(headings, hws, stt, words, matcher, h) <==>
      hws[h] == [] || NoneAbove(matcher(hws[h], stt), |hws[h]|,
                                AlignUpTo(headings, hws, stt, words, matcher, h).1, |matcher(hws[h], stt)|)
  {
    var prev := AlignUpTo(headings, hws, stt, words, matcher, h);
    AdmitFacts(headings[h], hws[h], stt, words, matcher, prev.1);
    var m := Admit(headings[h], hws[h], stt, words, matcher, prev.1);
    if m.Some? {
      assert |AlignUpTo(headings, hws, stt, words, matcher, h + 1).0| == |prev.0| + 1;
    }
  }
}
