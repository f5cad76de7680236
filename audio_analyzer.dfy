/**
 * `AudioAnalyzer` (src/processors/audio_analyzer.py): turns a transcription
 * into a flat list of timed words, and assigns those words to the audio
 * chunks that silence splitting produced, giving the pacing chunks that
 * later drive one image each.
 *
 * Times are whole milliseconds. Whisper, pydub decoding and silence
 * splitting are not modelled: their results are parameters.
 */
module AudioAnalyzer {
  import opened Text
  import opened Wrappers

  /** One transcribed word: `{'text', 'start', 'end'}`, times in ms. */
  datatype Word = Word(text: string, start: int, end: int)

  /** A word as Whisper reports it, with a field the extraction drops. */
  datatype RawWord = RawWord(text: string, start: int, end: int, confidence: real)

  /** A segment whose `words` key may be missing. */
  datatype Segment = Segment(words: Option<seq<RawWord>>)

  /** A transcription whose `segments` key may be missing. */
  datatype Transcription = Transcription(segments: Option<seq<Segment>>)

  /** `{'raw_text', 'duration_ms'}` */
  datatype PacingChunk = PacingChunk(rawText: string, durationMs: nat)

  datatype Analysis = Analysis(pacingChunks: seq<PacingChunk>, wordTimestamps: seq<Word>)

  /** `dict.get(key, [])` */
  function WordsOf(seg: Segment): seq<RawWord> {
    if seg.words.Some? then seg.words.value else []
  }

  function Keep(w: RawWord): Word {
    Word(w.text, w.start, w.end)
  }

  /** The comprehension of `_extract_word_timestamps` over a list of segments. */
  function ExtractFrom(segs: seq<Segment>): seq<Word>
  {
    if segs == [] then []
    else ExtractFrom(segs[..|segs| - 1]) + KeptWords(segs[|segs| - 1])
  }

  /** The inner comprehension: one segment's words, stripped. */
  function KeptWords(seg: Segment): seq<Word> {
    seq(|WordsOf(seg)|, i requires 0 <= i < |WordsOf(seg)| => Keep(WordsOf(seg)[i]))
  }

  function ExtractWordTimestamps(t: Transcription): seq<Word> {
    ExtractFrom(if t.segments.Some? then t.segments.value else [])
  }

  /** How many words the segments before `s` hold. */
  function WordsBefore(segs: seq<Segment>, s: nat): nat
    requires s <= |segs|
  {
    if s == 0 then 0 else WordsBefore(segs, s - 1) + |WordsOf(segs[s - 1])|
  }

  /**
   * Word `w` of segment `s` is the output word at position
   * `WordsBefore(segs, s) + w`, stripped to text, start and end: segment
   * order first, then word order, nothing else in between.
   */
  lemma {:induction false} ExtractPosition(segs: seq<Segment>, s: nat, w: nat)
    requires s < |segs| && w < |WordsOf(segs[s])|
    ensures |ExtractFrom(segs)| == WordsBefore(segs, |segs|)
    ensures WordsBefore(segs, s) + w < |ExtractFrom(segs)|
    ensures ExtractFrom(segs)[WordsBefore(segs, s) + w] == Keep(WordsOf(segs[s])[w])
  {
    ExtractLength(segs);
    if s < |segs| - 1 {
      ExtractPosition(segs[..|segs| - 1], s, w);
      ExtractEarlier(segs, s, w);
    } else {
      ExtractLast(segs, w);
    }
  }

  /** Positions inside the words of all but the last segment are unaffected by it. */
  lemma ExtractEarlier(segs: seq<Segment>, s: nat, w: nat)
    requires s < |segs| - 1 && w < |WordsOf(segs[s])|
    requires WordsBefore(segs[..|segs| - 1], s) + w < |ExtractFrom(segs[..|segs| - 1])|
    ensures WordsBefore(segs, s) + w < |ExtractFrom(segs)|
    ensures ExtractFrom(segs)[WordsBefore(segs, s) + w]
         == ExtractFrom(segs[..|segs| - 1])[WordsBefore(segs[..|segs| - 1], s) + w]
  {
    BeforePrefix(segs, segs[..|segs| - 1], s);
  }

  /** The last segment's words come at the end, in order. */
  lemma ExtractLast(segs: seq<Segment>, w: nat)
    requires segs != [] && w < |WordsOf(segs[|segs| - 1])|
    ensures WordsBefore(segs, |segs| - 1) + w < |ExtractFrom(segs)|
    ensures ExtractFrom(segs)[WordsBefore(segs, |segs| - 1) + w] == Keep(WordsOf(segs[|segs| - 1])[w])
  {
    var init := segs[..|segs| - 1];
    ExtractLength(init);
    BeforePrefix(segs, init, |init|);
  }

  lemma {:induction false} ExtractLength(segs: seq<Segment>)
    ensures |ExtractFrom(segs)| == WordsBefore(segs, |segs|)
  {
    if segs != [] {
      var init := segs[..|segs| - 1];
      ExtractLength(init);
      BeforePrefix(segs, init, |init|);
    }
  }

  lemma {:induction false} BeforePrefix(segs: seq<Segment>, init: seq<Segment>, k: nat)
    requires init <= segs && k <= |init|
    ensures WordsBefore(init, k) == WordsBefore(segs, k)
  {
    if k > 0 { BeforePrefix(segs, init, k - 1); }
  }

  lemma {:induction false} BeforeMonotone(segs: seq<Segment>, i: nat, j: nat)
    requires i <= j <= |segs|
    ensures WordsBefore(segs, i) <= WordsBefore(segs, j)
    decreases j - i
  {
    if i < j { BeforeMonotone(segs, i, j - 1); }
  }

  /** A missing `segments` key gives no words. */
  lemma NoSegmentsNoWords(t: Transcription)
    requires t.segments.None?
    ensures ExtractWordTimestamps(t) == []
  {
  }

  // ---------------------------------------------------------------------
  // `_align_text_to_chunks`

  /** Where chunk `k` begins: the lengths of chunks `0..k-1` added up. */
  function Cum(lens: seq<nat>, k: nat): nat
    requires k <= |lens|
  {
    if k == 0 then 0 else Cum(lens, k - 1) + lens[k - 1]
  }

  /** The index the inner `while` stops at: past every word starting before `bound`. */
  function Taken(words: seq<Word>, idx: nat, bound: int): (r: nat)
    requires idx <= |words|
    ensures idx <= r <= |words|
    ensures r < |words| ==> words[r].start >= bound
    decreases |words| - idx
  {
    if idx < |words| && words[idx].start < bound then Taken(words, idx + 1, bound) else idx
  }

  /** Every word the inner loop takes starts before the bound. */
  lemma {:induction false} TakenBelow(words: seq<Word>, idx: nat, bound: int, i: nat)
    requires idx <= |words| && idx <= i < Taken(words, idx, bound)
    ensures words[i].start < bound
    decreases |words| - idx
  {
    if i > idx { TakenBelow(words, idx + 1, bound, i); }
  }

  /** Audio chunk `chunk` received the words `lo..hi-1`. */
  datatype Range = Range(chunk: nat, lo: nat, hi: nat)

  /**
   * The ranges chunks `k..` receive when the word index stands at `idx`:
   * chunk `k` takes every word from `idx` on that starts before its end,
   * and gets a range only if that is at least one word.
   */
  function RangesFrom(lens: seq<nat>, words: seq<Word>, k: nat, idx: nat): seq<Range>
    requires k <= |lens| && idx <= |words|
    decreases |lens| - k
  {
    if k == |lens| then []
    else
      var next := Taken(words, idx, Cum(lens, k + 1));
      (if next > idx then [Range(k, idx, next)] else []) + RangesFrom(lens, words, k + 1, next)
  }

  /** The range names an audio chunk and lies inside the word list. */
  predicate Fits(lens: seq<nat>, words: seq<Word>, r: Range) {
    r.chunk < |lens| && r.lo <= r.hi <= |words|
  }

  function Texts(ws: seq<Word>): seq<string> {
    seq(|ws|, i requires 0 <= i < |ws| => ws[i].text)
  }

  lemma TextsSnoc(words: seq<Word>, from: nat, to: nat)
    requires from <= to < |words|
    ensures Texts(words[from..to + 1]) == Texts(words[from..to]) + [words[to].text]
  {
  }

  /** The pacing chunk of a range: its words joined by single spaces, its audio chunk's length. */
  function PacingOf(lens: seq<nat>, words: seq<Word>, r: Range): PacingChunk
    requires Fits(lens, words, r)
  {
    PacingChunk(Join(Texts(words[r.lo..r.hi]), " "), lens[r.chunk])
  }

  function Pacing(lens: seq<nat>, words: seq<Word>, rs: seq<Range>): seq<PacingChunk>
    requires forall m :: 0 <= m < |rs| ==> Fits(lens, words, rs[m])
  {
    seq(|rs|, m requires 0 <= m < |rs| => PacingOf(lens, words, rs[m]))
  }

  /** What `_align_text_to_chunks` returns from chunk `k` and word `idx` on. */
  function PacingFrom(lens: seq<nat>, words: seq<Word>, k: nat, idx: nat): seq<PacingChunk>
    requires k <= |lens| && idx <= |words|
  {
    RangesFit(lens, words, k, idx);
    Pacing(lens, words, RangesFrom(lens, words, k, idx))
  }

  lemma AppendAssoc<T>(a: seq<T>, b: seq<T>, c: seq<T>)
    ensures a + (b + c) == (a + b) + c
  {
  }

  /** `RangesFrom` by position: the first range, if any, then the rest shifted past it. */
  lemma RangesIndex(lens: seq<nat>, words: seq<Word>, k: nat, idx: nat, j: nat)
    requires k < |lens| && idx <= |words|
    ensures var next := Taken(words, idx, Cum(lens, k + 1));
      var rs := RangesFrom(lens, words, k, idx);
      var rest := RangesFrom(lens, words, k + 1, next);
      var d := if next > idx then 1 else 0;
      && |rs| == d + |rest|
      && (next > idx ==> rs[0] == Range(k, idx, next))
      && (j < |rest| ==> rs[j + d] == rest[j])
  {
    RangesStep(lens, words, k, idx);
  }

  /** One step of `RangesFrom`: the range chunk `k` receives, if any, then the rest. */
  lemma RangesStep(lens: seq<nat>, words: seq<Word>, k: nat, idx: nat)
    requires k < |lens| && idx <= |words|
    ensures var next := Taken(words, idx, Cum(lens, k + 1));
      RangesFrom(lens, words, k, idx)
        == (if next > idx then [Range(k, idx, next)] else []) + RangesFrom(lens, words, k + 1, next)
  {
  }

  /** Every range belongs to one of the audio chunks from `k` on and fits. */
  lemma {:induction false} RangesFit(lens: seq<nat>, words: seq<Word>, k: nat, idx: nat)
    requires k <= |lens| && idx <= |words|
    ensures forall m :: 0 <= m < |RangesFrom(lens, words, k, idx)| ==>
      Fits(lens, words, RangesFrom(lens, words, k, idx)[m]) && k <= RangesFrom(lens, words, k, idx)[m].chunk
    decreases |lens| - k
  {
    if k < |lens| {
      var next := Taken(words, idx, Cum(lens, k + 1));
      RangesStep(lens, words, k, idx);
      RangesFit(lens, words, k + 1, next);
    }
  }

  /** At most one range, hence one pacing chunk, per audio chunk. */
  lemma {:induction false} RangesCount(lens: seq<nat>, words: seq<Word>, k: nat, idx: nat)
    requires k <= |lens| && idx <= |words|
    ensures |RangesFrom(lens, words, k, idx)| <= |lens| - k
    ensures |PacingFrom(lens, words, k, idx)| <= |lens| - k
    decreases |lens| - k
  {
    if k < |lens| {
      var next := Taken(words, idx, Cum(lens, k + 1));
      RangesStep(lens, words, k, idx);
      RangesCount(lens, words, k + 1, next);
    }
  }

  /**
   * Each emitted pacing chunk comes from one range: it lasts as long as that
   * range's audio chunk and its text is the range's words joined by spaces.
   */
  lemma PacingChunks(lens: seq<nat>, words: seq<Word>, m: nat)
    requires m < |PacingFrom(lens, words, 0, 0)|
    ensures |PacingFrom(lens, words, 0, 0)| == |RangesFrom(lens, words, 0, 0)|
    ensures var r := RangesFrom(lens, words, 0, 0)[m];
      && r.chunk < |lens| && r.lo <= r.hi <= |words|
      && PacingFrom(lens, words, 0, 0)[m].durationMs == lens[r.chunk]
      && PacingFrom(lens, words, 0, 0)[m].rawText == Join(Texts(words[r.lo..r.hi]), " ")
  {
    RangesFit(lens, words, 0, 0);
  }

  /**
   * Non-empty ranges, each starting where the one before ends, for a
   * strictly later chunk.
   */
  ghost predicate Contiguous(rs: seq<Range>) {
    && (forall m :: 0 <= m < |rs| ==> rs[m].lo < rs[m].hi)
    && (forall m, n :: 0 <= m < n < |rs| && n == m + 1 ==> rs[m].hi == rs[n].lo && rs[m].chunk < rs[n].chunk)
  }

  lemma ContiguousCons(h: Range, rs: seq<Range>)
    requires h.lo < h.hi && Contiguous(rs)
    requires rs != [] ==> h.hi == rs[0].lo && h.chunk < rs[0].chunk
    ensures Contiguous([h] + rs)
  {
    var r := [h] + rs;
    forall m, n | 0 <= m < n < |r| && n == m + 1 ensures r[m].hi == r[n].lo && r[m].chunk < r[n].chunk {
      if m > 0 { assert r[m] == rs[m - 1] && r[n] == rs[n - 1]; }
    }
  }

  /** Later ranges lie wholly after earlier ones: no word is assigned twice. */
  lemma {:induction false} ContiguousOrdered(rs: seq<Range>, m: nat, n: nat)
    requires Contiguous(rs) && m < n < |rs|
    ensures rs[m].hi <= rs[n].lo && rs[m].chunk < rs[n].chunk
    decreases n - m
  {
    if n > m + 1 {
      ContiguousOrdered(rs, m, n - 1);
      assert rs[n - 1].hi == rs[n].lo && rs[n - 1].chunk < rs[n].chunk;
    }
  }

  /** The first range starts at `idx`, for chunk `k` or a later one. */
  lemma {:induction false} RangesHead(lens: seq<nat>, words: seq<Word>, k: nat, idx: nat)
    requires k <= |lens| && idx <= |words|
    ensures RangesFrom(lens, words, k, idx) != [] ==>
      RangesFrom(lens, words, k, idx)[0].lo == idx && k <= RangesFrom(lens, words, k, idx)[0].chunk
    decreases |lens| - k
  {
    if k < |lens| {
      var next := Taken(words, idx, Cum(lens, k + 1));
      RangesIndex(lens, words, k, idx, 0);
      RangesHead(lens, words, k + 1, next);
    }
  }

  /**
   * The ranges start at `idx` and tile the words that follow without gap or
   * overlap: the assigned words are a prefix of the word list, in order,
   * none of them twice.
   */
  lemma {:induction false} RangesContiguous(lens: seq<nat>, words: seq<Word>, k: nat, idx: nat)
    requires k <= |lens| && idx <= |words|
    ensures Contiguous(RangesFrom(lens, words, k, idx))
    decreases |lens| - k
  {
    if k < |lens| {
      var next := Taken(words, idx, Cum(lens, k + 1));
      var rest := RangesFrom(lens, words, k + 1, next);
      RangesContiguous(lens, words, k + 1, next);
      if next > idx {
        RangesHead(lens, words, k + 1, next);
        ContiguousCons(Range(k, idx, next), rest);
      }
    }
  }

  predicate StartsSorted(words: seq<Word>) {
    forall i, j :: 0 <= i < j < |words| ==> words[i].start <= words[j].start
  }

  /**
   * Word `i` starts before the end of the range's chunk and, when the starts
   * are in order, not before the chunk begins.
   */
  predicate PlacedIn(lens: seq<nat>, words: seq<Word>, r: Range, i: nat) {
    && r.chunk < |lens| && i < |words|
    && words[i].start < Cum(lens, r.chunk + 1)
    && (StartsSorted(words) && r.chunk > 0 ==> words[i].start >= Cum(lens, r.chunk))
  }

  /**
   * A word assigned to chunk `c` starts before that chunk ends; when the
   * starts are in order it also starts at or after the chunk begins, so it
   * went to the first chunk whose end lies beyond its start.
   */
  lemma {:induction false} RangesPlaceWord(lens: seq<nat>, words: seq<Word>, k: nat, idx: nat, m: nat, i: nat)
    requires k <= |lens| && idx <= |words|
    requires idx < |words| && k > 0 ==> words[idx].start >= Cum(lens, k)
    requires m < |RangesFrom(lens, words, k, idx)|
    requires RangesFrom(lens, words, k, idx)[m].lo <= i < RangesFrom(lens, words, k, idx)[m].hi
    ensures PlacedIn(lens, words, RangesFrom(lens, words, k, idx)[m], i)
    decreases |lens| - k
  {
    var next := Taken(words, idx, Cum(lens, k + 1));
    var rs := RangesFrom(lens, words, k, idx);
    var rest := RangesFrom(lens, words, k + 1, next);
    RangesIndex(lens, words, k, idx, 0);
    if next > idx && m == 0 {
      assert rs[m] == Range(k, idx, next);
      PlacedHere(lens, words, k, idx, i);
    } else {
      var m' := if next > idx then m - 1 else m;
      RangesIndex(lens, words, k, idx, m');
      assert rs[m] == rest[m'];
      assert next < |words| ==> words[next].start >= Cum(lens, k + 1);
      RangesPlaceWord(lens, words, k + 1, next, m', i);
    }
  }

  /** The words chunk `k` takes start inside chunk `k`. */
  lemma PlacedHere(lens: seq<nat>, words: seq<Word>, k: nat, idx: nat, i: nat)
    requires k < |lens| && idx <= |words|
    requires idx < |words| && k > 0 ==> words[idx].start >= Cum(lens, k)
    requires idx <= i < Taken(words, idx, Cum(lens, k + 1))
    ensures words[i].start < Cum(lens, k + 1)
    ensures StartsSorted(words) && k > 0 ==> words[i].start >= Cum(lens, k)
  {
    TakenBelow(words, idx, Cum(lens, k + 1), i);
    if StartsSorted(words) && k > 0 {
      assert words[idx].start <= words[i].start;
    }
  }

  /**
   * With the starts in order, every word that starts before the end of the
   * audio is assigned: `m` is the range that holds it.
   */
  lemma {:induction false} RangesCover(lens: seq<nat>, words: seq<Word>, k: nat, idx: nat, i: nat) returns (m: nat)
    requires k < |lens| && idx <= i < |words|
    requires StartsSorted(words) && words[i].start < Cum(lens, |lens|)
    ensures m < |RangesFrom(lens, words, k, idx)|
    ensures RangesFrom(lens, words, k, idx)[m].lo <= i < RangesFrom(lens, words, k, idx)[m].hi
    decreases |lens| - k
  {
    var next := Taken(words, idx, Cum(lens, k + 1));
    var rs := RangesFrom(lens, words, k, idx);
    var rest := RangesFrom(lens, words, k + 1, next);
    if i < next {
      m := 0;
      RangesIndex(lens, words, k, idx, 0);
    } else if k + 1 == |lens| {
      assert false;
    } else {
      var m' := RangesCover(lens, words, k + 1, next, i);
      m := if next > idx then m' + 1 else m';
      RangesIndex(lens, words, k, idx, m');
    }
  }

  /** Every assigned word starts before the total length of the audio. */
  lemma AssignedBeforeEnd(lens: seq<nat>, words: seq<Word>, m: nat, i: nat)
    requires m < |RangesFrom(lens, words, 0, 0)|
    requires RangesFrom(lens, words, 0, 0)[m].lo <= i < RangesFrom(lens, words, 0, 0)[m].hi
    ensures i < |words| && words[i].start < Cum(lens, |lens|)
  {
    RangesPlaceWord(lens, words, 0, 0, m, i);
    var c := RangesFrom(lens, words, 0, 0)[m].chunk;
    CumMonotone(lens, c + 1, |lens|);
  }

  lemma {:induction false} CumMonotone(lens: seq<nat>, i: nat, j: nat)
    requires i <= j <= |lens|
    ensures Cum(lens, i) <= Cum(lens, j)
    decreases j - i
  {
    if i < j { CumMonotone(lens, i, j - 1); }
  }

  /** What one round of the outer loop contributes, given where the inner loop stopped. */
  lemma ChunkStep(lens: seq<nat>, words: seq<Word>, k: nat, from: nat, to: nat, parts: seq<string>)
    requires k < |lens| && from <= |words|
    requires to == Taken(words, from, Cum(lens, k + 1))
    requires parts == Texts(words[from..to])
    ensures PacingFrom(lens, words, k, from)
         == (if parts != [] then [PacingChunk(Join(parts, " "), lens[k])] else [])
            + PacingFrom(lens, words, k + 1, to)
  {
    RangesStep(lens, words, k, from);
    RangesFit(lens, words, k + 1, to);
    assert parts != [] <==> to > from;
  }

  /** `ChunkStep` seen from the loop: the output so far absorbs chunk `k`. */
  lemma ChunkAppended(lens: seq<nat>, words: seq<Word>, k: nat, from: nat, to: nat, parts: seq<string>,
                      chunks: seq<PacingChunk>, total: seq<PacingChunk>)
    requires k < |lens| && from <= |words|
    requires to == Taken(words, from, Cum(lens, k + 1))
    requires parts == Texts(words[from..to])
    requires total == chunks + PacingFrom(lens, words, k, from)
    ensures total == (if parts != [] then chunks + [PacingChunk(Join(parts, " "), lens[k])] else chunks)
                     + PacingFrom(lens, words, k + 1, to)
  {
    ChunkStep(lens, words, k, from, to, parts);
    var here := if parts != [] then [PacingChunk(Join(parts, " "), lens[k])] else [];
    AppendAssoc(chunks, here, PacingFrom(lens, words, k + 1, to));
  }

  /**
   * The inner `while` of `_align_text_to_chunks`: starting at `from`, take
   * every word that starts before `chunkEndTimeMs`, collecting its text.
   */
  method TakeWords(words: seq<Word>, from: nat, chunkEndTimeMs: int) returns (wordIdx: nat, parts: seq<string>)
    requires from <= |words|
    ensures wordIdx == Taken(words, from, chunkEndTimeMs)
    ensures parts == Texts(words[from..wordIdx])
  {
    wordIdx := from;
    parts := [];
    while wordIdx < |words| && words[wordIdx].start < chunkEndTimeMs
      invariant from <= wordIdx <= Taken(words, from, chunkEndTimeMs)
      invariant Taken(words, wordIdx, chunkEndTimeMs) == Taken(words, from, chunkEndTimeMs)
      invariant parts == Texts(words[from..wordIdx])
      decreases |words| - wordIdx
    {
      TextsSnoc(words, from, wordIdx);
      parts := parts + [words[wordIdx].text];
      wordIdx := wordIdx + 1;
    }
  }

  /**
   * `_align_text_to_chunks`: one pass over the chunks with a word index that
   * only moves forward; a chunk that received no words is dropped.
   */
  method AlignTextToChunks(lens: seq<nat>, words: seq<Word>) returns (chunks: seq<PacingChunk>)
    ensures chunks == PacingFrom(lens, words, 0, 0)
  {
    ghost var total := PacingFrom(lens, words, 0, 0);
    chunks := [];
    var wordIdx: nat := 0;
    var currentTimeMs: nat := 0;
    var k := 0;
    while k < |lens|
      invariant k <= |lens| && wordIdx <= |words|
      invariant currentTimeMs == Cum(lens, k)
      invariant total == chunks + PacingFrom(lens, words, k, wordIdx)
    {
      var chunkDurationMs := lens[k];
      var chunkEndTimeMs := currentTimeMs + chunkDurationMs;
      var from := wordIdx;
      var parts;
      wordIdx, parts := TakeWords(words, from, chunkEndTimeMs);
      ChunkAppended(lens, words, k, from, wordIdx, parts, chunks, total);
      if parts != [] {
        chunks := chunks + [PacingChunk(Join(parts, " "), chunkDurationMs)];
      }
      currentTimeMs := currentTimeMs + chunkDurationMs;
      k := k + 1;
    }
  }

  /** `_chunk_on_silence`'s fallback: no silence split means the whole audio is one chunk. */
  function ChunkLengths(silenceLens: seq<nat>, totalMs: nat): (lens: seq<nat>)
    ensures lens != []
    ensures silenceLens != [] ==> lens == silenceLens
    ensures silenceLens == [] ==> lens == [totalMs]
  {
    if silenceLens == [] then [totalMs] else silenceLens
  }

  /**
   * `AudioAnalyzer.process`: empty audio gives an empty analysis; otherwise
   * the word list comes from the transcription and the pacing chunks from
   * aligning it to the silence-split chunk lengths (the whole audio when
   * there was no split). Decoding, Whisper and the silence split are the
   * parameters `transcription`, `silenceLens` and `totalMs`.
   */
  method Process(audioBytes: seq<bv8>, transcription: Transcription, silenceLens: seq<nat>, totalMs: nat)
    returns (r: Analysis)
    ensures audioBytes == [] ==> r == Analysis([], [])
    ensures audioBytes != [] ==> r.wordTimestamps == ExtractWordTimestamps(transcription)
    ensures audioBytes != [] ==>
      r.pacingChunks == PacingFrom(ChunkLengths(silenceLens, totalMs), r.wordTimestamps, 0, 0)
    ensures |r.pacingChunks| <= |ChunkLengths(silenceLens, totalMs)|
  {
    if audioBytes == [] {
      return Analysis([], []);
    }
    var wordTimestamps := ExtractWordTimestamps(transcription);
    var lens := ChunkLengths(silenceLens, totalMs);
    var pacingChunks := AlignTextToChunks(lens, wordTimestamps);
    RangesCount(lens, wordTimestamps, 0, 0);
    r := Analysis(pacingChunks, wordTimestamps);
  }
}
