/**
 * The deterministic pieces of `src/orchestrator.py`: the check that a script
 * exists, the heading extraction `re.findall(r":(.*?)::", script)` written as
 * an explicit left-to-right scanner, and the loop that lists the generated
 * images with their display durations.
 */
module Orchestrator {
  import opened Wrappers
  import Decimal
  import opened AudioAnalyzer
  import opened Text

  // ---------------------------------------------------------------------
  // Script gate

  /**
   * `if not self.script_content: raise RuntimeError(...)`: a missing or empty
   * script stops the run before any speech is synthesised; otherwise the
   * script goes on unchanged.
   */
  function RequireScript(script: Option<string>): (r: Result<string, string>)
    ensures r.Failure? <==> (script == None || script == Some(""))
    ensures r.Success? ==> r.value == script.value && r.value != ""
  {
    match script
    case None => Failure("Script generation failed. Aborting pipeline.")
    case Some(s) => if s == "" then Failure("Script generation failed. Aborting pipeline.") else Success(s)
  }

  // ---------------------------------------------------------------------
  // Heading extraction

  /** The text of a heading lies at `lo..hi`; its `:` is at `lo - 1` and its `::` at `hi`. */
  datatype Span = Span(lo: nat, hi: nat)

  predicate DoubleColonAt(s: string, j: nat) {
    j + 1 < |s| && s[j] == ':' && s[j + 1] == ':'
  }

  /**
   * The lazy group `(.*?)` opened at `q`: it closes at the first `::` that
   * comes before any line break (`.` does not match `\n`); `None` when a line
   * break or the end of the text comes first.
   */
  function Close(s: string, q: nat): (r: Option<nat>)
    requires q <= |s|
    ensures r.Some? ==> q <= r.value && r.value + 2 <= |s|
    decreases |s| - q
  {
    if DoubleColonAt(s, q) then Some(q)
    else if q < |s| && s[q] != '\n' then Close(s, q + 1)
    else None
  }

  /**
   * The matches of `:(.*?)::` from position `p` on: at a `:` whose group
   * closes, the heading is taken and the scan resumes after its `::`;
   * anywhere else the scan moves on by one character.
   */
  function Scan(s: string, p: nat): (r: seq<Span>)
    requires p <= |s|
    ensures forall k :: 0 <= k < |r| ==> p < r[k].lo <= r[k].hi && r[k].hi + 2 <= |s|
    decreases |s| - p
  {
    if p == |s| then []
    else if s[p] == ':' then
      match Close(s, p + 1)
      case Some(e) => [Span(p + 1, e)] + Scan(s, e + 2)
      case None => Scan(s, p + 1)
    else Scan(s, p + 1)
  }

  /** What a span encloses: `:` before, `::` after, and neither a line break nor `::` inside. */
  predicate Enclosed(s: string, sp: Span) {
    0 < sp.lo <= sp.hi && sp.hi + 2 <= |s| && s[sp.lo - 1] == ':' && DoubleColonAt(s, sp.hi)
    && forall j :: sp.lo <= j < sp.hi ==> s[j] != '\n' && !DoubleColonAt(s, j)
  }

  /** Where a group closes: a `::`, with no line break and no earlier `::` in between. */
  lemma {:induction false} CloseFacts(s: string, q: nat)
    requires q <= |s|
    ensures Close(s, q).Some? ==>
      var e := Close(s, q).value;
      q <= e && DoubleColonAt(s, e) && forall j :: q <= j < e ==> s[j] != '\n' && !DoubleColonAt(s, j)
    decreases |s| - q
  {
    if !DoubleColonAt(s, q) && q < |s| && s[q] != '\n' {
      CloseFacts(s, q + 1);
    }
  }

  /** Every span the scanner finds from `p` is enclosed. */
  lemma {:induction false} ScanEnclosed(s: string, p: nat)
    requires p <= |s|
    ensures forall k :: 0 <= k < |Scan(s, p)| ==> Enclosed(s, Scan(s, p)[k])
    decreases |s| - p
  {
    if p < |s| {
      if s[p] == ':' && Close(s, p + 1).Some? {
        var e := Close(s, p + 1).value;
        CloseFacts(s, p + 1);
        ScanEnclosed(s, e + 2);
        var r, rest := Scan(s, p), Scan(s, e + 2);
        assert r == [Span(p + 1, e)] + rest;
        forall k | 0 <= k < |r| ensures Enclosed(s, r[k]) {
          if k > 0 { assert r[k] == rest[k - 1]; }
        }
      } else {
        ScanEnclosed(s, p + 1);
        assert Scan(s, p) == Scan(s, p + 1);
      }
    }
  }

  /** The spans come in left-to-right order, each starting after the previous one's `::`. */
  lemma {:induction false} ScanOrdered(s: string, p: nat)
    requires p <= |s|
    ensures forall k :: 0 < k < |Scan(s, p)| ==> Scan(s, p)[k - 1].hi + 2 < Scan(s, p)[k].lo
    decreases |s| - p
  {
    if p < |s| {
      if s[p] == ':' && Close(s, p + 1).Some? {
        var e := Close(s, p + 1).value;
        ScanOrdered(s, e + 2);
        var r := Scan(s, p);
        assert r == [Span(p + 1, e)] + Scan(s, e + 2);
        forall k | 0 < k < |r| ensures r[k - 1].hi + 2 < r[k].lo {
          if k > 1 { assert r[k - 1] == Scan(s, e + 2)[k - 2]; }
        }
      } else {
        ScanOrdered(s, p + 1);
      }
    }
  }

  function Slices(s: string, spans: seq<Span>): (r: seq<string>)
    requires forall k :: 0 <= k < |spans| ==> spans[k].lo <= spans[k].hi <= |s|
    ensures |r| == |spans|
  {
    seq(|spans|, k requires 0 <= k < |spans| => s[spans[k].lo..spans[k].hi])
  }

  /** `re.findall(r":(.*?)::", script)`: the text of every heading, in order. */
  function FindHeadings(script: string): (headings: seq<string>)
    ensures |headings| == |Scan(script, 0)|
  {
    Slices(script, Scan(script, 0))
  }

  /** `::` somewhere in `t`. */
  predicate HasDoubleColon(t: string) {
    exists j :: 0 <= j < |t| && DoubleColonAt(t, j)
  }

  /**
   * The `k`-th heading stands in the script as `:` + heading + `::` at the
   * `k`-th span (`ScanOrdered` orders the spans without overlap), and it holds
   * neither a line break nor `::`.
   */
  lemma HeadingInScript(script: string, k: nat)
    requires k < |FindHeadings(script)|
    ensures var sp, h := Scan(script, 0)[k], FindHeadings(script)[k];
      0 < sp.lo <= sp.hi && sp.hi + 2 <= |script| && script[sp.lo - 1..sp.hi + 2] == ":" + h + "::"
    ensures '\n' !in FindHeadings(script)[k] && !HasDoubleColon(FindHeadings(script)[k])
  {
    ScanEnclosed(script, 0);
    var sp, h := Scan(script, 0)[k], FindHeadings(script)[k];
    assert Enclosed(script, sp);
    var lo, hi := sp.lo, sp.hi;
    assert h == script[lo..hi];
    assert script[lo - 1..hi + 2] == [script[lo - 1]] + script[lo..hi] + [script[hi], script[hi + 1]];
    forall j | 0 <= j < |h| ensures h[j] != '\n' && !DoubleColonAt(h, j) {
      assert h[j] == script[lo + j];
      if j + 1 < |h| { assert h[j + 1] == script[lo + j + 1]; }
    }
  }

  /** A script without `::` has no headings. */
  lemma NoDoubleColonNoHeadings(script: string)
    ensures !HasDoubleColon(script) ==> FindHeadings(script) == []
  {
    if Scan(script, 0) != [] {
      ScanEnclosed(script, 0);
      assert DoubleColonAt(script, Scan(script, 0)[0].hi);
    }
  }

  /** Headings marked up one after the other, as the script writer emits them. */
  function Markup(headings: seq<string>): string {
    if headings == [] then "" else ":" + headings[0] + "::" + Markup(headings[1..])
  }

  /** Heading text the scanner gives back unchanged: no colon and no line break. */
  predicate PlainHeading(h: string) {
    ':' !in h && '\n' !in h
  }

  lemma {:induction false} CloseOver(s: string, q: nat, e: nat)
    requires q <= e && DoubleColonAt(s, e)
    requires forall j :: q <= j < e ==> s[j] != ':' && s[j] != '\n'
    ensures Close(s, q) == Some(e)
    decreases e - q
  {
    if q < e {
      CloseOver(s, q + 1, e);
    }
  }

  /** `:` + `h` + `::` stands in `s` at `p`. */
  predicate MarkAt(s: string, p: nat, h: string) {
    p + |h| + 3 <= |s| && s[p] == ':' && s[p + 1..p + 1 + |h|] == h
    && s[p + 1 + |h|] == ':' && s[p + 2 + |h|] == ':'
  }

  /** At a marked-up plain heading the scanner takes exactly that heading and resumes after it. */
  lemma ScanAtHeading(s: string, p: nat, h: string)
    requires PlainHeading(h) && MarkAt(s, p, h)
    ensures Scan(s, p) == [Span(p + 1, p + 1 + |h|)] + Scan(s, p + |h| + 3)
  {
    var e := p + 1 + |h|;
    forall j | p + 1 <= j < e ensures s[j] != ':' && s[j] != '\n' {
      assert s[j] == s[p + 1..e][j - p - 1];
    }
    CloseOver(s, p + 1, e);
  }

  lemma SlicesCons(s: string, sp: Span, rest: seq<Span>)
    requires sp.lo <= sp.hi <= |s|
    requires forall k :: 0 <= k < |rest| ==> rest[k].lo <= rest[k].hi <= |s|
    ensures Slices(s, [sp] + rest) == [s[sp.lo..sp.hi]] + Slices(s, rest)
  {
    var l, r := Slices(s, [sp] + rest), [s[sp.lo..sp.hi]] + Slices(s, rest);
    forall k | 0 <= k < |l| ensures l[k] == r[k] {
      if k > 0 { assert ([sp] + rest)[k] == rest[k - 1]; }
    }
  }

  /** `s` holds, from `p` to its end, exactly the markup of `headings`. */
  ghost predicate MarkedFrom(s: string, p: nat, headings: seq<string>)
    decreases |headings|
  {
    if headings == [] then p == |s|
    else
      MarkAt(s, p, headings[0]) && MarkedFrom(s, p + |headings[0]| + 3, headings[1..])
  }

  lemma MarkAtConcat(pre: string, h: string, rest: string)
    ensures MarkAt(pre + (":" + h + "::") + rest, |pre|, h)
  {
    var m := ":" + h + "::";
    var s := pre + m + rest;
    forall i | 0 <= i < |m| ensures s[|pre| + i] == m[i] {
    }
    assert s[|pre| + 1..|pre| + 1 + |h|] == m[1..|h| + 1] == h;
  }

  lemma {:induction false} MarkupMarked(pre: string, headings: seq<string>)
    ensures MarkedFrom(pre + Markup(headings), |pre|, headings)
    decreases |headings|
  {
    if headings != [] {
      var h := headings[0];
      var pre', tail := pre + (":" + h + "::"), Markup(headings[1..]);
      assert pre + Markup(headings) == pre' + tail by {
        assert Markup(headings) == (":" + h + "::") + tail;
      }
      assert |pre'| == |pre| + |h| + 3;
      MarkAtConcat(pre, h, tail);
      MarkupMarked(pre', headings[1..]);
    }
  }

  lemma {:induction false} ScanMarked(s: string, p: nat, headings: seq<string>)
    requires forall k :: 0 <= k < |headings| ==> PlainHeading(headings[k])
    requires MarkedFrom(s, p, headings)
    ensures p <= |s| && Slices(s, Scan(s, p)) == headings
    decreases |headings|
  {
    if headings != [] {
      var h := headings[0];
      var p' := p + |h| + 3;
      assert MarkAt(s, p, h) && MarkedFrom(s, p', headings[1..]);
      ScanAtHeading(s, p, h);
      ScanMarked(s, p', headings[1..]);
      var sp, rest := Span(p + 1, p + 1 + |h|), Scan(s, p');
      SlicesCons(s, sp, rest);
      assert s[sp.lo..sp.hi] == h;
      assert headings == [h] + headings[1..];
    }
  }

  /** Extraction inverts the markup of headings without colons and line breaks. */
  lemma FindHeadingsOfMarkup(headings: seq<string>)
    requires forall k :: 0 <= k < |headings| ==> PlainHeading(headings[k])
    ensures FindHeadings(Markup(headings)) == headings
  {
    MarkupMarked("", headings);
    assert "" + Markup(headings) == Markup(headings);
    ScanMarked(Markup(headings), 0, headings);
  }

  // ---------------------------------------------------------------------
  // Image sequence

  /** One image of the video and how long it stays on screen, in seconds. */
  datatype ImageEntry = ImageEntry(path: string, durationS: real)

  /** `f"image_{i:03d}.png"`. */
  function ImageName(i: nat): string {
    "image_" + Decimal.ZeroPad(i, 3) + ".png"
  }

  lemma ImageNameInjective(i: nat, j: nat)
    ensures ImageName(i) == ImageName(j) ==> i == j
  {
    var na, nb := ImageName(i), ImageName(j);
    if na == nb {
      assert Decimal.ZeroPad(i, 3) == na[6..|na| - 4];
      assert Decimal.ZeroPad(j, 3) == nb[6..|nb| - 4];
      Decimal.ZeroPadRoundTrip(i, 3);
      Decimal.ZeroPadRoundTrip(j, 3);
    }
  }

  /** Images of different chunks are written to different files. */
  lemma ImagePathsDistinct(dir: string, i: nat, j: nat)
    ensures i != j ==> JoinPath(dir, ImageName(i)) != JoinPath(dir, ImageName(j))
  {
    JoinPathInjective(dir, ImageName(i), ImageName(j));
    ImageNameInjective(i, j);
  }

  /** The indices below `n` of chunks whose image came back non-empty, in order. */
  function KeptIndices(images: seq<seq<bv8>>, n: nat): (r: seq<nat>)
    requires n <= |images|
  {
    if n == 0 then [] else KeptIndices(images, n - 1) + (if images[n - 1] != [] then [n - 1] else [])
  }

  /** Exactly the chunks with an image, each once, in increasing order. */
  lemma {:induction false} KeptIndicesFacts(images: seq<seq<bv8>>, n: nat)
    requires n <= |images|
    ensures forall k :: 0 <= k < |KeptIndices(images, n)| ==>
      KeptIndices(images, n)[k] < n && images[KeptIndices(images, n)[k]] != []
    ensures forall k1, k2 :: 0 <= k1 < k2 < |KeptIndices(images, n)| ==>
      KeptIndices(images, n)[k1] < KeptIndices(images, n)[k2]
    ensures forall i :: 0 <= i < n && images[i] != [] ==> i in KeptIndices(images, n)
  {
    if n > 0 {
      KeptIndicesFacts(images, n - 1);
    }
  }

  function EntryOf(dir: string, chunks: seq<PacingChunk>, i: nat): ImageEntry
    requires i < |chunks|
  {
    ImageEntry(JoinPath(dir, ImageName(i)), chunks[i].durationMs as real / 1000.0)
  }

  /** The image sequence of the first `n` chunks: one entry per kept chunk, in chunk order. */
  function ImageSequence(dir: string, chunks: seq<PacingChunk>, images: seq<seq<bv8>>, n: nat): (r: seq<ImageEntry>)
    requires |images| == |chunks| && n <= |chunks|
    ensures |r| == |KeptIndices(images, n)|
  {
    var ks := KeptIndices(images, n);
    KeptIndicesFacts(images, n);
    seq(|ks|, k requires 0 <= k < |ks| => EntryOf(dir, chunks, ks[k]))
  }

  lemma ImageSequenceSnoc(dir: string, chunks: seq<PacingChunk>, images: seq<seq<bv8>>, i: nat)
    requires |images| == |chunks| && i < |chunks|
    ensures ImageSequence(dir, chunks, images, i + 1)
         == ImageSequence(dir, chunks, images, i) + (if images[i] != [] then [EntryOf(dir, chunks, i)] else [])
  {
    var ks, ks' := KeptIndices(images, i), KeptIndices(images, i + 1);
    assert ks' == ks + (if images[i] != [] then [i] else []);
    var a, b := ImageSequence(dir, chunks, images, i + 1),
                ImageSequence(dir, chunks, images, i) + (if images[i] != [] then [EntryOf(dir, chunks, i)] else []);
    forall k | 0 <= k < |a| ensures a[k] == b[k] {
      if k < |ks| { assert ks'[k] == ks[k]; }
    }
  }

  /**
   * The visual step of the run. The prompt and image services are not
   * modelled: `images[i]` is what the image generator returned for chunk `i`.
   * A chunk whose image is empty gets no entry.
   */
  method BuildImageSequence(imageDir: string, chunks: seq<PacingChunk>, images: seq<seq<bv8>>)
    returns (imageSequence: seq<ImageEntry>)
    requires |images| == |chunks|
    ensures imageSequence == ImageSequence(imageDir, chunks, images, |chunks|)
  {
    imageSequence := [];
    for i := 0 to |chunks|
      invariant imageSequence == ImageSequence(imageDir, chunks, images, i)
    {
      ImageSequenceSnoc(imageDir, chunks, images, i);
      var imageBytes := images[i];
      if imageBytes != [] {
        var imgPath := JoinPath(imageDir, ImageName(i));
        imageSequence := imageSequence + [ImageEntry(imgPath, chunks[i].durationMs as real / 1000.0)];
      }
    }
  }

  /**
   * Every entry belongs to a chunk with an image, carries that chunk's file
   * name and duration in seconds, the chunks appear in order, and every
   * chunk with an image has an entry.
   */
  lemma ImageSequenceFacts(dir: string, chunks: seq<PacingChunk>, images: seq<seq<bv8>>)
    requires |images| == |chunks|
    ensures var r := ImageSequence(dir, chunks, images, |chunks|);
      |r| <= |chunks|
      && (forall k :: 0 <= k < |r| ==> exists i :: 0 <= i < |chunks| && images[i] != [] && r[k] == EntryOf(dir, chunks, i))
      && (forall i :: 0 <= i < |chunks| && images[i] != [] ==> EntryOf(dir, chunks, i) in r)
  {
    var ks := KeptIndices(images, |chunks|);
    KeptIndicesFacts(images, |chunks|);
    var r := ImageSequence(dir, chunks, images, |chunks|);
    KeptBound(images, |chunks|);
    forall k | 0 <= k < |r| ensures exists i :: 0 <= i < |chunks| && images[i] != [] && r[k] == EntryOf(dir, chunks, i) {
      assert r[k] == EntryOf(dir, chunks, ks[k]);
    }
    forall i | 0 <= i < |chunks| && images[i] != [] ensures EntryOf(dir, chunks, i) in r {
      var k :| 0 <= k < |ks| && ks[k] == i;
      assert r[k] == EntryOf(dir, chunks, i);
    }
  }

  lemma {:induction false} KeptBound(images: seq<seq<bv8>>, n: nat)
    requires n <= |images|
    ensures |KeptIndices(images, n)| <= n
  {
    if n > 0 { KeptBound(images, n - 1); }
  }
}
