/**
 * The bookkeeping `VideoRenderer` does before it hands a command to FFmpeg
 * (`src/processors/video_renderer.py`, and the same `assemble_primary_video`
 * and `burn_subtitles` in `video_assemply_burnout.py`): which input each
 * image and the audio become, which filters prepare, zoom and cross-fade the
 * images, the fade offsets, the subtitle path escaping, and the guards of
 * the background-music mix. Filters are kept as structured values; the text
 * of the filter graph and the running of FFmpeg are not modelled.
 */
module VideoRenderer {
  import opened Wrappers
  import opened Text
  import opened Orchestrator

  // ---------------------------------------------------------------------
  // Primary assembly

  /** The keys of the `video_rendering` section that the assembly reads; absent keys are `None`. */
  datatype RenderConfig = RenderConfig(
    fps: real,
    enableCalmZoom: Option<bool>,
    transitionDurationS: Option<real>,
    videoCodec: Option<string>,
    pixelFormat: Option<string>,
    audioCodec: Option<string>)

  /** The streams of the filter graph: `[k:v]`, `[base_img_i]`, `[zoomed_img_i]`, `[faded_i]`. */
  datatype Stream = InputVideo(index: nat) | BaseImg(i: nat) | ZoomedImg(i: nat) | Faded(i: nat)

  /** One filter of the graph, with the streams it reads and the one it writes. */
  datatype Filter =
    | Prepare(src: Stream, out: Stream)
      // fps, scale, pad and setpts of one image
    | ZoomPan(src: Stream, frames: int, out: Stream)
    | XFade(first: Stream, second: Stream, duration: real, offset: real, out: Stream)

  /** `-loop 1 -framerate fps -t d -i path` for an image, `-i path` for the audio. */
  datatype Input = LoopedImage(path: string, fps: real, durationS: real) | AudioTrack(path: string)

  /** The FFmpeg command of the assembly, without its output path. */
  datatype Assembly = Assembly(
    inputs: seq<Input>,
    filters: seq<Filter>,
    videoMap: Stream,
    audioInput: nat,
    videoCodec: string,
    pixelFormat: string,
    audioCodec: string)

  function OrElse<T>(o: Option<T>, default: T): T {
    match o
    case Some(v) => v
    case None => default
  }

  function ZoomEnabled(config: RenderConfig): bool {
    OrElse(config.enableCalmZoom, false)
  }

  /** `render_config.get('transition_duration_s', 1.5)` */
  function TransitionDuration(config: RenderConfig): real {
    OrElse(config.transitionDurationS, 1.5)
  }

  /** Python's `int(x)` on a float: truncation toward zero. */
  function Trunc(x: real): int {
    if x >= 0.0 then x.Floor else -((-x).Floor)
  }

  /** Truncation drops the fraction toward zero. */
  lemma TruncTowardZero(x: real)
    ensures x >= 0.0 ==> 0 <= Trunc(x) && Trunc(x) as real <= x < Trunc(x) as real + 1.0
    ensures x < 0.0 ==> Trunc(x) <= 0 && Trunc(x) as real - 1.0 < x <= Trunc(x) as real
  {
  }

  /** `int(duration_s * fps)`: the frames of a zoomed clip. */
  function Frames(img: ImageEntry, config: RenderConfig): int {
    Trunc(img.durationS * config.fps)
  }

  predicate Zooms(images: seq<ImageEntry>, config: RenderConfig, i: nat)
    requires i < |images|
  {
    ZoomEnabled(config) && Frames(images[i], config) > 0
  }

  /** The stream image `i` contributes to the cross-fade chain. */
  function SegmentLabel(images: seq<ImageEntry>, config: RenderConfig, i: nat): (s: Stream)
    requires i < |images|
    ensures s == ZoomedImg(i) <==> Zooms(images, config, i)
    ensures s == BaseImg(i) <==> !Zooms(images, config, i)
  {
    if Zooms(images, config, i) then ZoomedImg(i) else BaseImg(i)
  }

  /** The filters of image `i`: its preparation, then its zoom when it zooms. */
  function SegmentFilters(images: seq<ImageEntry>, config: RenderConfig, i: nat): seq<Filter>
    requires i < |images|
  {
    [Prepare(InputVideo(i), BaseImg(i))]
    + if Zooms(images, config, i) then [ZoomPan(BaseImg(i), Frames(images[i], config), ZoomedImg(i))] else []
  }

  lemma SegmentFiltersCases(images: seq<ImageEntry>, config: RenderConfig, i: nat)
    requires i < |images|
    ensures Zooms(images, config, i) <==> OrElse(config.enableCalmZoom, false) && Frames(images[i], config) > 0
    ensures Zooms(images, config, i) ==>
      SegmentFilters(images, config, i)
        == [Prepare(InputVideo(i), BaseImg(i)), ZoomPan(BaseImg(i), Frames(images[i], config), ZoomedImg(i))]
    ensures !Zooms(images, config, i) ==> SegmentFilters(images, config, i) == [Prepare(InputVideo(i), BaseImg(i))]
  {
    var z := ZoomPan(BaseImg(i), Frames(images[i], config), ZoomedImg(i));
    if Zooms(images, config, i) {
      assert SegmentFilters(images, config, i) == [Prepare(InputVideo(i), BaseImg(i))] + [z];
    }
  }

  /** The filters of the first `n` images, in order. */
  function SegmentsUpTo(images: seq<ImageEntry>, config: RenderConfig, n: nat): seq<Filter>
    requires n <= |images|
  {
    if n == 0 then [] else SegmentsUpTo(images, config, n - 1) + SegmentFilters(images, config, n - 1)
  }

  function SegmentLabels(images: seq<ImageEntry>, config: RenderConfig, n: nat): (r: seq<Stream>)
    requires n <= |images|
    ensures |r| == n
  {
    seq(n, i requires 0 <= i < n => SegmentLabel(images, config, i))
  }

  function ImageInputs(images: seq<ImageEntry>, config: RenderConfig, n: nat): (r: seq<Input>)
    requires n <= |images|
    ensures |r| == n
  {
    seq(n, i requires 0 <= i < n => LoopedImage(images[i].path, config.fps, images[i].durationS))
  }

  /** The total duration of the first `n` images. */
  function DurationSum(images: seq<ImageEntry>, n: nat): real
    requires n <= |images|
  {
    if n == 0 then 0.0 else DurationSum(images, n - 1) + images[n - 1].durationS
  }

  /** Where fade `i` starts: the first `i + 1` images, less the `i + 1` overlaps of length `x`. */
  function Offset(images: seq<ImageEntry>, x: real, i: nat): real
    requires i < |images|
  {
    DurationSum(images, i + 1) - (i + 1) as real * x
  }

  /** The stream fade `i` fades from: image 0, or what fade `i - 1` wrote. */
  function Chained(images: seq<ImageEntry>, config: RenderConfig, i: nat): Stream
    requires 0 < |images|
  {
    if i == 0 then SegmentLabel(images, config, 0) else Faded(i - 1)
  }

  function FadeAt(images: seq<ImageEntry>, config: RenderConfig, i: nat): Filter
    requires i + 1 < |images|
  {
    XFade(Chained(images, config, i), SegmentLabel(images, config, i + 1), TransitionDuration(config),
          Offset(images, TransitionDuration(config), i), Faded(i))
  }

  function FadesUpTo(images: seq<ImageEntry>, config: RenderConfig, m: nat): (r: seq<Filter>)
    requires m < |images|
    ensures |r| == m
  {
    seq(m, i requires 0 <= i < m => FadeAt(images, config, i))
  }

  /** The stream mapped to the output: the last fade, or image 0 alone. */
  function FinalStream(images: seq<ImageEntry>, config: RenderConfig): Stream
    requires 0 < |images|
  {
    if |images| > 1 then Faded(|images| - 2) else SegmentLabel(images, config, 0)
  }

  function PrimaryAssembly(images: seq<ImageEntry>, audioPath: string, config: RenderConfig): Assembly
    requires 0 < |images|
  {
    Assembly(
      ImageInputs(images, config, |images|) + [AudioTrack(audioPath)],
      SegmentsUpTo(images, config, |images|) + FadesUpTo(images, config, |images| - 1),
      FinalStream(images, config),
      |images|,
      OrElse(config.videoCodec, "libx264"),
      OrElse(config.pixelFormat, "yuv420p"),
      OrElse(config.audioCodec, "aac"))
  }

  /**
   * The first loop of `assemble_primary_video`: one input and a preparation
   * filter per image, a zoom filter for the images that zoom, and the list of
   * the segment streams.
   */
  method BuildSegments(imageSequence: seq<ImageEntry>, config: RenderConfig)
    returns (ffmpegInputs: seq<Input>, filterParts: seq<Filter>, segments: seq<Stream>, inputMapIdx: nat)
    ensures ffmpegInputs == ImageInputs(imageSequence, config, |imageSequence|)
    ensures filterParts == SegmentsUpTo(imageSequence, config, |imageSequence|)
    ensures segments == SegmentLabels(imageSequence, config, |imageSequence|)
    ensures inputMapIdx == |imageSequence|
  {
    ffmpegInputs, filterParts, segments, inputMapIdx := [], [], [], 0;
    for i := 0 to |imageSequence|
      invariant inputMapIdx == i
      invariant ffmpegInputs == ImageInputs(imageSequence, config, i)
      invariant filterParts == SegmentsUpTo(imageSequence, config, i)
      invariant segments == SegmentLabels(imageSequence, config, i)
    {
      var img := imageSequence[i];
      ghost var prefix := filterParts;
      SegmentFiltersCases(imageSequence, config, i);
      ffmpegInputs := ffmpegInputs + [LoopedImage(img.path, config.fps, img.durationS)];
      var imgInputLabel := InputVideo(inputMapIdx);
      var baseImgLabel := BaseImg(i);
      filterParts := filterParts + [Prepare(imgInputLabel, baseImgLabel)];
      var segmentOutputLabel := baseImgLabel;
      if OrElse(config.enableCalmZoom, false) {
        var numFrames := Frames(img, config);
        if numFrames > 0 {
          var zoomedLabel := ZoomedImg(i);
          filterParts := filterParts + [ZoomPan(baseImgLabel, numFrames, zoomedLabel)];
          segmentOutputLabel := zoomedLabel;
          assert filterParts == prefix + [Prepare(imgInputLabel, baseImgLabel), ZoomPan(baseImgLabel, numFrames, zoomedLabel)];
        } else {
          assert filterParts == prefix + SegmentFilters(imageSequence, config, i);
        }
      } else {
        assert filterParts == prefix + SegmentFilters(imageSequence, config, i);
      }
      segments := segments + [segmentOutputLabel];
      assert segments == SegmentLabels(imageSequence, config, i + 1);
      assert ffmpegInputs == ImageInputs(imageSequence, config, i + 1);
      inputMapIdx := inputMapIdx + 1;
    }
  }

  /**
   * The cross-fade loop of `assemble_primary_video`: with two or more
   * images, each fade starts where the running duration, less one
   * transition, ends; the stream mapped to the output is the last fade, or
   * the single image's segment.
   */
  method BuildFadeChain(imageSequence: seq<ImageEntry>, config: RenderConfig, segments: seq<Stream>, parts: seq<Filter>)
    returns (filterParts: seq<Filter>, finalVisualStream: Stream)
    requires 0 < |imageSequence| && segments == SegmentLabels(imageSequence, config, |imageSequence|)
    ensures filterParts == parts + FadesUpTo(imageSequence, config, |imageSequence| - 1)
    ensures finalVisualStream == FinalStream(imageSequence, config)
  {
    filterParts := parts;
    var xfadeDuration := OrElse(config.transitionDurationS, 1.5);
    if |segments| > 1 {
      var currentStream := segments[0];
      var currentDuration := imageSequence[0].durationS;
      for i := 0 to |segments| - 1
        invariant currentStream == Chained(imageSequence, config, i)
        invariant currentDuration == DurationSum(imageSequence, i + 1) - i as real * xfadeDuration
        invariant filterParts == parts + FadesUpTo(imageSequence, config, i)
      {
        var nextStream := segments[i + 1];
        var nextDuration := imageSequence[i + 1].durationS;
        var offset := currentDuration - xfadeDuration;
        var fadedOutput := Faded(i);
        assert (i + 1) as real * xfadeDuration == i as real * xfadeDuration + xfadeDuration;
        assert XFade(currentStream, nextStream, xfadeDuration, offset, fadedOutput) == FadeAt(imageSequence, config, i);
        assert FadesUpTo(imageSequence, config, i + 1) == FadesUpTo(imageSequence, config, i) + [FadeAt(imageSequence, config, i)];
        filterParts := filterParts + [XFade(currentStream, nextStream, xfadeDuration, offset, fadedOutput)];
        currentStream := fadedOutput;
        currentDuration := currentDuration + (nextDuration - xfadeDuration);
      }
      finalVisualStream := currentStream;
    } else {
      finalVisualStream := segments[0];
      assert FadesUpTo(imageSequence, config, 0) == [];
    }
  }

  /**
   * `assemble_primary_video` up to the FFmpeg call: `None` (the `False`
   * return) for an empty image sequence, otherwise the command it builds.
   */
  method AssemblePrimaryVideo(imageSequence: seq<ImageEntry>, audioPath: string, config: RenderConfig)
    returns (command: Option<Assembly>)
    ensures command.None? <==> imageSequence == []
    ensures imageSequence != [] ==> command == Some(PrimaryAssembly(imageSequence, audioPath, config))
  {
    if imageSequence == [] {
      return None;
    }
    var ffmpegInputs, filterParts, segments, inputMapIdx := BuildSegments(imageSequence, config);
    var finalVisualStream;
    filterParts, finalVisualStream := BuildFadeChain(imageSequence, config, segments, filterParts);
    ffmpegInputs := ffmpegInputs + [AudioTrack(audioPath)];
    var audioInputIdx := inputMapIdx;
    command := Some(Assembly(ffmpegInputs, filterParts, finalVisualStream, audioInputIdx,
                             OrElse(config.videoCodec, "libx264"), OrElse(config.pixelFormat, "yuv420p"),
                             OrElse(config.audioCodec, "aac")));
  }

  /**
   * Image `i` is input `i` and the audio is the input after the last image;
   * the preparation filter of image `i` reads input `i`.
   */
  lemma InputIndexing(images: seq<ImageEntry>, audioPath: string, config: RenderConfig, i: nat)
    requires i < |images|
    ensures var a := PrimaryAssembly(images, audioPath, config);
      |a.inputs| == |images| + 1 && a.audioInput == |images|
      && a.inputs[a.audioInput] == AudioTrack(audioPath)
      && a.inputs[i] == LoopedImage(images[i].path, config.fps, images[i].durationS)
      && |SegmentsUpTo(images, config, i)| < |a.filters|
      && a.filters[|SegmentsUpTo(images, config, i)|] == Prepare(InputVideo(i), BaseImg(i))
  {
    SegmentsPrefix(images, config, i + 1, |images|);
    assert SegmentsUpTo(images, config, i + 1)[|SegmentsUpTo(images, config, i)|] == Prepare(InputVideo(i), BaseImg(i));
  }

  /** The filters of fewer images are a prefix of those of more. */
  lemma {:induction false} SegmentsPrefix(images: seq<ImageEntry>, config: RenderConfig, m: nat, n: nat)
    requires m <= n <= |images|
    ensures |SegmentsUpTo(images, config, m)| <= |SegmentsUpTo(images, config, n)|
    ensures SegmentsUpTo(images, config, m) == SegmentsUpTo(images, config, n)[..|SegmentsUpTo(images, config, m)|]
    decreases n - m
  {
    if m < n {
      SegmentsPrefix(images, config, m, n - 1);
      var s, t := SegmentsUpTo(images, config, m), SegmentsUpTo(images, config, n - 1);
      assert SegmentsUpTo(images, config, n)[..|t|] == t;
      assert t[..|s|] == s;
    }
  }

  /** Each image adds one or two filters. */
  lemma {:induction false} SegmentsCount(images: seq<ImageEntry>, config: RenderConfig, n: nat)
    requires n <= |images|
    ensures n <= |SegmentsUpTo(images, config, n)| <= 2 * n
  {
    if n > 0 {
      SegmentsCount(images, config, n - 1);
    }
  }

  /**
   * With two or more images there are `n - 1` fades; fade `i` fades from the
   * previous fade's output (image 0 for the first) into image `i + 1`, at
   * offset `d0 + ... + di - (i + 1) x`, and the output is the last fade.
   */
  lemma FadeChain(images: seq<ImageEntry>, audioPath: string, config: RenderConfig, i: nat)
    requires i + 1 < |images|
    ensures var a, segs := PrimaryAssembly(images, audioPath, config), |SegmentsUpTo(images, config, |images|)|;
      |a.filters| == segs + |images| - 1
      && a.filters[segs + i].XFade?
      && a.filters[segs + i].second == SegmentLabel(images, config, i + 1)
      && a.filters[segs + i].out == Faded(i)
      && (i == 0 ==> a.filters[segs + i].first == SegmentLabel(images, config, 0))
      && (i > 0 ==> a.filters[segs + i].first == a.filters[segs + i - 1].out)
      && a.filters[segs + i].offset == DurationSum(images, i + 1) - (i + 1) as real * TransitionDuration(config)
      && a.videoMap == a.filters[|a.filters| - 1].out
  {
  }

  /** The streams a filter reads. */
  function Sources(f: Filter): seq<Stream> {
    match f
    case Prepare(src, _) => [src]
    case ZoomPan(src, _, _) => [src]
    case XFade(first, second, _, _, _) => [first, second]
  }

  /** Some filter before position `j` writes `s`. */
  ghost predicate WrittenBefore(fs: seq<Filter>, j: nat, s: Stream)
    requires j <= |fs|
  {
    exists j' :: 0 <= j' < j && fs[j'].out == s
  }

  /** A stream filter `j` may read: one of the first `inputs` inputs, or an earlier filter's output. */
  ghost predicate Available(fs: seq<Filter>, inputs: nat, j: nat, s: Stream)
    requires j <= |fs|
  {
    (s.InputVideo? && s.index < inputs) || WrittenBefore(fs, j, s)
  }

  /** Every filter reads only streams that exist by the time it runs, and no two filters write the same stream. */
  ghost predicate WellFormed(fs: seq<Filter>, inputs: nat) {
    (forall j, k :: 0 <= j < |fs| && 0 <= k < |Sources(fs[j])| ==> Available(fs, inputs, j, Sources(fs[j])[k]))
    && (forall j1, j2 :: 0 <= j1 < j2 < |fs| ==> fs[j1].out != fs[j2].out)
  }

  /** Streams only segments `i < n` write, each writing `BaseImg(i)` and maybe `ZoomedImg(i)`. */
  ghost predicate SegmentOutputs(fs: seq<Filter>, n: nat) {
    forall j :: 0 <= j < |fs| ==> (fs[j].out.BaseImg? || fs[j].out.ZoomedImg?) && fs[j].out.i < n
  }

  lemma {:induction false} SegmentsWellFormed(images: seq<ImageEntry>, config: RenderConfig, n: nat)
    requires n <= |images|
    ensures WellFormed(SegmentsUpTo(images, config, n), n)
    ensures SegmentOutputs(SegmentsUpTo(images, config, n), n)
    ensures forall i :: 0 <= i < n ==> WrittenBefore(SegmentsUpTo(images, config, n), |SegmentsUpTo(images, config, n)|, SegmentLabel(images, config, i))
  {
    if n > 0 {
      SegmentsWellFormed(images, config, n - 1);
      SegmentFiltersCases(images, config, n - 1);
      var pre, fs := SegmentsUpTo(images, config, n - 1), SegmentsUpTo(images, config, n);
      var m := |pre|;
      assert fs == pre + SegmentFilters(images, config, n - 1);
      assert fs[m] == Prepare(InputVideo(n - 1), BaseImg(n - 1));
      forall j, k | 0 <= j < |fs| && 0 <= k < |Sources(fs[j])| ensures Available(fs, n, j, Sources(fs[j])[k]) {
        if j < m {
          assert fs[j] == pre[j];
          if !(Sources(fs[j])[k].InputVideo? && Sources(fs[j])[k].index < n) {
            var j' :| 0 <= j' < j && pre[j'].out == Sources(pre[j])[k];
            assert fs[j'] == pre[j'];
          }
        } else if j > m {
          assert fs[j].src == BaseImg(n - 1);
        }
      }
      forall j1, j2 | 0 <= j1 < j2 < |fs| ensures fs[j1].out != fs[j2].out {
        if j2 < m {
          assert fs[j1] == pre[j1] && fs[j2] == pre[j2];
        } else if j1 < m {
          assert fs[j1] == pre[j1];
        }
      }
      forall i | 0 <= i < n ensures WrittenBefore(fs, |fs|, SegmentLabel(images, config, i)) {
        if i < n - 1 {
          var j :| 0 <= j < m && pre[j].out == SegmentLabel(images, config, i);
          assert fs[j] == pre[j];
        } else if Zooms(images, config, i) {
          assert fs[m + 1].out == SegmentLabel(images, config, i);
        } else {
          assert fs[m].out == SegmentLabel(images, config, i);
        }
      }
    }
  }

  lemma AssemblyReadsAvailable(images: seq<ImageEntry>, audioPath: string, config: RenderConfig)
    requires 0 < |images|
    ensures var fs := PrimaryAssembly(images, audioPath, config).filters;
      forall j, k :: 0 <= j < |fs| && 0 <= k < |Sources(fs[j])| ==> Available(fs, |images|, j, Sources(fs[j])[k])
  {
    var n := |images|;
    var segs, fades := SegmentsUpTo(images, config, n), FadesUpTo(images, config, n - 1);
    var fs := PrimaryAssembly(images, audioPath, config).filters;
    var m := |segs|;
    SegmentsWellFormed(images, config, n);
    assert fs == segs + fades;
    forall j, k | 0 <= j < |fs| && 0 <= k < |Sources(fs[j])| ensures Available(fs, n, j, Sources(fs[j])[k]) {
      if j < m {
        assert fs[j] == segs[j];
        if !(Sources(fs[j])[k].InputVideo? && Sources(fs[j])[k].index < n) {
          var j' :| 0 <= j' < j && segs[j'].out == Sources(segs[j])[k];
          assert fs[j'] == segs[j'];
        }
      } else {
        var i := j - m;
        assert fs[j] == FadeAt(images, config, i);
        var src := Sources(fs[j])[k];
        if k == 1 || i == 0 {
          assert src == SegmentLabel(images, config, if k == 1 then i + 1 else 0);
          var j' :| 0 <= j' < m && segs[j'].out == src;
          assert fs[j'] == segs[j'];
        } else {
          assert fs[j - 1] == FadeAt(images, config, i - 1);
        }
      }
    }
  }

  lemma AssemblyOutputsDistinct(images: seq<ImageEntry>, audioPath: string, config: RenderConfig)
    requires 0 < |images|
    ensures var fs := PrimaryAssembly(images, audioPath, config).filters;
      forall j1, j2 :: 0 <= j1 < j2 < |fs| ==> fs[j1].out != fs[j2].out
  {
    var n := |images|;
    var segs, fades := SegmentsUpTo(images, config, n), FadesUpTo(images, config, n - 1);
    var fs := PrimaryAssembly(images, audioPath, config).filters;
    var m := |segs|;
    SegmentsWellFormed(images, config, n);
    assert fs == segs + fades;
    forall j1, j2 | 0 <= j1 < j2 < |fs| ensures fs[j1].out != fs[j2].out {
      if j2 < m {
        assert fs[j1] == segs[j1] && fs[j2] == segs[j2];
      } else if j1 < m {
        assert fs[j1] == segs[j1];
        assert fs[j2] == FadeAt(images, config, j2 - m);
      } else {
        assert fs[j1] == FadeAt(images, config, j1 - m);
        assert fs[j2] == FadeAt(images, config, j2 - m);
      }
    }
  }

  /**
   * The filter graph of the assembly is well formed: each filter reads an
   * image input or a stream an earlier filter wrote, no stream is written
   * twice, and the mapped output stream is written by some filter.
   */
  lemma AssemblyWellFormed(images: seq<ImageEntry>, audioPath: string, config: RenderConfig)
    requires 0 < |images|
    ensures var a := PrimaryAssembly(images, audioPath, config);
      WellFormed(a.filters, |images|) && WrittenBefore(a.filters, |a.filters|, a.videoMap)
  {
    var n := |images|;
    var segs := SegmentsUpTo(images, config, n);
    var fs := PrimaryAssembly(images, audioPath, config).filters;
    AssemblyReadsAvailable(images, audioPath, config);
    AssemblyOutputsDistinct(images, audioPath, config);
    SegmentsWellFormed(images, config, n);
    assert fs == segs + FadesUpTo(images, config, n - 1);
    if n > 1 {
      assert fs[|fs| - 1] == FadeAt(images, config, n - 2);
    } else {
      var j :| 0 <= j < |segs| && segs[j].out == SegmentLabel(images, config, 0);
      assert fs[j] == segs[j];
    }
  }

  /** With a single image there is no fade and the output is that image's segment. */
  lemma SingleImage(images: seq<ImageEntry>, audioPath: string, config: RenderConfig)
    requires |images| == 1
    ensures var a := PrimaryAssembly(images, audioPath, config);
      a.filters == SegmentFilters(images, config, 0) && a.videoMap == SegmentLabel(images, config, 0)
  {
    assert SegmentsUpTo(images, config, 1) == [] + SegmentFilters(images, config, 0);
  }

  /** When each image outlasts the transition, every fade starts later than the one before. */
  lemma OffsetsIncrease(images: seq<ImageEntry>, x: real, i: nat)
    requires i + 1 < |images| && images[i + 1].durationS > x
    ensures Offset(images, x, i) < Offset(images, x, i + 1)
  {
  }

  // ---------------------------------------------------------------------
  // Subtitle burn-in

  /** `s.replace(c, r)` for a single character `c`. */
  function ReplaceChar(s: string, c: char, r: string): string {
    if s == [] then [] else (if s[0] == c then r else [s[0]]) + ReplaceChar(s[1..], c, r)
  }

  /** `subtitle_path.replace('\\', '/').replace(':', '\\:')` */
  function EscapeSubtitlePath(path: string): string {
    ReplaceChar(ReplaceChar(path, '\\', "/"), ':', "\\:")
  }

  /** The `-vf` argument of `burn_subtitles`. */
  function BurnSubtitlesFilter(subtitlePath: string): string {
    "ass='" + EscapeSubtitlePath(subtitlePath) + "'"
  }

  lemma {:induction false} ReplaceRemoves(s: string, c: char, r: string)
    requires c !in r
    ensures c !in ReplaceChar(s, c, r)
  {
    if s != [] {
      ReplaceRemoves(s[1..], c, r);
    }
  }

  /** Every backslash of the escaped text stands right before a colon, and every colon right after one. */
  predicate ColonsEscaped(e: string) {
    (forall i :: 0 <= i < |e| && e[i] == '\\' ==> i + 1 < |e| && e[i + 1] == ':')
    && (forall i :: 0 <= i < |e| && e[i] == ':' ==> 0 < i && e[i - 1] == '\\')
  }

  lemma {:induction false} EscapeColonsShape(t: string)
    requires '\\' !in t
    ensures ColonsEscaped(ReplaceChar(t, ':', "\\:"))
    ensures ReplaceChar(t, ':', "\\:") == [] || ReplaceChar(t, ':', "\\:")[0] != ':'
  {
    if t != [] {
      EscapeColonsShape(t[1..]);
      var piece: string := if t[0] == ':' then "\\:" else [t[0]];
      var rest := ReplaceChar(t[1..], ':', "\\:");
      var e := piece + rest;
      assert ReplaceChar(t, ':', "\\:") == e;
      forall i | 0 <= i < |e| && e[i] == '\\' ensures i + 1 < |e| && e[i + 1] == ':' {
        if i >= |piece| { assert e[i] == rest[i - |piece|]; }
      }
      forall i | 0 <= i < |e| && e[i] == ':' ensures 0 < i && e[i - 1] == '\\' {
        if i >= |piece| {
          assert e[i] == rest[i - |piece|];
          if i > |piece| { assert e[i - 1] == rest[i - 1 - |piece|]; }
        }
      }
    }
  }

  /** The escaped path holds a backslash only where it escapes a colon, and no colon unescaped. */
  lemma EscapedPathShape(path: string)
    ensures ColonsEscaped(EscapeSubtitlePath(path))
  {
    ReplaceRemoves(path, '\\', "/");
    EscapeColonsShape(ReplaceChar(path, '\\', "/"));
  }

  /** What FFmpeg reads back: `\:` is a colon. */
  function Unescape(e: string): string
    decreases |e|
  {
    if e == [] then []
    else if |e| >= 2 && e[0] == '\\' && e[1] == ':' then [':'] + Unescape(e[2..])
    else [e[0]] + Unescape(e[1..])
  }

  lemma {:induction false} UnescapeColons(t: string)
    requires '\\' !in t
    ensures Unescape(ReplaceChar(t, ':', "\\:")) == t
  {
    if t != [] {
      UnescapeColons(t[1..]);
      var rest := ReplaceChar(t[1..], ':', "\\:");
      if t[0] == ':' {
        assert ReplaceChar(t, ':', "\\:") == "\\:" + rest;
        assert ("\\:" + rest)[2..] == rest;
      } else {
        assert ReplaceChar(t, ':', "\\:") == [t[0]] + rest;
        assert ([t[0]] + rest)[1..] == rest;
      }
    }
  }

  /** Escaping loses nothing but the direction of the separators. */
  lemma EscapeRoundTrip(path: string)
    ensures Unescape(EscapeSubtitlePath(path)) == ReplaceChar(path, '\\', "/")
  {
    ReplaceRemoves(path, '\\', "/");
    UnescapeColons(ReplaceChar(path, '\\', "/"));
  }

  // ---------------------------------------------------------------------
  // Background music

  /** A directory entry as `os.listdir` and `os.path.isfile` see it. */
  datatype DirEntry = DirEntry(name: string, isFile: bool)

  const SupportedFormats: seq<string> := [".mp3", ".wav", ".aac", ".ogg", ".m4a", ".flac"]

  /** `f.lower().endswith(supported_formats)` */
  predicate IsMusicName(name: string) {
    exists k :: 0 <= k < |SupportedFormats| && EndsWith(Lower(name), SupportedFormats[k])
  }

  /** The music files of a listing, in listing order. */
  function MusicFiles(entries: seq<DirEntry>): seq<string> {
    if entries == [] then []
    else
      var e := entries[|entries| - 1];
      MusicFiles(entries[..|entries| - 1]) + if e.isFile && IsMusicName(e.name) then [e.name] else []
  }

  /** A name is a candidate exactly when the listing has it as a file with a supported extension. */
  lemma {:induction false} MusicFilesMembers(entries: seq<DirEntry>, name: string)
    ensures name in MusicFiles(entries) <==>
      exists k :: 0 <= k < |entries| && entries[k] == DirEntry(name, true) && IsMusicName(name)
  {
    if entries != [] {
      var init := entries[..|entries| - 1];
      MusicFilesMembers(init, name);
      if name in MusicFiles(init) {
        var k :| 0 <= k < |init| && init[k] == DirEntry(name, true) && IsMusicName(name);
        assert entries[k] == init[k];
      }
      if exists k :: 0 <= k < |entries| && entries[k] == DirEntry(name, true) && IsMusicName(name) {
        var k :| 0 <= k < |entries| && entries[k] == DirEntry(name, true) && IsMusicName(name);
        if k < |init| { assert init[k] == entries[k]; }
      }
    }
  }

  lemma {:induction false} MusicFilesBound(entries: seq<DirEntry>)
    ensures |MusicFiles(entries)| <= |entries|
  {
    if entries != [] {
      MusicFilesBound(entries[..|entries| - 1]);
    }
  }

  /**
   * `_select_background_music_file`: `None` when the directory is missing
   * or holds no music file, otherwise the path of the file `random.choice`
   * drew, whose index is `choice`.
   */
  function SelectBackgroundMusicFile(musicDir: string, isDir: bool, entries: seq<DirEntry>, choice: nat): (r: Option<string>)
    requires MusicFiles(entries) != [] ==> choice < |MusicFiles(entries)|
    ensures r.None? <==> !isDir || MusicFiles(entries) == []
    ensures r.Some? ==> exists name :: name in MusicFiles(entries) && r.value == JoinPath(musicDir, name)
  {
    if !isDir then None
    else
      var musicFiles := MusicFiles(entries);
      if musicFiles == [] then None
      else
        assert musicFiles[choice] in musicFiles;
        Some(JoinPath(musicDir, musicFiles[choice]))
  }

  /** `max(0.0, min(1.0, v))` */
  function ClampVolume(v: real): (r: real)
    ensures 0.0 <= r <= 1.0
    ensures 0.0 <= v <= 1.0 ==> r == v
    ensures v < 0.0 ==> r == 0.0
    ensures v > 1.0 ==> r == 1.0
  {
    if 1.0 < v then 1.0 else if v < 0.0 then 0.0 else v
  }

  lemma ClampMonotone(v: real, w: real)
    requires v <= w
    ensures ClampVolume(v) <= ClampVolume(w)
  {
  }

  /** What `mix_background_music` does once the music file and the narration length are known. */
  datatype MixPlan =
    | CopyMain
      // no music: the narration is copied as it is
    | Fail
      // the narration length could not be determined
    | Mix(musicPath: string, mainVolume: real, musicVolume: real, durationS: real)
      // narration at full volume, the music looped under it, cut to the narration's length

  function MixBackgroundMusic(selected: Option<string>, mainDurationS: real, backgroundMusicVolume: real): (r: MixPlan)
    ensures r.CopyMain? <==> selected.None?
    ensures r.Fail? <==> selected.Some? && mainDurationS <= 0.0
    ensures r.Mix? ==>
      r.musicPath == selected.value && r.mainVolume == 1.0 && r.durationS == mainDurationS > 0.0
      && r.musicVolume == ClampVolume(backgroundMusicVolume)
      && 0.0 <= r.musicVolume <= 1.0
      && (0.0 <= backgroundMusicVolume <= 1.0 ==> r.musicVolume == backgroundMusicVolume)
  {
    match selected
    case None => CopyMain
    case Some(path) =>
      if mainDurationS <= 0.0 then Fail
      else Mix(path, 1.0, ClampVolume(backgroundMusicVolume), mainDurationS)
  }
}
