# AiVidLab core, modelled in Dafny

AiVidLab turns a script into a narrated video with subtitles:

- The orchestrator checks that a script exists and pulls its headings out of the `:heading::` markup.
- Each pacing chunk of the narration gets an image, and the images are listed with their display durations.
- The audio analyser flattens the Whisper transcript into timed words and assigns them to silence-delimited chunks.
- The subtitle processor aligns the headings with the spoken words and groups the remaining words into timed lines. It then writes Advanced SubStation Alpha dialogue lines, sorted by their start stamp.
- The image generator calls a primary service until that service first fails, and from then on calls only a fallback service.
- The video renderer prepares, zooms and cross-fades the images into one FFmpeg filter graph. It also escapes the subtitle path for burn-in and guards the background-music mix.

The model keeps the deterministic logic of each of these steps. Services, FFmpeg and the file system are outside the model: what they return becomes a parameter.

Files and modules:

- `wrappers.dfy`: `Wrappers`, holding `Option` and `Result`.
- `text.dfy`: `Text`, Python's string built-ins on ASCII (`lower`, `strip`, `split`, `join`, `endswith`, `os.path.join`), where whitespace is space, `\t` to `\r` and the separators `\x1c` to `\x1f`. It also holds `StringOrder`, Python's string comparison.
- `decimal.dfy`: `Decimal`, decimal digits and zero padding (`{n:02d}`, `{i:03d}`).
- `ass_time.dfy`: `AssTime`, the `H:MM:SS.cc` time stamp.
- `normalize.dfy`: `Normalize`, the text normalisation used for fuzzy matching.
- `sorting.dfy`: `StableSort`, Python's stable `list.sort(key=...)`.
- `audio_analyzer.dfy`: `AudioAnalyzer`, the word extraction and the word-to-chunk alignment.
- `heading_align.dfy`: `HeadingAlign`, `SubtitleProcessor._align_headings`.
- `subtitles.dfy`: `Subtitles`, the dialogue section of `SubtitleProcessor.process`.
- `orchestrator.dfy`: `Orchestrator`, the script gate, heading extraction and image listing.
- `image_generator.dfy`: `ImageGeneration`, the image generator with its sticky failover.
- `renderer.dfy`: `VideoRenderer`. It covers `src/processors/video_renderer.py` and the duplicate `assemble_primary_video` and `burn_subtitles` in `video_assemply_burnout.py` (lines 58-162 and 164-192). The duplicate repeats the same statements line for line, so one model serves both. Rows below cite whichever copy's lines they model; the other copy has the same lines.

Units and conventions:

- Word times are whole milliseconds.
- Renderer durations, frame rates and volumes are `real`.
- Python's `int()` on a float truncates toward zero, and `VideoRenderer.Trunc` writes that out.

## Model

| member | source | states |
|---|---|---|
| Orchestrator.RequireScript | src/orchestrator.py:100-101 | A missing or empty script is a failure; any other script passes unchanged. |
| Orchestrator.ScanEnclosed | src/orchestrator.py:179 | Every match of `:(.*?)::` is preceded by `:` and closed by `::`, and no line break or earlier `::` lies in between. |
| Orchestrator.ScanOrdered | src/orchestrator.py:179 | The matches come left to right and do not overlap. |
| Orchestrator.HeadingInScript | src/orchestrator.py:179 | The k-th heading stands in the script as `:` + heading + `::` at the k-th match, and holds no line break or `::`. |
| Orchestrator.NoDoubleColonNoHeadings | src/orchestrator.py:179 | A script without `::` has no headings. |
| Orchestrator.FindHeadingsOfMarkup | src/orchestrator.py:179 | Marking up plain headings as `:h::` and extracting them gives back exactly those headings, in order. |
| Orchestrator.ImageNameInjective | src/orchestrator.py:171 | `image_{i:03d}.png` names differ for different chunk indices. |
| Orchestrator.ImagePathsDistinct | src/orchestrator.py:171 | Images of different chunks are written to different paths in the image directory. |
| Orchestrator.KeptIndicesFacts | src/orchestrator.py:159-175 | The chunks that get an image are exactly those whose image bytes are non-empty, each once, in increasing order. |
| Orchestrator.BuildImageSequence | src/orchestrator.py:159-175 | The loop lists exactly the entries of the chunks with a non-empty image, in chunk order. |
| Orchestrator.ImageSequenceFacts | src/orchestrator.py:159-175 | Every listed entry is the path and `duration_ms / 1000` of some chunk with an image; every chunk with an image is listed; there are no more entries than chunks. |
| Orchestrator.KeptBound | src/orchestrator.py:159-175 | No more images are kept than chunks were processed. |
| AudioAnalyzer.ExtractPosition | src/processors/audio_analyzer.py:66-72 | Word `w` of segment `s` lands at position (words of earlier segments) + `w` of the flat list, with its text, start and end. |
| AudioAnalyzer.ExtractLength | src/processors/audio_analyzer.py:66-72 | The flat list holds as many words as all segments together. |
| AudioAnalyzer.NoSegmentsNoWords | src/processors/audio_analyzer.py:70 | A transcript without `segments` yields no words. |
| AudioAnalyzer.ChunkLengths | src/processors/audio_analyzer.py:83 | Without silence chunks, the whole audio is one chunk; otherwise the chunk lengths are used as given. The result is never empty. |
| AudioAnalyzer.TakeWords | src/processors/audio_analyzer.py:96-98 | The inner loop stops at the first word at or after the chunk end, and collects the texts of the words it passed. |
| AudioAnalyzer.AlignTextToChunks | src/processors/audio_analyzer.py:85-108 | The loop produces exactly `PacingFrom`, the recursive definition of the chunk alignment whose properties the lemmas below state. |
| AudioAnalyzer.RangesCount | src/processors/audio_analyzer.py:91-106 | There are at most as many pacing chunks as audio chunks. |
| AudioAnalyzer.PacingChunks | src/processors/audio_analyzer.py:100-104 | Each pacing chunk is its audio chunk's duration plus the space-joined texts of its word range. |
| AudioAnalyzer.RangesContiguous | src/processors/audio_analyzer.py:91-106 | The word ranges are non-empty and follow one another without gap, in increasing chunk order. |
| AudioAnalyzer.ContiguousOrdered | src/processors/audio_analyzer.py:91-106 | Later pacing chunks hold later words of later audio chunks. |
| AudioAnalyzer.RangesPlaceWord | src/processors/audio_analyzer.py:96 | A word assigned to a chunk starts before that chunk's end and, with sorted starts, at or after its beginning. |
| AudioAnalyzer.RangesCover | src/processors/audio_analyzer.py:91-106 | With sorted starts, every word starting before the end of the audio is assigned to some pacing chunk. |
| AudioAnalyzer.AssignedBeforeEnd | src/processors/audio_analyzer.py:96 | Every word assigned to a chunk starts before the end of the audio, so words starting later are dropped. |
| AudioAnalyzer.ChunkStep | src/processors/audio_analyzer.py:91-106 | One turn of the chunk loop adds a pacing chunk exactly when it collected words. |
| AudioAnalyzer.Process | src/processors/audio_analyzer.py:36-60 | Empty audio gives no chunks and no words; otherwise the words are the flattened transcript, the chunks are their alignment to the chunk lengths, and there are no more chunks than lengths. |
| Normalize.RemovePunctuation | subtitle_gen.py:39 | Only word characters and whitespace survive, and lower-case input stays lower-case. |
| Normalize.NormalizeShape | subtitle_gen.py:35-41 | Normalised text is lower-case word characters separated by single spaces, with no space at either end. |
| Normalize.NormalizeIdempotent | subtitle_gen.py:35-41 | Normalising twice is normalising once. |
| Normalize.NormalizedWordsEmpty | subtitle_gen.py:35-41 | Normalised text splits into no words exactly when it is empty. |
| Normalize.RemovePunctuationFilter | subtitle_gen.py:39 | Removing punctuation works character by character: it distributes over concatenation, and keeps a single character exactly when it is a word character or whitespace. |
| Normalize.CollapseWords | subtitle_gen.py:40 | Collapsing each whitespace run into one space leaves the words unchanged. |
| Normalize.NormalizeWords | subtitle_gen.py:35-41 | The normalised text splits into the same words as the lower-cased text with its punctuation removed. |
| AssTime.FieldsRecompose | subtitle_gen.py:29-32 | Minutes and seconds are below 60 and centiseconds below 100; the fields add back up to the time cut to 10 ms. |
| AssTime.TailShape | subtitle_gen.py:33 | After the hours come `:MM:SS.cc` with two-digit fields that read back as the minutes, seconds and centiseconds. |
| AssTime.FormatParseRoundTrip | subtitle_gen.py:24-33 | Reading a formatted stamp back gives the time clamped at zero and cut to 10 ms. |
| AssTime.NegativeFormatsAsZero | subtitle_gen.py:26-27 | A negative time is written `0:00:00.00`. |
| AssTime.FormatOrderedWithinHourWidth | subtitle_gen.py:33 | When the hours have the same number of digits, the stamps compare as strings in time order. |
| AssTime.HourWidthBreaksStringOrder | subtitle_gen.py:33 | At 10 hours the string order is no longer the time order: `10:00:00.00` sorts before `9:00:00.00`. |
| Decimal.NatToStringRoundTrip | subtitle_gen.py:33 | `{n:d}` reads back as `n`. |
| Decimal.ZeroPadRoundTrip | subtitle_gen.py:33 | `{n:02d}` reads back as `n`. |
| Decimal.ZeroPadLength | subtitle_gen.py:33 | A number below 10^width is padded to exactly the width. |
| StableSort.SortPermutes | subtitle_gen.py:238 | Sorting keeps exactly the same elements, with multiplicity. |
| StableSort.SortSorted | subtitle_gen.py:238 | Under a total preorder, the sorted list is in order. |
| StableSort.SortStable | subtitle_gen.py:238 | Elements with equal keys keep their relative order. |
| StableSort.SortAllPairs | subtitle_gen.py:132 | A property of every pair of distinct positions that holds before sorting still holds after it. |
| HeadingAlign.BestInWins | subtitle_gen.py:117-123 | The chosen block beats 0.7 and every earlier eligible block, and no later one beats it; there is none exactly when no eligible block beats 0.7. |
| HeadingAlign.BestMatch | subtitle_gen.py:103-123 | The loop over the matching blocks returns the match of `BestIn`'s winning block, or none when `BestIn` finds none. |
| HeadingAlign.HeadingWords | subtitle_gen.py:95-98 | A heading has no words exactly when it normalises to the empty string. |
| HeadingAlign.AdmitFacts | subtitle_gen.py:95-129 | A heading is aligned exactly when it has words and some free block beats the threshold; the match keeps the heading text, uses only free words, and spans its block. |
| HeadingAlign.AdmitWins | subtitle_gen.py:117-129 | An aligned heading is matched by the winning block. |
| HeadingAlign.AlignHeadings | subtitle_gen.py:84-134 | No headings or no words give no matches; otherwise the matches are the aligned headings sorted by start, and the used words are their union. |
| HeadingAlign.AlignUpToDisjoint | subtitle_gen.py:103-129 | Matches never share a word, the used set is their union, and there is at most one match per heading. |
| HeadingAlign.AlignUpToAccepted | subtitle_gen.py:103-129 | Every match carries the text of one of the headings and spans a block the matcher returned for that heading's words. |
| HeadingAlign.SkippedHeading | subtitle_gen.py:95-123 | A heading adds nothing exactly when it has no words or no free block beats the threshold. |
| HeadingAlign.SortMatches | subtitle_gen.py:132 | Sorting by start keeps the same matches, still disjoint, and covers the same words. |
| HeadingAlign.AlignedHeadingsFacts | subtitle_gen.py:84-134 | The result is sorted by start, pairwise disjoint, at most one per heading, and each match is accepted; the used words are exactly the words of the matches. |
| HeadingAlign.StartLeTotalPreorder | subtitle_gen.py:132 | Ordering by start time is a total preorder. |
| Subtitles.LinesGrouping | subtitle_gen.py:198-235 | The lines are well-formed, in order, without overlap, each starting for a reason, and every word not used by a heading is in a line. |
| Subtitles.GroupUpToGrouping | subtitle_gen.py:198-228 | After any prefix of words, the emitted lines plus the pending one group that prefix. |
| Subtitles.NextGrouping | subtitle_gen.py:198-228 | One turn of the loop keeps the grouping. |
| Subtitles.NewLine | subtitle_gen.py:211-228 | Starting a line at a free word after a flush or a break keeps the grouping. |
| Subtitles.ExtendLine | subtitle_gen.py:228 | Adding a free word that does not break the line keeps the grouping. |
| Subtitles.SkipUsed | subtitle_gen.py:200-208 | A word used by a heading joins no line. |
| Subtitles.GroupLines | subtitle_gen.py:198-235 | The loop's entries are exactly one `Default` line per line of `Lines`, in order, so `LinesGrouping` holds of what it writes. |
| Subtitles.UsedStep | subtitle_gen.py:200-208 | A used word flushes the pending line. |
| Subtitles.FreeStep | subtitle_gen.py:211-228 | A free word flushes and restarts the line exactly on a break, and otherwise joins it. |
| Subtitles.HeadingLines | subtitle_gen.py:185-190 | One `HeadingStyle` line per aligned heading, in order. |
| Subtitles.EscapeNewlinesFacts | subtitle_gen.py:188 | An escaped heading text holds no line break, and text without one is unchanged. |
| Subtitles.SortKeyOfDialogue | subtitle_gen.py:238 | The sort key of a written dialogue line is its formatted start stamp. |
| Subtitles.CommaSplit | subtitle_gen.py:238 | Splitting at commas gives back the first field and what follows. |
| Subtitles.DialogueOrder | subtitle_gen.py:238 | Lines whose starts have the same hour width sort in start order. |
| Subtitles.EntryLeTotalPreorder | subtitle_gen.py:238 | Comparing the sort keys is a total preorder. |
| Subtitles.WrittenOrder | subtitle_gen.py:238 | The written lines are the entries, sorted by key, and entries with equal keys keep the order they were appended in. |
| Subtitles.Process | subtitle_gen.py:137-242 | With words, the content is the header followed by the heading and default lines sorted by start stamp, joined by line breaks; without words nothing is produced. |
| ImageGeneration.FullPromptKeepsPrompt | src/processors/image_generator.py:91-94 | The full prompt starts with the prompt, and equals it exactly when the negative terms are blank. |
| ImageGeneration.FullPromptAvoids | src/processors/image_generator.py:93-94 | Non-blank negative terms follow the prompt after `. Avoid: `, stripped. |
| ImageGeneration.AttemptFlag | src/processors/image_generator.py:97-108 | The failure flag is set exactly by a non-blank request whose primary call did not deliver, and it is never cleared. |
| ImageGeneration.AttemptCalls | src/processors/image_generator.py:87-119 | The primary service is called, with the full prompt, exactly when the prompt is non-blank and the flag is clear. The fallback is called, with the plain prompt, exactly when it exists and the primary was skipped or did not deliver. The primary call always comes first. A blank prompt calls no service. |
| ImageGeneration.AttemptImage | src/processors/image_generator.py:97-122 | The image is non-empty and comes from the service that delivered it; nothing is returned exactly when the prompt is blank or no service that was called delivered. |
| ImageGeneration.FlagNeverResets | src/processors/image_generator.py:108 | Once set, the failure flag stays set whatever requests follow. |
| ImageGeneration.NoPrimaryAfterFailure | src/processors/image_generator.py:97 | After a failure, no later request reaches the primary service. |
| ImageGeneration.FlagStaysClear | src/processors/image_generator.py:97-108 | While every request is blank or delivered by the primary service, the flag stays clear. |
| ImageGeneration.ImageGenerator.Init | src/processors/image_generator.py:56-61 | A new generator has its model name and fallback setting, a clear flag and no calls. |
| ImageGeneration.ImageGenerator.Process | src/processors/image_generator.py:74-122 | One request returns the image of `Attempt` on the flag before it, sets the flag to `Attempt`'s and appends `Attempt`'s calls to the log. |
| ImageGeneration.Create | src/processors/image_generator.py:38-72 | It fails exactly on an empty API key or model name, with the source's message. A fallback is configured exactly when its library is present, a key is given or found in the environment, and its setup does not raise. |
| VideoRenderer.TruncTowardZero | src/processors/video_renderer.py:228 | `int()` drops the fraction toward zero. |
| VideoRenderer.BuildSegments | src/processors/video_renderer.py:206-244 | The loop builds the inputs, segment filters and labels of `ImageInputs`, `SegmentsUpTo` and `SegmentLabels`, and the next input index is the number of images. |
| VideoRenderer.BuildFadeChain | src/processors/video_renderer.py:247-264 | The chain appends the cross-fades of `FadesUpTo` and ends on `FinalStream`. |
| VideoRenderer.AssemblePrimaryVideo | src/processors/video_renderer.py:202-286 | No images give no command; otherwise the command is `PrimaryAssembly`, whose inputs, fades and well-formedness the lemmas below state. |
| VideoRenderer.InputIndexing | src/processors/video_renderer.py:212-215 | Image `i` is input `i`, looped at the frame rate for its duration, and its preparing filter reads `[i:v]`. The audio is the input right after the images. |
| VideoRenderer.SegmentsPrefix | src/processors/video_renderer.py:212-244 | The filters of the first m images are a prefix of those of the first n. |
| VideoRenderer.SegmentsCount | video_assemply_burnout.py:88-120 | Each image adds one or two filters: the preparing filter and, when it zooms, the zoom filter. |
| VideoRenderer.FadeChain | src/processors/video_renderer.py:247-264 | Fade `i` joins the previous output (the first segment for `i = 0`) with segment `i+1`. Its offset is the first `i+1` durations minus `i+1` transition lengths, and the video map is the last fade. |
| VideoRenderer.OffsetsIncrease | video_assemply_burnout.py:123-137 | When each next image lasts longer than the transition, the fade offsets increase. |
| VideoRenderer.SingleImage | video_assemply_burnout.py:139-140 | A single image maps its own segment, with no fade. |
| VideoRenderer.SegmentsWellFormed | src/processors/video_renderer.py:212-244 | Segment filters read only image inputs or earlier outputs, write distinct streams, and produce every segment label. |
| VideoRenderer.AssemblyReadsAvailable | src/processors/video_renderer.py:206-264 | Every filter of the graph reads an image input or a stream written by an earlier filter. |
| VideoRenderer.AssemblyOutputsDistinct | src/processors/video_renderer.py:206-264 | No two filters write the same stream. |
| VideoRenderer.AssemblyWellFormed | src/processors/video_renderer.py:206-277 | The filter graph is well-formed, and the mapped video stream is written by it. |
| VideoRenderer.EscapedPathShape | video_assemply_burnout.py:182 | In the escaped subtitle path every colon is escaped and every backslash escapes a colon. |
| VideoRenderer.EscapeRoundTrip | src/processors/video_renderer.py:306 | Undoing the colon escapes gives the path with backslashes turned into slashes. |
| VideoRenderer.MusicFilesMembers | src/processors/video_renderer.py:98-102 | A name is a candidate exactly when the listing has it as a file whose lower-cased name ends in a supported extension. |
| VideoRenderer.MusicFilesBound | src/processors/video_renderer.py:98-102 | There are no more candidates than entries. |
| VideoRenderer.SelectBackgroundMusicFile | src/processors/video_renderer.py:83-111 | There is no selection exactly when the directory is missing or has no music file; otherwise the selection is a candidate joined to the directory. |
| VideoRenderer.ClampVolume | src/processors/video_renderer.py:156 | The volume is clamped into [0, 1], and volumes already in range are kept. |
| VideoRenderer.ClampMonotone | src/processors/video_renderer.py:156 | Clamping keeps the order of volumes. |
| VideoRenderer.MixBackgroundMusic | src/processors/video_renderer.py:136-180 | Without music the main audio is copied. A non-positive duration fails. Otherwise the music is mixed for the main duration, at full main volume, and the music volume is the requested one clamped into [0, 1]. |
| Text.BlankIffStripEmpty | src/processors/image_generator.py:87 | A string is blank exactly when stripping it leaves nothing. |
| Text.JoinPathInjective | src/processors/video_renderer.py:109 | Joining one directory with different names gives different paths. |
| Text.WordsEmptyIffAllSpace | subtitle_gen.py:98 | A string splits into no words exactly when it is all whitespace. |
| Text.WordsStrip | subtitle_gen.py:40 | Stripping both ends does not change how a string splits into words. |

## Left out

- The fallback of `SubtitleProcessor.process` (subtitle_gen.py:155-169) is not modelled. Without word timestamps it re-runs the audio analysis, and the model then returns `None`.
- `_generate_header` is not modelled. The header is a parameter of `Subtitles.Process`, because it only formats configuration values into text.
- Times are whole milliseconds. Python's `round(seconds * 1000.0)` on floats and `str(float)` in the FFmpeg arguments are not modelled.
- Fuzzy matching: `difflib.SequenceMatcher.get_matching_blocks` is a parameter of the alignment (`matcher`). The model keeps the blocks' bounds and the 0.7 ratio threshold, not difflib's algorithm.
- Text handling is ASCII only. `lower`, `\w`, `\s` and `strip` leave out non-ASCII letters and non-ASCII whitespace (such as `\x85` and `\xa0`).
- Whisper transcription and pydub decoding are not modelled. The transcript is an input.
- `_chunk_on_silence` is not modelled: the lengths of the silence chunks are an input. The `or [audio_segment]` default is modelled by `ChunkLengths`.
- Running FFmpeg and ffprobe, copying files, writing image files, `os.listdir` and `os.path.isdir` are not modelled. Their results are inputs, and commands are returned as values.
- `random.choice` is a parameter `choice` of `SelectBackgroundMusicFile`.
- The text of the filter graph is not modelled. Filters are structured values, so the scale, pad and zoom expression strings (including the cosine zoom curve) are left out.
- The bodies of the Gemini and Bytez generators and `_convert_to_png` are not modelled. What each service would return is a parameter of `ImageGenerator.Process`, and the calls made are recorded in a ghost log.
- `VideoRenderer.SelectBackgroundMusicFile`: only the file part of each listed name is modelled. `os.path.join` is modelled for a relative name and a plain directory string.
- `Subtitles.Process` states the written order through the sort key, as the source does. The string key follows time order only while the hour stamps have the same width (`AssTime.HourWidthBreaksStringOrder`).
- The merging and splitting of pacing chunks by minimum and maximum duration is not modelled, because no modelled file performs it. `_chunk_on_silence` reads only the silence length and threshold.
- The other helpers of the repository (prompt and script generation, text-to-speech, the pipeline scripts) are not part of this model.
