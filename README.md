# subgen-whisperx decision logic, in Dafny

A model of the decision and string logic of `subgen_whisperx.py`, the
subtitle generator that turns video or audio files into SubRip subtitles
with ffmpeg and whisperx. The collaborators (ffmpeg, whisperx, torch, the
file system) are replaced by inputs. What is modelled:

- **Device choice** (`get_device`, module `Device`): an optional preference
  and the outcome of the CUDA probe (available, unavailable or raised) give
  "cuda" or "cpu".
- **Media classification and discovery** (`is_media_file`,
  `get_media_files`, module `Media`): a file's ffprobe result (failed, or
  the codec types of its streams) is classified. The output of `os.walk`
  and an optional single file then become the candidate list, or `None` in
  two distinct ways. `GetMediaFiles` keeps the source's loops and is proved
  equal to the specification function `MediaFiles`. Lemmas about
  `MediaFiles` give soundness, completeness, walk order and both `None`
  cases.
- **Path derivations** (module `Paths`, over POSIX `os.path` semantics):
  - the extracted-audio name `audio-{stem}.mp3`;
  - the subtitle stem `basename(p.rsplit(".", 1)[0])`, and the subtitle path
    `join(dirname(p), stem + ".ai-" + language + ".srt")`, which takes that stem
    as `main` computed it.
- **Audio extraction** (`extract_audio`, module `Extraction`): the returned
  name does not depend on the ffmpeg outcome, and the stopwatch gets one
  start and one stop.
- **SubRip rendering and post-processing** (`generate_subtitles`,
  `post_process`, module `Subtitles`): the rendering loop is proved equal to
  a specification function. Lemmas show that this function numbers the
  blocks 1..n in order and lays out each SubRip block. `post_process` is
  modelled as the code behaves: it iterates the characters of a `str`, so it
  returns its input unchanged. The per-line clipping rule the loop was
  written around is modelled as its own function, `ClipLine`.
- **String built-ins** (module `Text`): `rfind`, `rsplit(c, 1)[0]`,
  substring `in`, ASCII `lower`, `strip`, `join` and decimal rendering.

Where the code's comments and docstrings promise more than the code does,
the model follows the code:

- `post_process` clips nothing: `for line in subtitles` yields single
  characters.
- The clipping rule cuts before the last `' '` among the first 150
  characters. It does not look for any whitespace at or before position
  150. When a space occurs among the first 150 characters, a clipped line
  therefore has at most 149 characters; without one it is exactly
  `line[:150]`.
- `get_media_files` returns `None` when the single file is invalid, and
  this throws away valid directory results.
- The extracted audio is always named `audio-{stem}.mp3`. The
  docstring's `ValueError` for files over 25 MB has no code behind it.

## Model

| member | source | states |
|---|---|---|
| `Device.GetDevice` | subgen_whisperx.py:49-61 | always "cuda" or "cpu", never an error; "cuda" exactly when the preference is absent or contains "cuda" case-insensitively and the probe returns true; a false or raising probe, or any other preference, gives "cpu" |
| `Device.CommandLineChoices` | subgen_whisperx.py:262-268 | for the two values the case-sensitive `choices` admit, "cpu" always gives "cpu" and "cuda" gives "cuda" exactly when the probe reports CUDA available |
| `Device.MainLoweringIrrelevant` | subgen_whisperx.py:326 | lower-casing the preference before `get_device` (as `main` does) never changes the device chosen |
| `Text.Lower` | subgen_whisperx.py:49 | `s.lower()` keeps the length, maps each upper-case ASCII letter to its lower-case partner and leaves every other character; no upper-case letter remains |
| `Text.LowerIdempotent` | subgen_whisperx.py:49 | lower-casing an already lower-cased string changes nothing |
| `Text.Contains` | subgen_whisperx.py:49 | the substring test `"cuda" in s` holds exactly when "cuda" occurs at some index of `s` |
| `Media.IsMediaFile` | subgen_whisperx.py:65-81 | valid iff there is a stream and the first one's codec type is "audio" or "video"; audio iff it is "audio"; audio implies valid; a failed probe gives (False, False) |
| `Media.GetMediaFiles` | subgen_whisperx.py:84-117 | the nested collection loops and both early returns compute exactly `MediaFiles` (directory media in walk order, then the single file; `None` on an empty directory result or an invalid file) |
| `Media.CollectFiles` | subgen_whisperx.py:99-103 | the inner loop over one walked directory yields exactly the valid media among its joined paths, in order, with their audio flags |
| `Media.KeepAppend` | subgen_whisperx.py:98-103 | collecting over a concatenation of paths is the concatenation of the collections: the walk order is kept and nothing is re-sorted |
| `Media.KeepSound` | subgen_whisperx.py:101-103 | every collected entry is a walked path classified valid, with the classifier's audio flag |
| `Media.KeepComplete` | subgen_whisperx.py:101-103 | every walked path classified valid is collected with its audio flag |
| `Media.KeepEmpty` | subgen_whisperx.py:105-107 | the directory result is empty exactly when no walked file is valid media |
| `Media.MediaFilesNone` | subgen_whisperx.py:97-117 | `None` exactly when a directory is given and no walked file is valid, or a file is given and is not valid media |
| `Media.MediaFilesFound` | subgen_whisperx.py:97-117 | a list result is empty when neither argument is given; every entry is valid media with its audio flag; directory entries come first in walk order, all valid walked files among them; a given file is the last entry |
| `Paths.Basename` | subgen_whisperx.py:141 | `os.path.basename(p)` is the suffix of `p` after its last '/' (all of `p` when it has none) and contains no '/' |
| `Paths.Dirname` | subgen_whisperx.py:341 | `os.path.dirname(p)` is a prefix of `p`, "" when `p` has no '/', either all slashes or not ending in '/', and only slashes lie between it and the base name |
| `Paths.PathJoin` | subgen_whisperx.py:100 | `os.path.join(a, b)` ends with `b`; an absolute `b` is the whole result; otherwise `a` comes first, followed by one '/' exactly when `a` is non-empty and does not end in '/' |
| `Paths.JoinSplits` | subgen_whisperx.py:340-342 | `dirname` and `basename` of a directory joined with a bare name give back the directory and the name |
| `Paths.SplitextRoot` | subgen_whisperx.py:141 | `os.path.splitext(p)[0]` is a prefix of `p`; when it is shorter it ends just before the last '.', which lies in the last component |
| `Paths.SplitextCutsExtension` | subgen_whisperx.py:141 | on one path component `splitext` cuts exactly when there is an extension: a '.' with a non-dot character before it ("movie.mp4" loses ".mp4"; "movie" and ".bashrc" stay whole) |
| `Paths.ExtractedAudioName` | subgen_whisperx.py:140-142 | the audio name has no '/' (it is relative to the working directory), starts "audio-", ends ".mp3"; its stem is the source's base name, cut before the last '.' exactly when the base name has an extension |
| `Extraction.ExtractAudio` | subgen_whisperx.py:139-165 | returns the derived audio name whether or not ffmpeg raised, and records exactly one start and then one stop of "Audio Extraction" |
| `Extraction.Stopwatch.Start` | subgen_whisperx.py:139 | a start call is recorded after all earlier calls |
| `Extraction.Stopwatch.Stop` | subgen_whisperx.py:164 | a stop call is recorded after all earlier calls |
| `Paths.SubtitleStem` | subgen_whisperx.py:312 | the stem `main` derives is a single path component (no '/') |
| `Paths.SubtitlePath` | subgen_whisperx.py:337-342 | given the stem `main` derived (which has no '/', by `SubtitleStem`'s and `SubtitleStemFixed`'s contracts) and a language code without '/', the subtitle file lies in the source's directory and is named stem + ".ai-" + language + ".srt" |
| `Paths.SubtitleStemCrossesDirectory` | subgen_whisperx.py:312 | for "dir.ext/file" where the file has no '.', the stem is "dir", taken from the directory name |
| `Paths.SubtitleStemCrossesDirectoryExample` | subgen_whisperx.py:312 | "clips.v2/intro" gets the stem "clips", and "intro" does not start with it |
| `Paths.SubtitleStemLeadingDot` | subgen_whisperx.py:312 | a path whose only '.' is its first character gets the empty stem |
| `Paths.SubtitleStemLeadingDotExample` | subgen_whisperx.py:312 | "./videos/intro" gets the stem "" |
| `Paths.SubtitleStemFixed` | subgen_whisperx.py:312 | the corrected stem is a prefix of the file's own base name, ends just before its last '.', and is the whole base name exactly when that has no '.' ("input.mp4" gives "input") |
| `Paths.StemsAgree` | subgen_whisperx.py:312 | the as-written and corrected stems agree whenever the base name has a '.' or the path has none |
| `Text.RSplitHead` | subgen_whisperx.py:232 | `s.rsplit(c, 1)[0]` is a prefix of `s`; it is all of `s` when `c` is absent; otherwise it ends just before the last `c` |
| `Text.JoinEnds` | subgen_whisperx.py:213 | `sep.join(parts)` is "" for no parts, and otherwise starts with the first part and ends with the last |
| `Text.JoinSnoc` | subgen_whisperx.py:213 | joining one more part appends the separator and that part |
| `Text.Strip` | subgen_whisperx.py:206 | `text.strip()` is a slice of the text with only whitespace removed around it, and it neither starts nor ends with whitespace |
| `Text.DecimalRoundTrip` | subgen_whisperx.py:209 | the numeral written for a subtitle number reads back as that number |
| `Text.DecimalInjective` | subgen_whisperx.py:209 | distinct subtitle numbers get distinct numerals |
| `Subtitles.GenerateSubtitles` | subgen_whisperx.py:200-213 | the append loop and the final join compute exactly `Render`: three pieces per segment, in input order, joined by the line separator |
| `Subtitles.PiecesAt` | subgen_whisperx.py:203-211 | for the k-th segment the list holds `linesep + (k+1)`, `"{start} --> {end}"` and `text.strip() + linesep` at positions 3k, 3k+1 and 3k+2 |
| `Subtitles.SubtitleNumbers` | subgen_whisperx.py:203-209 | the numbers written are 1..n, contiguous and in segment order, one per segment |
| `Subtitles.RenderIsBlocks` | subgen_whisperx.py:200-213 | the rendered text is the SubRip blocks (blank line, number, time range, stripped text) numbered from 1 and joined by the line separator; no segments render as "" |
| `Subtitles.ClipLine` | subgen_whisperx.py:230-237 | lines of at most 150 characters are unchanged; a longer line becomes a prefix of at most 150 characters: exactly `line[:150]` when those have no space, otherwise the text before the last space among them (at most 149 characters, possibly empty); nothing raises |
| `Subtitles.ClipLineIdempotent` | subgen_whisperx.py:230-237 | clipping a clipped line changes nothing |
| `Subtitles.PostProcess` | subgen_whisperx.py:216-243 | returns its input unchanged for every string, because each iterated "line" is one character |

## Findings

| source | as written | input that shows it | evidently intended | confidence | as-written member | corrected member |
|---|---|---|---|---|---|---|
| subgen_whisperx.py:312 | the stem is `basename(p.rsplit(".", 1)[0])`, which cuts at the last '.' anywhere in the path | "clips.v2/intro" gets the stem "clips", so the subtitles are written as "clips.v2/clips.ai-en.srt"; "./videos/intro" gets the empty stem, so they are written as "./videos/.ai-en.srt" | the stem comes from the file's own name, "intro" (the comment at line 336 expects "input.ai…srt" from "input.mp4") | not executed | `Paths.SubtitleStemCrossesDirectory` | `Paths.SubtitleStemFixed` |

## Left out

- ffmpeg (`ffmpeg.probe`, `ffmpeg.input/output/run`, subgen_whisperx.py:70, 146-161) is a foreign tool. Its probe is the input `ProbeResult`. A reply without the expected `streams`/`codec_type` keys raises in the source and is counted as `ProbeFailed`. The run is the input `FfmpegOutcome`. The fixed encoding parameters (libmp3lame, mono, 16 kHz, VBR, threads, queue size, fast seek) are not modelled.
- `transcribe` (subgen_whisperx.py:167-197) is not modelled. It calls whisperx model loading, transcription and alignment, which are ML collaborators. Its segments are the input of `GenerateSubtitles`.
- The torch probe `cuda.is_available()` is the three-valued input `CudaProbe`.
- `str.lower()` is modelled for ASCII letters only. Outside A-Z, only U+0130 and U+212A lower-case into ASCII, and neither becomes a letter of "cuda". So the test `"cuda" in s.lower()` is exact.
- `utils/timer` is not part of this model. `Timer.format_time` is the parameter `formatTime`. Segment times are `real` and are only passed to it. The stopwatch keeps only the record of start/stop calls, not durations or `summary()`.
- `os.linesep` is the parameter `sep`.
- Paths follow POSIX `os.path` (separator '/'). Windows path rules are not modelled.
- `os.walk` is the input `walk`, one root and its file names per entry. The sub-directory lists it also yields play no part in the code.
- `Media.CollectFiles`: the inner loop of `get_media_files` is its own method. The statements and their order are the same. Keeping it inline put the method's proof over the solver's resource limit.
- `main` is not modelled beyond the subtitle path derivation. This covers argparse, the `isdir`/`isfile` checks, the batch loop, the per-file stopwatch labels and the file write. Two facts about that loop are deliberately not turned into properties:
  - `transcribe` has no `try` around it, so one failure ends the batch;
  - `args.compute_device.lower()` raises when the flag is omitted.
- Logging, coloredlogs, the log file, the Halo spinner and `gc` (subgen_whisperx.py:15-26, 167, 355-360) have no effect on the modelled results.
