# AsrTools batch transcription, modelled in Dafny

AsrTools turns audio and video files into text. This project models the
two scripts that drive it.

`asr_cli.py` is the batch command (module `AsrCli`, file `asr_cli.dfy`). It:

- finds the supported files under a path (`get_audio_files`);
- converts anything that is not MP3 or WAV to MP3 with ffmpeg (`video2audio`);
- runs one of three recognition engines on each file;
- writes the result next to the source as `txt`, `srt` or `ass`;
- removes the converted audio;
- sets the exit status from how many files failed (`main`).

`transport.py` is the local Whisper walker (module `Transport`, file
`transport.dfy`):

- `handle_file` walks a path recursively.
- For every file `p` whose name ends in `.mp3` and for which no file
  exists at `p.replace(".mp3", ".txt")` yet, `sts_file_clean` transcribes it.
- It then writes the stripped, non-blank segment texts to a transcript, one
  per line.

Two shared modules support them:

- `FileSystem` (`filesystem.dfy`) holds the tree both scripts work on:
  - a map from path to entry, where an entry is a file with its text or a
    directory;
  - path helpers in the style of `os.path` and `pathlib`;
  - a `FileSystem` class whose methods update the map in place (write,
    append, put, remove).
- `PyStr` (`pystr.dfy`) defines the Python string operations the scripts
  rely on: `endswith`, `lower`, `rfind`/`rsplit`, `find`, `replace` and
  `strip`. Its lemmas state what the scripts need of them: lowering a
  lower-case suffix, `replace` of `.mp3` and `.wav`, and `strip`. The
  shapes of `Path.suffix` and of `rsplit` are stated in `AsrCli`, where
  they are used.

Whatever the scripts call but do not own is passed in as a parameter
(`Env`):

- ffmpeg is a function from its argument list and what it reads at its
  input path to what the process did.
- An engine's `run()` is a function from the engine, what it reads at the
  audio path and the cache flag to its result. It returns nothing when
  `run()` raises.
- What a program reads at a path is the file's text, or nothing when no
  file is there (`FileSystem.Content`).
- In `transport.py`:
  - the `ffprobe` duration check is a predicate on the audio's contents;
  - Whisper's `transcribe` is a function from the audio's contents to either
    "raises" or a sequence of segment texts, plus whether the lazy segment
    generator raises once they are exhausted.

Most imperative operations of the source are methods proved against a
specification function: `Video2Audio`, `ProcessAudioFile`, `Scan`,
`GetAudioFiles`, `RunBatch`, `RunCli`, `WriteLines` and `StsFileClean`. The
lemmas then state what the source promises about those functions.

The recursive walk of `transport.py` is different. `HandleFile` and
`TransportMain` have no specification function, because the listing order
is left open. Instead, their contracts state invariants that hold in every
order:

- the tree only grows;
- the only files written are transcripts of the `.mp3` files handed to
  `sts_file_clean`, each holding the clean text of one of them;
- the walk raises exactly when one of those files would raise on the
  starting tree, and then one such file has left its transcript as far as
  it got;
- a walk that finishes has handled every entry. Every `.mp3` file it met
  has its checked `.txt`, or was handed to `sts_file_clean`, and then its
  transcript path holds the clean text written by a file with that
  transcript path. A transcript that was there before the walk does not
  count.

Two behaviours of the code are worth knowing. They are modelled as written
and stated as lemmas:

- `transport.py` checks for `p.replace(".mp3", ".txt")` but writes
  `p.replace(".mp3", ".txt").replace(".wav", ".txt")`.
  - When the path contains no `.wav`, the two are the same file, so a second
    run skips every file the first run transcribed. A partial transcript
    left by a crash also counts (`RerunSkips`).
  - When the path contains `.wav`, the two always differ
    (`PathsAgreeIffNoWav`).
  - If the `.wav` is in the file name, as in `a.wav.mp3`, the transcript is
    written but never found, so the file is transcribed again on every run
    (`WavInPathSplitsTheTwo`, `WavPathIsTranscribedAgain`).
  - If the `.wav` is in a directory name, as in `a.wav/x.mp3`, the
    transcript goes to `a.txt/x.txt`. In a tree that holds just the
    directory `a.wav` and that file, the directory `a.txt` does not exist,
    so `open` raises and the whole walk stops (`WavDirectoryCrashes`).
- In `asr_cli.py`, a file already named like the converted audio is
  overwritten by the conversion and deleted by a successful run. `talk.mp3`
  next to `talk.mp4` is an example (`ExistingTempNameIsLost`). When the
  scan lists `talk.mp4` first, the later run on `talk.mp3` finds nothing to
  read (`LostAudioFailsLater`). A failure
  after conversion leaves the converted audio behind
  (`FailureAfterConversionKeepsTemp`).

## Model

| member | source | states |
|---|---|---|
| AsrCli.SuffixShape | asr_cli.py:88 | `Path.suffix` is empty, or it is a dot followed by at least one character, with no further dot or slash; it ends the path and is shorter than the last component |
| AsrCli.RSplitHeadDropsSuffix | asr_cli.py:109 | where a path has a suffix, `rsplit(".", 1)[0]` is the path with exactly that suffix removed |
| AsrCli.OutputSuffixesAreNotMedia | asr_cli.py:33-38 | for each of the three formats `argparse` accepts (`txt`, `srt`, `ass`), the output suffix, lower-cased as the scan compares it, is not on the allow-list of 16 extensions |
| AsrCli.AudioPathChoice | asr_cli.py:106-115 | the engine reads the source itself exactly when the lower-cased path ends in `.mp3` or `.wav`; otherwise it reads a different path that ends in `.mp3`; when the path has a suffix, that path is the source with its suffix replaced by `.mp3` |
| AsrCli.DerivedPathsAvoidSource | asr_cli.py:109-142 | for a file the scan accepts and a valid format, the output path differs from the source and from the converted audio, and the converted audio differs from the source |
| AsrCli.OutputAvoidsTemp | asr_cli.py:142 | for each of the three formats `argparse` accepts, the output path never equals the converted-audio path |
| AsrCli.OutputAvoidsAudio | asr_cli.py:142-150 | the output path never equals the audio the engine reads, for any source and valid format |
| AsrCli.NativeIsNotOutput | asr_cli.py:107-142 | an MP3 or WAV source is never its own output path |
| AsrCli.EngineAliases | asr_cli.py:41-48 | `b`/`bcut`, `j`/`jianying` and `k`/`kuaisou` each select the same engine, and every code selects one |
| AsrCli.Render | asr_cli.py:131-139 | a rendering exists exactly for `txt`, `srt` and `ass`, and each of these selects the matching text of the result |
| AsrCli.FfmpegCommand | asr_cli.py:58-66 | the command has 11 arguments, starts with `ffmpeg`, has the input after `-i`, and ends with the output path |
| AsrCli.Video2AudioSpec | asr_cli.py:50-75 | reference definition of one conversion, given what ffmpeg did: a missing ffmpeg or a non-zero exit fails, an output ffmpeg wrote replaces what was at the output path, and success needs that path to be a file |
| AsrCli.Video2AudioEffect | asr_cli.py:67-75 | conversion succeeds exactly when ffmpeg ran, exited with 0, and the output is then a file; no path other than the output changes |
| AsrCli.Video2Audio | asr_cli.py:50-75 | the method's outcome and new file system are those of the conversion spec for the command it runs |
| AsrCli.ConvertSpec | asr_cli.py:106-115 | reference definition of the conversion step: MP3 and WAV sources are used as they are; any other source is converted to the `.mp3` path beside it, ffmpeg reading the source's contents |
| AsrCli.SaveSpec | asr_cli.py:142-152 | reference definition of saving: open the output for writing, write the text, then remove the converted audio if it is a different path that exists; a failing `open` or `os.remove` fails |
| AsrCli.TranscribeSpec | asr_cli.py:117-152 | reference definition of the steps after conversion: engine dispatch, the engine's run on the contents at the audio path, format dispatch on the lower-cased format, then saving |
| AsrCli.ProcessSpec | asr_cli.py:100-156 | reference definition of one file's run: conversion, then the remaining steps, each failure ending the run with false and the file system as it is then |
| AsrCli.SaveEffect | asr_cli.py:142-152 | saving touches only the output and the converted audio. It succeeds exactly when the output can be opened and no directory sits where the converted audio was. On success the output holds the text and the converted audio is gone; otherwise nothing changes (unless that directory is the cause) |
| AsrCli.TranscribeEffect | asr_cli.py:117-152 | after conversion, only the engine's audio and the output can change; a source read directly is kept; a failure changes nothing except in the directory case above |
| AsrCli.ConvertEffect | asr_cli.py:106-115 | conversion changes only the converted-audio path, skips MP3 and WAV sources entirely, and leaves a file there when it succeeds |
| AsrCli.ProcessAudioFile | asr_cli.py:100-156 | the method returns the success flag of the per-file spec and leaves its file system; it never raises |
| AsrCli.ProcessTouchesOnlyDerivedPaths | asr_cli.py:100-156 | one file's run changes at most the audio the engine reads and the output. It never changes an MP3 or WAV source. A failure never writes the output, and a failed run on MP3 or WAV changes nothing |
| AsrCli.ProcessSuccess | asr_cli.py:117-152 | a successful run had a known engine, a result and a valid format. The output holds that result rendered in the lower-cased format, and the converted audio was removed |
| AsrCli.ProcessKeepsSource | asr_cli.py:100-156 | processing a file the scan accepts never overwrites or removes it |
| AsrCli.FailureAfterConversionKeepsTemp | asr_cli.py:148-152 | when conversion succeeded but the run failed, the converted audio is still a file: only the success path cleans up |
| AsrCli.UnknownEngineOrFormatFails | asr_cli.py:118-139 | an unknown engine name or an unknown format makes the file fail |
| AsrCli.NativeAudioSkipsFfmpeg | asr_cli.py:106-115 | the outcome for an MP3 or WAV source does not depend on ffmpeg at all |
| AsrCli.ExistingTempNameIsLost | asr_cli.py:109-150 | a file already at the converted-audio path is gone after a successful run |
| AsrCli.LostAudioFailsLater | asr_cli.py:109-150 | in a batch that lists a non-MP3 source before the file at its converted-audio path, the first run succeeds and the second one hands the engine nothing to read, so it fails when the engine raises on a missing file |
| AsrCli.ScanRecurses | asr_cli.py:94-96 | in a well-formed tree, the scan of a directory accepts exactly the accepted regular files among its own entries and what the scans of its subdirectories accept, as `rglob` descends |
| AsrCli.Scan | asr_cli.py:93-96 | the walk returns, without duplicates, exactly the regular files below the directory whose lower-cased suffix is allowed, in any order |
| AsrCli.GetAudioFiles | asr_cli.py:77-98 | a missing path gives nothing; a file gives `[path]` exactly when its suffix is allowed, and nothing otherwise; a directory gives its scan |
| AsrCli.CountsAddUp | asr_cli.py:229-239 | successes plus failures equal the number of files |
| AsrCli.NoFailureMeansAllSucceeded | asr_cli.py:250 | no failure was counted exactly when every file succeeded |
| AsrCli.ExitCode | asr_cli.py:222-250 | the status is 0 or 1, and it is 0 exactly when some file was found and every file succeeded |
| AsrCli.BatchSpec | asr_cli.py:233-239 | the batch has one outcome per file |
| AsrCli.BatchAppend | asr_cli.py:233-239 | running two lists one after the other is the same as running their concatenation: outcomes concatenate and the file system carries over |
| AsrCli.RunBatch | asr_cli.py:229-239 | the loop processes every file in list order on the file system the previous files left, and its two counters are the numbers of successes and failures |
| AsrCli.RunCli | asr_cli.py:203-250 | an engine code or format that argparse refuses gives status 2 and changes nothing. Otherwise discovery's promise holds, the file system is that of the batch, the counters add up to the number of files, and the status is 1 when nothing was found or any file failed, else 0 |
| FileSystem.FileSystem.WriteText | asr_cli.py:143-144 | `open(p, "w")` followed by one write: it fails exactly when the path is a directory or its parent directory is missing, and then changes nothing; otherwise the path holds exactly the text and nothing else changes |
| FileSystem.FileSystem.AppendText | transport.py:49 | one more `f.write` on an open file appends the text to the file and changes nothing else |
| FileSystem.FileSystem.Remove | asr_cli.py:150 | `os.remove(p)` succeeds exactly on a regular file, which it removes; otherwise nothing changes |
| PyStr.LowerKeepsLowerSuffix | asr_cli.py:107 | a path ending in `.mp3` or `.wav` still ends in it once lower-cased, so the case-insensitive test accepts it |
| PyStr.StripTrimmed | transport.py:47 | a stripped text is empty or neither starts nor ends with whitespace |
| PyStr.StripEmptyIffBlank | transport.py:47-48 | a stripped text is empty exactly when the text is whitespace only |
| PyStr.ReplaceMp3CreatesNoWav | transport.py:33 | replacing `.mp3` by `.txt` never creates a `.wav` |
| Transport.SkipPathShape | transport.py:68 | for a path ending in `.mp3`, the path that is checked ends in `.txt` and has the same length |
| Transport.TranscriptPathShape | transport.py:33 | for a path ending in `.mp3`, the transcript path ends in `.txt`, has the same length, and is never the source |
| Transport.PathsAgreeWithoutWav | transport.py:33-68 | when the path contains no `.wav`, the file written is the file checked |
| PyStr.ReplaceMp3KeepsWav | transport.py:33 | replacing `.mp3` by `.txt` keeps every `.wav` there was |
| Transport.WavSplitsThePaths | transport.py:33-68 | when the path contains `.wav`, the file written differs from the file checked |
| Transport.PathsAgreeIffNoWav | transport.py:33-68 | the file written is the file checked exactly when the path contains no `.wav` |
| Transport.WavInPathSplitsTheTwo | transport.py:33-68 | for `a.wav.mp3` (any first character but a dot), the checked file is `a.wav.txt` but the written file is `a.txt.txt` |
| Transport.WavDirectoryCrashes | transport.py:33-49 | for `c.wav/x.mp3` in a tree holding just the directory `c.wav` and that file, visiting the file raises with nothing written, whatever the audio and the model do, because the transcript's directory `c.txt` is missing |
| Transport.CleanTextIsJoinOfKept | transport.py:45-49 | the transcript is the stripped non-blank segment texts, in order, each followed by a newline |
| Transport.TranscriptReadsBack | transport.py:45-49 | when no stripped segment text contains a newline, splitting the transcript into lines gives back exactly the kept texts, so the line count is the number of non-blank segments |
| Transport.KeptLinesTrimmed | transport.py:47-49 | every kept line is non-empty and neither starts nor ends with whitespace |
| Transport.CleanTextEmptyIffBlank | transport.py:45-49 | the transcript is empty exactly when every segment is blank |
| Transport.StsSpec | transport.py:32-49 | reference definition of `sts_file_clean`: the duration probe, the transcription, opening the transcript and writing the clean text, where each failure raises |
| Transport.WriteLines | transport.py:45-49 | the loop leaves the transcript holding the clean text of all segments, and changes nothing else |
| Transport.StsFileClean | transport.py:32-49 | the method's crash flag and new file system are those of the spec. A missing file, a failing duration probe (decided on the file's contents), a transcriber that raises, or a transcript that cannot be opened crashes with nothing written. Otherwise the transcript holds the clean text, and the run crashes iff the segment generator raises at its end |
| Transport.VisitSpec | transport.py:65-73 | reference definition of handling a path that is not a directory: only an `.mp3` file without its checked `.txt` is transcribed |
| Transport.VisitEffect | transport.py:65-73 | a file that does not end in `.mp3`, or whose checked `.txt` exists, changes nothing and does not fail. Otherwise at most its transcript is written, and every write is a `.txt` file |
| Transport.VisitCovers | transport.py:66-73 | a visit to an `.mp3` file that did not fail leaves its checked file or its transcript in place; when it transcribed, the transcript holds the kept texts one per line |
| Transport.RerunSkips | transport.py:68-73 | when the path contains no `.wav`, visiting an `.mp3` file again after a visit that wrote its transcript (even a partial one cut short by a crash) changes nothing |
| Transport.WavPathIsTranscribedAgain | transport.py:33-73 | after `a.wav.mp3` is visited, `a.wav.txt` is still missing, so the next visit transcribes the file again |
| Transport.SameOutcome | transport.py:32-49 | whether transcribing an `.mp3` file raises, and whether it gets as far as opening its transcript, is the same on the starting tree and on any tree the walk has grown from it |
| Transport.HandleFile | transport.py:60-73 | the walk keeps every directory and entry. It writes only the transcripts of the `.mp3` files it hands to `sts_file_clean`, and those are the input itself or files below it that had no checked `.txt` at the start. Every entry it writes holds the clean text of the segments of one of those files whose transcript path it is. It crashes exactly when one of those files would raise on the starting tree, and then one of them raised and, if it had opened its transcript, left there the clean text of its segments. For a non-directory it does exactly what the visit spec says. If it does not crash, the handled paths include every entry of every handled directory as listed at the start. Every handled `.mp3` file has its checked `.txt`, or was handed to `sts_file_clean` and its transcript path holds the clean text of a handed file with that transcript path |
| Transport.WalkReaches | transport.py:61-64 | in a well-formed tree, a set of handled paths that is closed under listing and contains a directory contains every entry below that directory |
| Transport.TransportMain | transport.py:85-90 | a missing input gives status 1 and changes nothing. Otherwise the status is 1 exactly when one of the `.mp3` files the walk transcribed, all at or below the input, would raise on the starting tree, and 0 otherwise. Only their transcripts are written, each holding the clean text of the segments of one of them. After status 1 from the walk, one of them raised and left its transcript as far as it got. A non-directory input gives exactly the visit spec's file system, and status 1 exactly when the visit raises. After status 0 on a well-formed tree, every `.mp3` file at or below the input has its checked `.txt`, or was handed to `sts_file_clean` and its transcript path holds the clean text of a handed file with that transcript path |

## Left out

- Path normalisation by `pathlib`: paths are canonical strings. `Path(p)`, `str(path)` and `os.path.join` are modelled only for canonical paths, with `DirPrefix`/`Join`. `GetAudioFiles`, `RunCli` and `TransportMain` require a canonical input path: no trailing or doubled slash and no `.` component. The working directory has no entry in the tree, so the inputs `.` and `./…` (for which `pathlib` and `os.path.join` name the same file differently) are left out, as are `music/` and `a/./b`.
- Symbolic links, permissions, full disks and other operating-system errors beyond "the parent directory is missing" and "a directory is in the way".
- `str.lower` beyond ASCII capitals and KELVIN SIGN: the other non-ASCII case mappings do not affect the extensions compared here.
- `mkdir` of the converted audio's parent (asr_cli.py:55): the parent already holds the source, so it already exists.
- argparse beyond its choice lists (status 2 on a refused engine code or format). `--verbose`, logging, `print` and the help text are left out.
- Wall-clock timing and floating point: the elapsed-time arithmetic, and the duration `ffprobe` prints. Only whether `float` accepts that output is kept.
- ffmpeg, ffprobe, Whisper and the three recognition engines are oracles. Their internals, the engines' cache, and the renderers `to_srt`/`to_ass`/`to_txt` are not part of this model. What an engine does with a missing audio file is the oracle's choice.
- `install_cli.py`, `tts_convert.py` and the `bk_asr` package are not part of this model.
- transport.py's module-level model load, `sys.path` change and `bk_asr` import (transport.py:9-15), and the commented-out engine code (transport.py:74-83).
- The text encoding of written files (`encoding="utf-8"`): file contents are strings.
- Transport.HandleFile: the order in which `os.listdir` returns entries is left open, so which files are transcribed before a crash is not pinned down. The contract states only what every order guarantees. When two `.mp3` paths share a transcript path, which of them wrote it last depends on that order, so the contract states that each written transcript holds the clean text of one of them, not of which. `VisitCovers` states the contents for one visit.
- Transport.TranscriptReadsBack: the line-by-line reading holds only when no stripped segment text contains a newline. Otherwise a segment yields more than one line.
- Transport.TransportMain: the coverage guarantee is stated for well-formed trees only, where every entry's directory is in the tree and paths have no doubled or trailing slashes.
- AsrCli.Scan: `rglob` order is left open, so the list is specified as a duplicate-free list with the right members.
