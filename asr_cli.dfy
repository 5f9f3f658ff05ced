/**
  The batch transcription command (`asr_cli.py`): find the audio and video
  files under a path, convert what is not already MP3 or WAV with ffmpeg, run
  the chosen recognition engine, write the result beside the source in the
  chosen format, remove the converted file, and report how many files
  succeeded and failed through the exit status.

  What the code calls but does not own is a parameter (`Env`): ffmpeg is a
  function from its argument list and what it reads at its input path to
  what the process did, and an engine's `run()` a function from the engine,
  what it reads at the audio path and the cache flag to its result, or to
  nothing when it raises. What a program reads at a path is the file's text,
  or nothing when no file is there. A result carries the three texts its
  `to_srt`, `to_ass` and `to_txt` methods return.
*/
module AsrCli {
  import opened Options
  import opened PyStr
  import opened FileSystem

  /** The extensions, with their dot, that the scan accepts (audio, then video). */
  const SUPPORTED_FORMATS: set<string> := {
    ".mp3", ".wav", ".ogg", ".flac", ".aac", ".m4a", ".wma",
    ".mp4", ".avi", ".mov", ".ts", ".mkv", ".wmv", ".flv", ".webm", ".rmvb"
  }

  /** The engine names `process_audio_file` dispatches on. */
  const B_ENGINE: string := "B\U{63A5}\U{53E3}"
  const J_ENGINE: string := "J\U{63A5}\U{53E3}"
  const K_ENGINE: string := "K\U{63A5}\U{53E3}"

  /** The command-line engine codes, short and long, and the engine name each stands for. */
  const ASR_ENGINES: map<string, string> := map[
    "b" := B_ENGINE, "j" := J_ENGINE, "k" := K_ENGINE,
    "bcut" := B_ENGINE, "jianying" := J_ENGINE, "kuaisou" := K_ENGINE
  ]

  /** The values `--format` accepts. */
  const FORMAT_CHOICES: set<string> := {"txt", "srt", "ass"}

  /** The three recognition back ends. */
  datatype Engine = Bcut | JianYing | KuaiShou

  /** What the back end's result object renders to. */
  datatype AsrResult = AsrResult(srt: string, ass: string, txt: string)

  /** What one ffmpeg run did: it was not found, or it exited, possibly having written its output file. */
  datatype Transcode = NotInstalled | Exited(code: int, written: Option<string>)

  /** The collaborators the command calls but does not own. */
  datatype Env = Env(
    ffmpeg: (seq<string>, Option<string>) -> Transcode,
    recognise: (Engine, Option<string>, bool) -> Option<AsrResult>)

  /** A success flag and the file system after one operation. */
  datatype Step = Step(ok: bool, nodes: Nodes)

  // ---------------------------------------------------------------------------
  // Path helpers

  /**
    `Path(p).suffix`: the last component's text from its last dot on, or
    nothing when that dot is its first or last character.
  */
  function Suffix(p: string): (r: string)
    ensures |r| <= |p|
  {
    var name := Base(p);
    match LastIndexOf(name, '.')
    case None => ""
    case Some(i) => if 0 < i < |name| - 1 then name[i..] else ""
  }

  /**
    Where a path has a suffix, `rsplit(".", 1)[0]` is the path without it:
    the two ways the code cuts a file name agree.
  */
  lemma RSplitHeadDropsSuffix(p: string)
    requires Suffix(p) != []
    ensures RSplitHead(p) + Suffix(p) == p
    ensures RSplitHead(p) == p[..|p| - |Suffix(p)|]
  {
    var k := SuffixStart(p);
    assert RSplitHead(p) == p[..k];
  }

  /** A suffix starts at the last dot of the whole path. */
  lemma SuffixStart(p: string) returns (k: nat)
    requires Suffix(p) != []
    ensures k < |p| && LastIndexOf(p, '.') == Some(k) && Suffix(p) == p[k..]
  {
    var name, i := SuffixInBase(p);
    k := |p| - |name| + i;
    LastIndexOfInTail(p, name, '.', i);
    TailOfTail(p, name, i);
  }

  /** A suffix runs from the last dot of the last component to its end. */
  lemma SuffixInBase(p: string) returns (name: string, i: nat)
    requires Suffix(p) != []
    ensures EndsWith(p, name) && 0 < i < |name| - 1 && name[i] == '.'
    ensures forall j :: i < j < |name| ==> name[j] != '.'
    ensures Suffix(p) == name[i..]
  {
    name := Base(p);
    i := LastIndexOf(name, '.').value;
    BaseShape(p);
    LastIndexOfSpec(name, '.');
  }


  /**
    A suffix is a dot, then at least one character, none of them a dot or a
    slash, and it is shorter than the last component that holds it.
  */
  lemma SuffixShape(p: string)
    ensures var r := Suffix(p);
      r == [] || (|r| >= 2 && r[0] == '.' && '/' !in r && |r| < |Base(p)| && EndsWith(p, r))
    ensures var r := Suffix(p);
      r == [] || forall j :: 0 < j < |r| ==> r[j] != '.'
  {
    var name := Base(p);
    if Suffix(p) != [] {
      BaseShape(p);
      LastIndexOfSpec(name, '.');
      var i := LastIndexOf(name, '.').value;
      assert Suffix(p) == name[i..];
      TailOfTail(p, name, i);
    }
  }

  /** `Path(p).suffix.lower() in SUPPORTED_FORMATS` */
  predicate IsSupported(p: string) {
    Lower(Suffix(p)) in SUPPORTED_FORMATS
  }

  /** The test of line 107: a path ending, case-insensitively, in `.mp3` or `.wav` needs no conversion. */
  predicate IsNativeAudio(p: string) {
    var l := Lower(p);
    EndsWith(l, ".mp3") || EndsWith(l, ".wav")
  }

  /** Where the converted audio goes: the path up to its last dot, then `.mp3`. */
  function TempAudioPath(p: string): string {
    RSplitHead(p) + ".mp3"
  }

  /** The audio the engine is given: the source itself, or its converted copy. */
  function AudioPath(p: string): string {
    if IsNativeAudio(p) then p else TempAudioPath(p)
  }

  /** Where the result goes: the path up to its last dot, a dot, then the format. */
  function OutputPath(p: string, ext: string): string {
    RSplitHead(p) + ("." + ext)
  }

  /**
    The audio handed to the engine is the source exactly when the source is
    MP3 or WAV; otherwise it is a different path, ending in `.mp3`, that
    differs from the source only in its suffix.
  */
  lemma AudioPathChoice(p: string)
    ensures IsNativeAudio(p) ==> AudioPath(p) == p
    ensures !IsNativeAudio(p) ==> AudioPath(p) != p && EndsWith(AudioPath(p), ".mp3")
    ensures !IsNativeAudio(p) && Suffix(p) != [] ==>
      AudioPath(p) == p[..|p| - |Suffix(p)|] + ".mp3"
  {
    if !IsNativeAudio(p) {
      TempAudioPathDiffers(p);
      if Suffix(p) != [] {
        RSplitHeadDropsSuffix(p);
      }
    }
  }

  /** A source that is not MP3 or WAV is converted to a path of its own, ending in `.mp3`. */
  lemma TempAudioPathDiffers(p: string)
    requires !IsNativeAudio(p)
    ensures TempAudioPath(p) != p && EndsWith(TempAudioPath(p), ".mp3")
  {
    var t := TempAudioPath(p);
    assert t[|t| - 4..] == ".mp3";
    assert IsLower(".mp3");
    LowerKeepsLowerSuffix(p, ".mp3");
  }


  /**
    For a file the scan accepts, neither the converted audio nor the result
    can land on the source: the source's suffix is an audio or video one,
    and the two derived paths end in `.mp3` (only for non-MP3 sources) and in
    the output format.
  */
  lemma DerivedPathsAvoidSource(p: string, ext: string)
    requires IsSupported(p)
    requires ext in FORMAT_CHOICES
    ensures OutputPath(p, ext) != p
    ensures !IsNativeAudio(p) ==> TempAudioPath(p) != p
    ensures OutputPath(p, ext) != TempAudioPath(p)
  {
    var s := Suffix(p);
    assert s != [] by {
      assert Lower([]) == [];
    }
    RSplitHeadDropsSuffix(p);
    if OutputPath(p, ext) == p {
      OutputSuffixNotScanned(p, ext);
      assert false;
    }
    AudioPathChoice(p);
    OutputAvoidsTemp(p, ext);
  }

  /** A suffix equal to a dot and an output format is not an audio or video suffix. */
  lemma OutputSuffixNotScanned(p: string, ext: string)
    requires ext in FORMAT_CHOICES && Suffix(p) != []
    requires RSplitHead(p) + Suffix(p) == p
    requires OutputPath(p, ext) == p
    ensures !IsSupported(p)
  {
    SameHeadSameTail(RSplitHead(p), Suffix(p), "." + ext);
    OutputSuffixesAreNotMedia(ext);
  }

  lemma SameHeadSameTail(h: string, s: string, t: string)
    requires h + s == h + t
    ensures s == t
  {
    assert s == (h + s)[|h|..];
  }

  /** None of the output suffixes, lower-cased as the scan compares them, is on the allow-list. */
  lemma OutputSuffixesAreNotMedia(ext: string)
    requires ext in FORMAT_CHOICES
    ensures Lower("." + ext) !in SUPPORTED_FORMATS
  {
    assert IsLower("." + ext);
    LowerOfLower("." + ext);
    if ext == "txt" {
      assert "." + ext == ".txt";
    } else if ext == "srt" {
      assert "." + ext == ".srt";
    } else {
      assert "." + ext == ".ass";
    }
  }

  /** The output and the converted audio differ in their last three characters. */
  lemma OutputAvoidsTemp(p: string, ext: string)
    requires ext in FORMAT_CHOICES
    ensures OutputPath(p, ext) != TempAudioPath(p)
  {
    var o := OutputPath(p, ext);
    var t := TempAudioPath(p);
    assert o[|o| - 3..] == ext;
    assert t[|t| - 3..] == "mp3";
  }

  /** The output never lands on the audio the engine reads, be it the source or its converted copy. */
  lemma OutputAvoidsAudio(p: string, ext: string)
    requires ext in FORMAT_CHOICES
    ensures OutputPath(p, ext) != AudioPath(p)
  {
    OutputAvoidsTemp(p, ext);
    if IsNativeAudio(p) {
      NativeIsNotOutput(p, ext);
    }
  }

  /** A source ending in `.mp3` or `.wav`, in any case, does not end in an output format. */
  lemma NativeIsNotOutput(p: string, ext: string)
    requires ext in FORMAT_CHOICES && IsNativeAudio(p)
    ensures OutputPath(p, ext) != p
  {
    var o := OutputPath(p, ext);
    var l := Lower(p);
    assert o[|o| - 1] == ext[2];
    assert l[|l| - 1] == LowerChar(p[|p| - 1]);
    assert |l| >= 4 && l[|l| - 4..][3] == l[|l| - 1];
    assert l[|l| - 1] == '3' || l[|l| - 1] == 'v';
    assert ext[2] == 't' || ext[2] == 's';
    assert p[|p| - 1] != o[|o| - 1];
  }

  // ---------------------------------------------------------------------------
  // Dispatch tables

  /** The `if`/`elif` chain of lines 118-125: an engine name selects a back end, or nothing. */
  function EngineOf(name: string): Option<Engine> {
    if name == B_ENGINE then Some(Bcut)
    else if name == J_ENGINE then Some(JianYing)
    else if name == K_ENGINE then Some(KuaiShou)
    else None
  }

  /** Each short code and its long alias select the same back end, and every code selects one. */
  lemma EngineAliases()
    ensures EngineOf(ASR_ENGINES["b"]) == EngineOf(ASR_ENGINES["bcut"]) == Some(Bcut)
    ensures EngineOf(ASR_ENGINES["j"]) == EngineOf(ASR_ENGINES["jianying"]) == Some(JianYing)
    ensures EngineOf(ASR_ENGINES["k"]) == EngineOf(ASR_ENGINES["kuaisou"]) == Some(KuaiShou)
    ensures forall code :: code in ASR_ENGINES ==> EngineOf(ASR_ENGINES[code]).Some?
  {
  }

  /** The `if`/`elif` chain of lines 132-139: the lower-cased format selects a rendering, or nothing. */
  function Render(result: AsrResult, ext: string): (r: Option<string>)
    ensures r.Some? <==> ext in FORMAT_CHOICES
    ensures ext == "srt" ==> r == Some(result.srt)
    ensures ext == "ass" ==> r == Some(result.ass)
    ensures ext == "txt" ==> r == Some(result.txt)
  {
    if ext == "srt" then Some(result.srt)
    else if ext == "ass" then Some(result.ass)
    else if ext == "txt" then Some(result.txt)
    else None
  }

  // ---------------------------------------------------------------------------
  // Conversion with ffmpeg

  /** The command line `video2audio` runs. */
  function FfmpegCommand(inputFile: string, output: string): (cmd: seq<string>)
    ensures |cmd| == 11 && cmd[0] == "ffmpeg"
    ensures cmd[2] == inputFile && cmd[|cmd| - 1] == output
  {
    ["ffmpeg", "-i", inputFile, "-ac", "1", "-f", "mp3", "-af", "aresample=async=1", "-y", output]
  }

  /**
    `video2audio(inputFile, output)` given what ffmpeg did: a run that exits
    non-zero raises inside the `try` (the call passes `check=True`), a missing
    ffmpeg raises too, and both give false.
  */
  function Video2AudioSpec(n: Nodes, output: string, run: Transcode): Step {
    match run
    case NotInstalled => Step(false, n)
    case Exited(code, written) =>
      var n' := if written.Some? && !IsDir(n, output) then n[output := File(written.value)] else n;
      Step(code == 0 && IsFile(n', output), n')
  }

  /**
    Conversion succeeds exactly when ffmpeg exits with status 0 and its output
    is then a file, and it touches no path but its output.
  */
  lemma Video2AudioEffect(n: Nodes, output: string, run: Transcode)
    ensures Video2AudioSpec(n, output, run).ok <==>
      run.Exited? && run.code == 0 && IsFile(Video2AudioSpec(n, output, run).nodes, output)
    ensures forall q :: q != output ==>
      (q in Video2AudioSpec(n, output, run).nodes <==> q in n)
    ensures forall q :: q != output && q in n ==> Video2AudioSpec(n, output, run).nodes[q] == n[q]
  {
  }

  /** `video2audio`, run against the file system. */
  method Video2Audio(fs: FileSystem, inputFile: string, output: string,
                     ffmpeg: (seq<string>, Option<string>) -> Transcode)
    returns (ok: bool)
    modifies fs
    ensures Step(ok, fs.nodes) == Video2AudioSpec(old(fs.nodes), output,
                                                  ffmpeg(FfmpegCommand(inputFile, output), Content(old(fs.nodes), inputFile)))
  {
    var cmd := FfmpegCommand(inputFile, output);
    var run := ffmpeg(cmd, Content(fs.nodes, inputFile));
    match run
    case NotInstalled =>
      ok := false;
    case Exited(code, written) =>
      if written.Some? && !IsDir(fs.nodes, output) {
        fs.Put(output, written.value);
      }
      ok := code == 0 && IsFile(fs.nodes, output);
  }

  // ---------------------------------------------------------------------------
  // One file

  /** Lines 106-115: a source already in MP3 or WAV is used as it is, any other is converted first. */
  function ConvertSpec(n: Nodes, p: string, env: Env): Step {
    if IsNativeAudio(p) then Step(true, n)
    else Video2AudioSpec(n, TempAudioPath(p), env.ffmpeg(FfmpegCommand(p, TempAudioPath(p)), Content(n, p)))
  }

  /** Lines 142-152: write the result, then remove the converted audio if there is one. */
  function SaveSpec(n: Nodes, p: string, audio: string, save: string, text: string): Step {
    if !CanWrite(n, save) then Step(false, n)
    else
      var n2 := n[save := File(text)];
      if audio != p && audio in n2 then
        if IsFile(n2, audio) then Step(true, n2 - {audio}) else Step(false, n2)
      else Step(true, n2)
  }

  /**
    Saving touches the output and the converted audio only. It succeeds with
    the text in the output and the converted audio gone; when the converted
    audio is not a directory left in the way, a failure changes nothing.
  */
  lemma SaveEffect(n: Nodes, p: string, audio: string, save: string, text: string)
    requires audio != save
    ensures var r := SaveSpec(n, p, audio, save, text);
      forall q :: q != save && q != audio ==> (q in r.nodes <==> q in n) && (q in n ==> r.nodes[q] == n[q])
    ensures var r := SaveSpec(n, p, audio, save, text);
      r.ok ==> save in r.nodes && r.nodes[save] == File(text) && (audio != p ==> audio !in r.nodes)
    ensures var r := SaveSpec(n, p, audio, save, text);
      r.ok <==> CanWrite(n, save) && !(audio != p && IsDir(n, audio))
    ensures var r := SaveSpec(n, p, audio, save, text);
      !r.ok && !(audio != p && IsDir(n, audio)) ==> r.nodes == n
    ensures var r := SaveSpec(n, p, audio, save, text);
      audio == p ==> (audio in r.nodes <==> audio in n) && (audio in n ==> r.nodes[audio] == n[audio])
  {
  }

  /** Lines 117-152, on the file system the conversion left. */
  function TranscribeSpec(n: Nodes, p: string, engineName: string, fmt: string, useCache: bool, env: Env): Step {
    match EngineOf(engineName)
    case None => Step(false, n)
    case Some(engine) =>
      match env.recognise(engine, Content(n, AudioPath(p)), useCache)
      case None => Step(false, n)
      case Some(result) =>
        match Render(result, Lower(fmt))
        case None => Step(false, n)
        case Some(text) => SaveSpec(n, p, AudioPath(p), OutputPath(p, Lower(fmt)), text)
  }

  /**
    After conversion, a run touches the engine's audio and the output only,
    keeps the source when the engine reads it directly, and, unless a
    directory sits where the converted audio was, changes nothing when it
    fails.
  */
  lemma TranscribeEffect(n: Nodes, p: string, engineName: string, fmt: string, useCache: bool, env: Env)
    ensures var r := TranscribeSpec(n, p, engineName, fmt, useCache, env);
      forall q :: q != AudioPath(p) && q != OutputPath(p, Lower(fmt)) ==>
        (q in r.nodes <==> q in n) && (q in n ==> r.nodes[q] == n[q])
    ensures var r := TranscribeSpec(n, p, engineName, fmt, useCache, env);
      AudioPath(p) == p ==> (p in r.nodes <==> p in n) && (p in n ==> r.nodes[p] == n[p])
    ensures var r := TranscribeSpec(n, p, engineName, fmt, useCache, env);
      !r.ok && !(AudioPath(p) != p && IsDir(n, AudioPath(p))) ==> r.nodes == n
  {
    var ext := Lower(fmt);
    if EngineOf(engineName).Some? && ext in FORMAT_CHOICES {
      var result := env.recognise(EngineOf(engineName).value, Content(n, AudioPath(p)), useCache);
      if result.Some? {
        OutputAvoidsAudio(p, ext);
        SaveEffect(n, p, AudioPath(p), OutputPath(p, ext), Render(result.value, ext).value);
      }
    }
  }

  /**
    `process_audio_file(p, engineName, fmt, useCache)`: every exception the
    body can raise is caught and gives false, so each failing step ends the
    run with false and the file system as it is at that point.
  */
  function ProcessSpec(n: Nodes, p: string, engineName: string, fmt: string, useCache: bool, env: Env): Step {
    var conv := ConvertSpec(n, p, env);
    if !conv.ok then conv
    else TranscribeSpec(conv.nodes, p, engineName, fmt, useCache, env)
  }

  /** `process_audio_file`, run against the file system. */
  method ProcessAudioFile(fs: FileSystem, filePath: string, engineName: string, outputFormat: string,
                          useCache: bool, env: Env)
    returns (ok: bool)
    modifies fs
    ensures ok == ProcessSpec(old(fs.nodes), filePath, engineName, outputFormat, useCache, env).ok
    ensures fs.nodes == ProcessSpec(old(fs.nodes), filePath, engineName, outputFormat, useCache, env).nodes
  {
    var audioPath;
    if !IsNativeAudio(filePath) {
      var tempAudio := TempAudioPath(filePath);
      var converted := Video2Audio(fs, filePath, tempAudio, env.ffmpeg);
      if !converted {
        return false;
      }
      audioPath := tempAudio;
    } else {
      audioPath := filePath;
    }

    var engine := EngineOf(engineName);
    if engine.None? {
      return false;
    }
    var result := env.recognise(engine.value, Content(fs.nodes, audioPath), useCache);
    if result.None? {
      return false;
    }

    var saveExt := Lower(outputFormat);
    var resultText := Render(result.value, saveExt);
    if resultText.None? {
      return false;
    }

    var savePath := OutputPath(filePath, saveExt);
    var written := fs.WriteText(savePath, resultText.value);
    if !written {
      return false;
    }

    if audioPath != filePath && Exists(fs.nodes, audioPath) {
      var removed := fs.Remove(audioPath);
      if !removed {
        return false;
      }
    }
    return true;
  }

  /**
    Conversion changes nothing but the converted audio's path; when it
    succeeds, the converted audio is a file.
  */
  lemma ConvertEffect(n: Nodes, p: string, env: Env)
    ensures var c := ConvertSpec(n, p, env);
      forall q :: q != TempAudioPath(p) ==> (q in c.nodes <==> q in n) && (q in n ==> c.nodes[q] == n[q])
    ensures var c := ConvertSpec(n, p, env);
      IsNativeAudio(p) ==> c == Step(true, n)
    ensures var c := ConvertSpec(n, p, env);
      c.ok && !IsNativeAudio(p) ==> IsFile(c.nodes, TempAudioPath(p))
  {
    if !IsNativeAudio(p) {
      Video2AudioEffect(n, TempAudioPath(p), env.ffmpeg(FfmpegCommand(p, TempAudioPath(p)), Content(n, p)));
    }
  }

  /**
    What a run changes: at most the audio the engine reads and the output,
    and never a source that is already MP3 or WAV. A failed run never writes
    the output, and a failed run on MP3 or WAV changes nothing at all.
  */
  lemma ProcessTouchesOnlyDerivedPaths(n: Nodes, p: string, engineName: string, fmt: string, useCache: bool, env: Env)
    ensures var r := ProcessSpec(n, p, engineName, fmt, useCache, env);
      forall q :: q != AudioPath(p) && q != OutputPath(p, Lower(fmt)) ==>
        (q in r.nodes <==> q in n) && (q in n ==> r.nodes[q] == n[q])
    ensures var r := ProcessSpec(n, p, engineName, fmt, useCache, env);
      IsNativeAudio(p) ==> (p in r.nodes <==> p in n) && (p in n ==> r.nodes[p] == n[p])
    ensures var r := ProcessSpec(n, p, engineName, fmt, useCache, env);
      !r.ok ==> forall q :: q != AudioPath(p) ==> (q in r.nodes <==> q in n) && (q in n ==> r.nodes[q] == n[q])
    ensures var r := ProcessSpec(n, p, engineName, fmt, useCache, env);
      !r.ok && IsNativeAudio(p) ==> r.nodes == n
  {
    ConvertEffect(n, p, env);
    var c := ConvertSpec(n, p, env);
    AudioPathChoice(p);
    if c.ok {
      TranscribeEffect(c.nodes, p, engineName, fmt, useCache, env);
    }
  }

  /**
    A successful run had a known engine, a result from it and one of the
    three formats; it wrote that result's rendering, in the lower-cased
    format, to the output path, and removed the converted audio.
  */
  lemma ProcessSuccess(n: Nodes, p: string, engineName: string, fmt: string, useCache: bool, env: Env)
    requires ProcessSpec(n, p, engineName, fmt, useCache, env).ok
    ensures EngineOf(engineName).Some?
    ensures Lower(fmt) in FORMAT_CHOICES
    ensures env.recognise(EngineOf(engineName).value, Content(ConvertSpec(n, p, env).nodes, AudioPath(p)), useCache).Some?
    ensures var n' := ProcessSpec(n, p, engineName, fmt, useCache, env).nodes;
      var audio := Content(ConvertSpec(n, p, env).nodes, AudioPath(p));
      var result := env.recognise(EngineOf(engineName).value, audio, useCache).value;
      OutputPath(p, Lower(fmt)) in n' &&
      n'[OutputPath(p, Lower(fmt))] == File(Render(result, Lower(fmt)).value)
    ensures !IsNativeAudio(p) ==> TempAudioPath(p) !in ProcessSpec(n, p, engineName, fmt, useCache, env).nodes
  {
    var c := ConvertSpec(n, p, env);
    var ext := Lower(fmt);
    OutputAvoidsAudio(p, ext);
    AudioPathChoice(p);
    var result := env.recognise(EngineOf(engineName).value, Content(c.nodes, AudioPath(p)), useCache).value;
    SaveEffect(c.nodes, p, AudioPath(p), OutputPath(p, ext), Render(result, ext).value);
  }

  /** A source the scan accepts is never overwritten or removed by processing it. */
  lemma ProcessKeepsSource(n: Nodes, p: string, engineName: string, fmt: string, useCache: bool, env: Env)
    requires IsSupported(p) && p in n
    ensures var n' := ProcessSpec(n, p, engineName, fmt, useCache, env).nodes;
      p in n' && n'[p] == n[p]
  {
    ProcessTouchesOnlyDerivedPaths(n, p, engineName, fmt, useCache, env);
    if !IsNativeAudio(p) {
      AudioPathChoice(p);
      if Lower(fmt) in FORMAT_CHOICES {
        DerivedPathsAvoidSource(p, Lower(fmt));
      } else {
        UnknownEngineOrFormatFails(n, p, engineName, fmt, useCache, env);
      }
    }
  }


  /**
    A run that converted the source and then failed (unknown engine, engine
    error, unknown format, unwritable output) leaves the converted audio
    behind: only the success path cleans up.
  */
  lemma FailureAfterConversionKeepsTemp(n: Nodes, p: string, engineName: string, fmt: string, useCache: bool, env: Env)
    requires !IsNativeAudio(p)
    requires ConvertSpec(n, p, env).ok
    requires !ProcessSpec(n, p, engineName, fmt, useCache, env).ok
    ensures IsFile(ProcessSpec(n, p, engineName, fmt, useCache, env).nodes, TempAudioPath(p))
  {
    ConvertEffect(n, p, env);
    AudioPathChoice(p);
    TranscribeEffect(ConvertSpec(n, p, env).nodes, p, engineName, fmt, useCache, env);
  }


  /** An engine name outside the three, or a format outside the three, fails the file. */
  lemma UnknownEngineOrFormatFails(n: Nodes, p: string, engineName: string, fmt: string, useCache: bool, env: Env)
    requires EngineOf(engineName).None? || Lower(fmt) !in FORMAT_CHOICES
    ensures !ProcessSpec(n, p, engineName, fmt, useCache, env).ok
  {
  }

  /**
    A source that is already MP3 or WAV is never converted: what happens to
    it does not depend on ffmpeg at all.
  */
  lemma NativeAudioSkipsFfmpeg(n: Nodes, p: string, engineName: string, fmt: string, useCache: bool, env: Env,
                               other: (seq<string>, Option<string>) -> Transcode)
    requires IsNativeAudio(p)
    ensures ProcessSpec(n, p, engineName, fmt, useCache, env)
         == ProcessSpec(n, p, engineName, fmt, useCache, env.(ffmpeg := other))
  {
  }

  /**
    A file beside the source with the name of the converted audio (say
    `talk.mp3` beside `talk.mp4`) is overwritten by the conversion and then
    removed by a successful run.
  */
  lemma ExistingTempNameIsLost(n: Nodes, p: string, engineName: string, fmt: string, useCache: bool, env: Env)
    requires !IsNativeAudio(p) && IsFile(n, TempAudioPath(p))
    requires ProcessSpec(n, p, engineName, fmt, useCache, env).ok
    ensures TempAudioPath(p) !in ProcessSpec(n, p, engineName, fmt, useCache, env).nodes
  {
    ProcessSuccess(n, p, engineName, fmt, useCache, env);
  }

  /**
    What the lost file does to the batch: when `talk.mp4` comes before
    `talk.mp3`, the run on `talk.mp4` removes `talk.mp3`, so the run on
    `talk.mp3` hands the engine nothing to read, and an engine that raises on
    a missing file fails it.
  */
  lemma LostAudioFailsLater(n: Nodes, p: string, engineName: string, fmt: string, useCache: bool, env: Env)
    requires !IsNativeAudio(p) && IsFile(n, TempAudioPath(p))
    requires ProcessSpec(n, p, engineName, fmt, useCache, env).ok
    requires EngineOf(engineName).Some? && env.recognise(EngineOf(engineName).value, None, useCache).None?
    ensures BatchSpec(n, [p, TempAudioPath(p)], engineName, fmt, useCache, env).results == [true, false]
  {
    var t := TempAudioPath(p);
    ProcessSuccess(n, p, engineName, fmt, useCache, env);
    TempAudioPathDiffers(p);
    assert IsLower(".mp3");
    LowerKeepsLowerSuffix(t, ".mp3");
    var n1 := ProcessSpec(n, p, engineName, fmt, useCache, env).nodes;
    assert IsNativeAudio(t) && AudioPath(t) == t && Content(n1, t) == None;
    assert !ProcessSpec(n1, t, engineName, fmt, useCache, env).ok;
    assert [p, t][..1] == [p];
    assert [p][..0] == [];
    assert BatchSpec(n, [p], engineName, fmt, useCache, env) == Batch([true], n1);
  }

  // ---------------------------------------------------------------------------
  // Discovery

  /** What `directory.rglob('*')` filtered by `is_file()` and the allow-list finds. */
  function ScanSpec(n: Nodes, d: string): set<string> {
    set q | q in n && Under(d, q) && n[q].File? && IsSupported(q)
  }

  /**
    `rglob` goes down the tree: in a well-formed tree, the scan of a
    directory accepts exactly the accepted files among its own entries and
    what the scans of its subdirectories accept.
  */
  lemma ScanRecurses(n: Nodes, d: string, q: string)
    requires WellFormed(n) && d != ""
    ensures q in ScanSpec(n, d) <==>
      (IsChild(d, q) && IsFile(n, q) && IsSupported(q)) ||
      (exists c :: IsDir(n, c) && IsChild(d, c) && q in ScanSpec(n, c))
  {
    if q in ScanSpec(n, d) && '/' in q[|DirPrefix(d)|..] {
      var c := AncestorChild(n, d, q);
      assert q in ScanSpec(n, c);
    }
    if exists c :: IsDir(n, c) && IsChild(d, c) && q in ScanSpec(n, c) {
      var c :| IsDir(n, c) && IsChild(d, c) && q in ScanSpec(n, c);
      UnderChild(d, c, q);
    }
  }

  predicate NoDuplicates(s: seq<string>) {
    forall i, j :: 0 <= i < j < |s| ==> s[i] != s[j]
  }

  /** The promise of `get_audio_files`: nothing for a missing path, the file itself or nothing, or the scan. */
  ghost predicate Discovered(n: Nodes, d: string, files: seq<string>) {
    if d !in n then files == []
    else if n[d].File? then files == (if IsSupported(d) then [d] else [])
    else NoDuplicates(files) && forall q :: q in files <==> q in ScanSpec(n, d)
  }

  /**
    The walk of lines 93-96 over a directory: the order in which it meets
    the entries is the file system's, so it is left open here: any order is
    a possible run.
  */
  method Scan(n: Nodes, directory: string) returns (audioFiles: seq<string>)
    ensures NoDuplicates(audioFiles)
    ensures forall q :: q in audioFiles <==> q in ScanSpec(n, directory)
  {
    audioFiles := [];
    var pending := set q | q in n && Under(directory, q);
    while pending != {}
      invariant forall q :: q in pending ==> q in n && Under(directory, q)
      invariant NoDuplicates(audioFiles)
      invariant forall q :: q in audioFiles ==> q in ScanSpec(n, directory) && q !in pending
      invariant forall q :: q in ScanSpec(n, directory) ==> q in audioFiles || q in pending
      decreases pending
    {
      var q :| q in pending;
      pending := pending - {q};
      if n[q].File? && IsSupported(q) {
        audioFiles := audioFiles + [q];
      }
    }
  }

  /** `get_audio_files(d)`: nothing for a missing path, a single file when it is accepted, else the walk. */
  method GetAudioFiles(fs: FileSystem, directory: string) returns (audioFiles: seq<string>)
    requires Canonical(directory)
    ensures Discovered(fs.nodes, directory, audioFiles)
    ensures directory in fs.nodes && fs.nodes[directory].File? ==>
      (audioFiles == [directory] <==> IsSupported(directory))
  {
    audioFiles := [];
    if directory !in fs.nodes {
      return;
    }
    if fs.nodes[directory].File? {
      if IsSupported(directory) {
        audioFiles := audioFiles + [directory];
      }
      return;
    }
    audioFiles := Scan(fs.nodes, directory);
  }

  // ---------------------------------------------------------------------------
  // The batch

  /** How many entries of `bs` equal `b`. */
  function CountOf(bs: seq<bool>, b: bool): nat {
    if bs == [] then 0
    else CountOf(bs[..|bs| - 1], b) + (if bs[|bs| - 1] == b then 1 else 0)
  }

  /** Counting one more outcome. */
  lemma CountOfSnoc(bs: seq<bool>, x: bool)
    ensures CountOf(bs + [x], true) == CountOf(bs, true) + (if x then 1 else 0)
    ensures CountOf(bs + [x], false) == CountOf(bs, false) + (if x then 0 else 1)
  {
    assert (bs + [x])[..|bs|] == bs;
  }

  /** Every file is counted once, as a success or as a failure. */
  lemma {:induction false} CountsAddUp(bs: seq<bool>)
    ensures CountOf(bs, true) + CountOf(bs, false) == |bs|
  {
    if bs != [] {
      CountsAddUp(bs[..|bs| - 1]);
    }
  }

  /** No failure was counted exactly when every file succeeded. */
  lemma {:induction false} NoFailureMeansAllSucceeded(bs: seq<bool>)
    ensures CountOf(bs, false) == 0 <==> forall i :: 0 <= i < |bs| ==> bs[i]
  {
    if bs != [] {
      NoFailureMeansAllSucceeded(bs[..|bs| - 1]);
      assert forall i :: 0 <= i < |bs| - 1 ==> bs[..|bs| - 1][i] == bs[i];
    }
  }

  /** The status `main` returns from its outcomes: 1 when nothing was found or something failed. */
  function ExitCode(results: seq<bool>): (code: int)
    ensures code == 0 || code == 1
    ensures code == 0 <==> |results| > 0 && forall i :: 0 <= i < |results| ==> results[i]
  {
    NoFailureMeansAllSucceeded(results);
    if |results| == 0 then 1
    else if CountOf(results, false) == 0 then 0
    else 1
  }

  /** The outcomes of a batch run and the file system it leaves. */
  datatype Batch = Batch(results: seq<bool>, nodes: Nodes)

  /** The loop of `main`: each file in list order, each on the file system the previous ones left. */
  function BatchSpec(n: Nodes, files: seq<string>, engineName: string, fmt: string, useCache: bool, env: Env)
    : (r: Batch)
    ensures |r.results| == |files|
    decreases |files|
  {
    if files == [] then Batch([], n)
    else
      var before := BatchSpec(n, files[..|files| - 1], engineName, fmt, useCache, env);
      var step := ProcessSpec(before.nodes, files[|files| - 1], engineName, fmt, useCache, env);
      Batch(before.results + [step.ok], step.nodes)
  }

  /** Running two lists one after the other is running their concatenation. */
  lemma {:induction false} BatchAppend(n: Nodes, xs: seq<string>, ys: seq<string>,
                                        engineName: string, fmt: string, useCache: bool, env: Env)
    ensures var a := BatchSpec(n, xs, engineName, fmt, useCache, env);
      var b := BatchSpec(a.nodes, ys, engineName, fmt, useCache, env);
      BatchSpec(n, xs + ys, engineName, fmt, useCache, env) == Batch(a.results + b.results, b.nodes)
    decreases |ys|
  {
    if ys == [] {
      assert xs + ys == xs;
    } else {
      var ys' := ys[..|ys| - 1];
      BatchAppend(n, xs, ys', engineName, fmt, useCache, env);
      assert (xs + ys)[..|xs + ys| - 1] == xs + ys';
      var a := BatchSpec(n, xs, engineName, fmt, useCache, env);
      var b' := BatchSpec(a.nodes, ys', engineName, fmt, useCache, env);
      assert a.results + b'.results + [ProcessSpec(b'.nodes, ys[|ys| - 1], engineName, fmt, useCache, env).ok]
          == a.results + (b'.results + [ProcessSpec(b'.nodes, ys[|ys| - 1], engineName, fmt, useCache, env).ok]);
    }
  }

  /** One more file: the batch over a longer prefix is the shorter batch followed by that file. */
  lemma BatchStep(n: Nodes, files: seq<string>, i: nat, results: seq<bool>, m: Nodes,
                  engineName: string, fmt: string, useCache: bool, env: Env)
    requires i < |files|
    requires BatchSpec(n, files[..i], engineName, fmt, useCache, env).results == results
    requires BatchSpec(n, files[..i], engineName, fmt, useCache, env).nodes == m
    ensures BatchSpec(n, files[..i + 1], engineName, fmt, useCache, env).results
         == results + [ProcessSpec(m, files[i], engineName, fmt, useCache, env).ok]
    ensures BatchSpec(n, files[..i + 1], engineName, fmt, useCache, env).nodes
         == ProcessSpec(m, files[i], engineName, fmt, useCache, env).nodes
  {
    assert files[..i + 1][..i] == files[..i];
  }

  /**
    The loop of lines 229-245: every file in list order, counting successes
    and failures.
  */
  method RunBatch(fs: FileSystem, audioFiles: seq<string>, engineName: string, fmt: string, useCache: bool, env: Env)
    returns (successCount: nat, failedCount: nat)
    modifies fs
    ensures var b := BatchSpec(old(fs.nodes), audioFiles, engineName, fmt, useCache, env);
      fs.nodes == b.nodes && successCount == CountOf(b.results, true) && failedCount == CountOf(b.results, false)
  {
    successCount, failedCount := 0, 0;
    ghost var n0 := fs.nodes;
    ghost var results: seq<bool> := [];
    var i := 0;
    while i < |audioFiles|
      invariant 0 <= i <= |audioFiles|
      invariant BatchSpec(n0, audioFiles[..i], engineName, fmt, useCache, env).results == results
      invariant BatchSpec(n0, audioFiles[..i], engineName, fmt, useCache, env).nodes == fs.nodes
      invariant successCount == CountOf(results, true) && failedCount == CountOf(results, false)
    {
      BatchStep(n0, audioFiles, i, results, fs.nodes, engineName, fmt, useCache, env);
      var ok := ProcessAudioFile(fs, audioFiles[i], engineName, fmt, useCache, env);
      CountOfSnoc(results, ok);
      results := results + [ok];
      if ok {
        successCount := successCount + 1;
      } else {
        failedCount := failedCount + 1;
      }
      i := i + 1;
    }
    assert audioFiles[..i] == audioFiles;
  }

  /**
    `main` after argument parsing: `exitCode` is 2 for a code or format
    `argparse` refuses, 1 when discovery finds nothing, and otherwise 0 or 1
    as every file succeeded or not; the two counters add up to the number of
    files.
  */
  method RunCli(fs: FileSystem, input: string, engineCode: string, format: string, noCache: bool, env: Env)
    returns (exitCode: int, audioFiles: seq<string>, successCount: nat, failedCount: nat)
    requires Canonical(input)
    modifies fs
    ensures engineCode !in ASR_ENGINES || format !in FORMAT_CHOICES ==>
      exitCode == 2 && audioFiles == [] && fs.nodes == old(fs.nodes)
    ensures engineCode in ASR_ENGINES && format in FORMAT_CHOICES ==>
      Discovered(old(fs.nodes), input, audioFiles) &&
      var b := BatchSpec(old(fs.nodes), audioFiles, ASR_ENGINES[engineCode], format, !noCache, env);
      && fs.nodes == b.nodes
      && successCount == CountOf(b.results, true)
      && failedCount == CountOf(b.results, false)
      && successCount + failedCount == |audioFiles|
      && exitCode == ExitCode(b.results)
  {
    if engineCode !in ASR_ENGINES || format !in FORMAT_CHOICES {
      return 2, [], 0, 0;
    }
    var engineName := ASR_ENGINES[engineCode];
    var useCache := !noCache;

    audioFiles := GetAudioFiles(fs, input);
    if |audioFiles| == 0 {
      return 1, audioFiles, 0, 0;
    }

    ghost var b := BatchSpec(fs.nodes, audioFiles, engineName, format, useCache, env);
    successCount, failedCount := RunBatch(fs, audioFiles, engineName, format, useCache, env);
    CountsAddUp(b.results);
    NoFailureMeansAllSucceeded(b.results);
    exitCode := if failedCount == 0 then 0 else 1;
  }
}
