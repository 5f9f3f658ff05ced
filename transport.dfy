/**
  The Whisper batch script (`transport.py`): walk a path, and for every
  `.mp3` file that has no `.txt` beside it yet, transcribe it and write the
  non-blank segments, stripped, one per line.

  What the script calls but does not own is a parameter (`Env`): whether
  `ffprobe` prints a duration that `float` accepts, and what the Whisper
  model does with the audio. Both depend only on the bytes of the file.
  Every exception the script meets is uncaught: it ends the whole run, which
  is what `crashed` records.
*/
module Transport {
  import opened Options
  import opened PyStr
  import opened FileSystem

  /**
    What `model.transcribe` does: it raises before returning, or it returns
    segments whose texts come out one by one and that may raise once they
    are exhausted (decoding is lazy).
  */
  datatype Whisper = Raises | Yields(texts: seq<string>, thenRaises: bool)

  /** The collaborators the script calls but does not own, as functions of the audio's contents. */
  datatype Env = Env(durationOk: string -> bool, transcribe: string -> Whisper)

  /** Whether the run ended with an uncaught exception, and the file system it leaves. */
  datatype Run = Run(crashed: bool, nodes: Nodes)

  // ---------------------------------------------------------------------------
  // Paths

  /** The file whose existence makes `handle_file` skip `p`: `.mp3` replaced by `.txt` everywhere. */
  function SkipPath(p: string): string {
    Replace(p, ".mp3", ".txt")
  }

  /** Where `sts_file_clean` writes: `.mp3`, and then `.wav`, replaced by `.txt` everywhere. */
  function TranscriptPath(p: string): string {
    Replace(SkipPath(p), ".wav", ".txt")
  }

  lemma Mp3Unbordered()
    ensures Unbordered(".mp3")
  {
    forall k | 0 < k < 4 ensures ".mp3"[k..] != ".mp3"[..4 - k] {
      assert ".mp3"[k..][0] != ".mp3"[..4 - k][0];
    }
  }

  /** For an `.mp3` file, the skip path ends in `.txt` and has the length of the source. */
  lemma SkipPathShape(p: string)
    requires EndsWith(p, ".mp3")
    ensures EndsWith(SkipPath(p), ".txt") && |SkipPath(p)| == |p|
  {
    Mp3Unbordered();
    ReplaceEndsWithRep(p, ".mp3", ".txt");
    ReplaceSameLength(p, ".mp3", ".txt");
  }

  /**
    For an `.mp3` file, the transcript ends in `.txt` too: replacing `.wav`
    cannot reach the final `.txt`. So it is never the source itself.
  */
  lemma TranscriptPathShape(p: string)
    requires EndsWith(p, ".mp3")
    ensures EndsWith(TranscriptPath(p), ".txt") && |TranscriptPath(p)| == |p|
    ensures TranscriptPath(p) != p
  {
    SkipPathShape(p);
    forall k | 1 <= k <= 4 ensures ".wav"[4 - k..] != ".txt"[..k] {
      assert ".wav"[4 - k..][k - 1] != ".txt"[..k][k - 1];
    }
    ReplaceKeepsTail(SkipPath(p), ".wav", ".txt", ".txt");
    ReplaceSameLength(SkipPath(p), ".wav", ".txt");
    var t := TranscriptPath(p);
    assert t[|t| - 1] == 't' && p[|p| - 1] == '3' by {
      assert t[|t| - 4..][3] == t[|t| - 1];
      assert p[|p| - 4..][3] == p[|p| - 1];
    }
  }

  /** A path that ends in `.txt` does not end in `.mp3`. */
  lemma TxtIsNotMp3(q: string)
    requires EndsWith(q, ".txt")
    ensures !EndsWith(q, ".mp3")
  {
    assert q[|q| - 4..][3] == q[|q| - 1];
  }

  /** Where the path holds no `.wav`, the file checked and the file written are the same. */
  lemma PathsAgreeWithoutWav(p: string)
    requires !Occurs(p, ".wav")
    ensures TranscriptPath(p) == SkipPath(p)
  {
    ReplaceMp3CreatesNoWav(p);
    ReplaceAbsent(SkipPath(p), ".wav", ".txt");
  }

  /**
    Where the path holds `.wav`, the two differ: the `.wav` survives the first
    replacement, so the second one changes the path.
  */
  lemma WavSplitsThePaths(p: string)
    requires Occurs(p, ".wav")
    ensures TranscriptPath(p) != SkipPath(p)
  {
    ReplaceMp3KeepsWav(p);
    ReplaceChanges(SkipPath(p), ".wav", ".txt");
  }

  /** The file written is the file checked exactly when the path holds no `.wav`. */
  lemma PathsAgreeIffNoWav(p: string)
    ensures TranscriptPath(p) == SkipPath(p) <==> !Occurs(p, ".wav")
  {
    if Occurs(p, ".wav") {
      WavSplitsThePaths(p);
    } else {
      PathsAgreeWithoutWav(p);
    }
  }

  /** `replace` copies a first character that cannot start a match. */
  lemma ReplaceCopies(c: char, s: string, pat: string, rep: string)
    requires |pat| > 0 && c != pat[0]
    ensures Replace([c] + s, pat, rep) == [c] + Replace(s, pat, rep)
  {
    assert ([c] + s)[1..] == s;
  }

  /** `replace` copies a dot that the next character keeps from starting a match. */
  lemma ReplaceCopiesDot(s: string, pat: string, rep: string)
    requires |pat| > 1 && pat[0] == '.' && |s| > 0 && s[0] != pat[1]
    ensures Replace(['.'] + s, pat, rep) == ['.'] + Replace(s, pat, rep)
  {
    assert (['.'] + s)[1..] == s;
    if |s| + 1 >= |pat| {
      assert (['.'] + s)[..|pat|][1] != pat[1];
    }
  }

  lemma Mp3TailV()
    ensures Replace("v.mp3", ".mp3", ".txt") == "v.txt"
  {
    assert Replace(".mp3", ".mp3", ".txt") == ".txt";
    ReplaceCopies('v', ".mp3", ".mp3", ".txt");
  }

  lemma Mp3TailAv()
    ensures Replace("av.mp3", ".mp3", ".txt") == "av.txt"
  {
    Mp3TailV();
    ReplaceCopies('a', "v.mp3", ".mp3", ".txt");
  }

  lemma Mp3TailWa()
    ensures Replace("wav.mp3", ".mp3", ".txt") == "wav.txt"
  {
    Mp3TailAv();
    ReplaceCopies('w', "av.mp3", ".mp3", ".txt");
  }

  lemma Mp3TailWav()
    ensures Replace(".wav.mp3", ".mp3", ".txt") == ".wav.txt"
  {
    Mp3TailWa();
    ReplaceCopiesDot("wav.mp3", ".mp3", ".txt");
    assert ['.'] + "wav.mp3" == ".wav.mp3";
  }

  lemma WavTailTxt()
    ensures Replace(".wav.txt", ".wav", ".txt") == ".txt.txt"
  {
    assert Replace(".txt", ".wav", ".txt") == ".txt";
    assert ".wav.txt" == ".wav" + ".txt";
  }

  /**
    Where the path holds `.wav`, the file checked and the file written
    differ: for `a.wav.mp3` the script checks `a.wav.txt` but writes
    `a.txt.txt` (any first character but a dot will do for `a`).
  */
  lemma WavInPathSplitsTheTwo(c: char)
    requires c != '.'
    ensures SkipPath([c] + ".wav.mp3") == [c] + ".wav.txt"
    ensures TranscriptPath([c] + ".wav.mp3") == [c] + ".txt.txt"
  {
    Mp3TailWav();
    ReplaceCopies(c, ".wav.mp3", ".mp3", ".txt");
    WavTailTxt();
    ReplaceCopies(c, ".wav.txt", ".wav", ".txt");
  }

  // ---------------------------------------------------------------------------
  // The transcript text

  /** What one segment adds to the file: its stripped text and a newline, or nothing when that is empty. */
  function Line(text: string): string {
    var t := Strip(text);
    if t == [] then [] else t + "\n"
  }

  /** What the writing loop of `sts_file_clean` leaves in the file after the texts `texts`. */
  function CleanText(texts: seq<string>): string
    decreases |texts|
  {
    if texts == [] then []
    else CleanText(texts[..|texts| - 1]) + Line(texts[|texts| - 1])
  }

  /** The stripped texts of the segments that are not blank, in order. */
  function Kept(texts: seq<string>): seq<string>
    decreases |texts|
  {
    if texts == [] then []
    else
      var t := Strip(texts[|texts| - 1]);
      Kept(texts[..|texts| - 1]) + (if t == [] then [] else [t])
  }

  /** Lines, each followed by a newline. */
  function JoinLines(lines: seq<string>): string
    decreases |lines|
  {
    if lines == [] then [] else lines[0] + "\n" + JoinLines(lines[1..])
  }

  /** Reading a newline-terminated text back as its lines. */
  function SplitLines(s: string): seq<string>
    decreases |s|
  {
    if s == [] then []
    else match IndexOf(s, '\n')
      case None => [s]
      case Some(i) => [s[..i]] + SplitLines(s[i + 1..])
  }

  lemma {:induction false} JoinLinesSnoc(lines: seq<string>, l: string)
    ensures JoinLines(lines + [l]) == JoinLines(lines) + l + "\n"
    decreases |lines|
  {
    if lines != [] {
      assert (lines + [l])[1..] == lines[1..] + [l];
      JoinLinesSnoc(lines[1..], l);
    } else {
      assert JoinLines([l]) == l + "\n" + JoinLines([]);
    }
  }

  /** The file holds exactly the kept texts, one per line. */
  lemma {:induction false} CleanTextIsJoinOfKept(texts: seq<string>)
    ensures CleanText(texts) == JoinLines(Kept(texts))
    decreases |texts|
  {
    if texts != [] {
      var init := texts[..|texts| - 1];
      var t := Strip(texts[|texts| - 1]);
      CleanTextIsJoinOfKept(init);
      assert CleanText(texts) == CleanText(init) + Line(texts[|texts| - 1]);
      if t != [] {
        assert Kept(texts) == Kept(init) + [t];
        JoinLinesSnoc(Kept(init), t);
      } else {
        assert Kept(texts) == Kept(init) + [];
        assert Kept(init) + [] == Kept(init);
      }
    }
  }

  /** Lines without newlines come back from their joined text unchanged. */
  lemma {:induction false} SplitJoinLines(lines: seq<string>)
    requires forall i :: 0 <= i < |lines| ==> '\n' !in lines[i]
    ensures SplitLines(JoinLines(lines)) == lines
    decreases |lines|
  {
    if lines != [] {
      var rest := JoinLines(lines[1..]);
      IndexOfAfter(lines[0], '\n', rest);
      var s := lines[0] + "\n" + rest;
      assert s[..|lines[0]|] == lines[0];
      assert s[|lines[0]| + 1..] == rest;
      SplitJoinLines(lines[1..]);
      assert [lines[0]] + lines[1..] == lines;
    }
  }

  /** The kept texts hold no newline when no stripped text does. */
  lemma {:induction false} KeptWithoutNewlines(texts: seq<string>)
    requires forall i :: 0 <= i < |texts| ==> '\n' !in Strip(texts[i])
    ensures forall j :: 0 <= j < |Kept(texts)| ==> '\n' !in Kept(texts)[j]
    decreases |texts|
  {
    if texts != [] {
      var init := texts[..|texts| - 1];
      assert forall i :: 0 <= i < |init| ==> init[i] == texts[i];
      KeptWithoutNewlines(init);
    }
  }

  /**
    When no segment's stripped text holds a newline, the file reads back, line
    by line, as the stripped texts of the non-blank segments.
  */
  lemma TranscriptReadsBack(texts: seq<string>)
    requires forall i :: 0 <= i < |texts| ==> '\n' !in Strip(texts[i])
    ensures SplitLines(CleanText(texts)) == Kept(texts)
  {
    CleanTextIsJoinOfKept(texts);
    KeptWithoutNewlines(texts);
    SplitJoinLines(Kept(texts));
  }

  /** Every line kept is non-empty and neither starts nor ends with whitespace. */
  lemma {:induction false} KeptLinesTrimmed(texts: seq<string>)
    ensures forall j :: 0 <= j < |Kept(texts)| ==>
      Kept(texts)[j] != [] && !IsSpace(Kept(texts)[j][0]) && !IsSpace(Kept(texts)[j][|Kept(texts)[j]| - 1])
    decreases |texts|
  {
    if texts != [] {
      KeptLinesTrimmed(texts[..|texts| - 1]);
      StripTrimmed(texts[|texts| - 1]);
    }
  }

  /** Every segment's text is whitespace only. */
  ghost predicate AllBlank(texts: seq<string>) {
    forall i :: 0 <= i < |texts| ==> Strip(texts[i]) == []
  }

  lemma AllBlankSnoc(texts: seq<string>)
    requires texts != []
    ensures AllBlank(texts) <==> AllBlank(texts[..|texts| - 1]) && Strip(texts[|texts| - 1]) == []
  {
    var init := texts[..|texts| - 1];
    if AllBlank(init) && Strip(texts[|texts| - 1]) == [] {
      forall i | 0 <= i < |texts| ensures Strip(texts[i]) == [] {
        if i < |init| {
          assert texts[i] == init[i];
        }
      }
    }
    if AllBlank(texts) {
      forall i | 0 <= i < |init| ensures Strip(init[i]) == [] {
        assert init[i] == texts[i];
      }
    }
  }

  /** The file is empty exactly when every segment is blank. */
  lemma {:induction false} CleanTextEmptyIffBlank(texts: seq<string>)
    ensures CleanText(texts) == [] <==> AllBlank(texts)
    decreases |texts|
  {
    if texts != [] {
      var init, last := texts[..|texts| - 1], texts[|texts| - 1];
      CleanTextEmptyIffBlank(init);
      AllBlankSnoc(texts);
      assert CleanText(texts) == CleanText(init) + Line(last);
      assert Line(last) == [] <==> Strip(last) == [];
    }
  }

  /** One more segment adds its stripped text and a newline to the end of the file, unless it is blank. */
  lemma LineAppended(texts: seq<string>, i: nat)
    requires i < |texts|
    ensures Strip(texts[i]) == [] ==> CleanText(texts[..i + 1]) == CleanText(texts[..i])
    ensures Strip(texts[i]) != [] ==> CleanText(texts[..i + 1]) == CleanText(texts[..i]) + (Strip(texts[i]) + "\n")
  {
    assert texts[..i + 1][..i] == texts[..i];
    assert CleanText(texts[..i]) + [] == CleanText(texts[..i]);
  }

  // ---------------------------------------------------------------------------
  // One file

  /**
    `sts_file_clean(p)`: probe the duration (a missing file, or contents
    whose printed duration `float` refuses, raises), transcribe, open the
    transcript for writing, then write the lines while the segments last.
  */
  function StsSpec(n: Nodes, p: string, env: Env): Run
    requires !IsDir(n, p)
  {
    var out := TranscriptPath(p);
    if p !in n || !env.durationOk(n[p].data) then Run(true, n)
    else match env.transcribe(n[p].data)
      case Raises => Run(true, n)
      case Yields(texts, thenRaises) =>
        if !CanWrite(n, out) then Run(true, n)
        else Run(thenRaises, n[out := File(CleanText(texts))])
  }

  /**
    `sts_file_clean(p)` gets as far as opening the transcript: the file is
    there, the duration probe passes, Whisper returns its segments, and
    `open` succeeds. Only then is anything written.
  */
  predicate Opens(n: Nodes, p: string, env: Env) {
    IsFile(n, p) && env.durationOk(n[p].data) && env.transcribe(n[p].data).Yields? && CanWrite(n, TranscriptPath(p))
  }

  /** One pass of the writing loop: the file then holds the clean text of one more segment. */
  lemma WriteStep(n: Nodes, p: string, texts: seq<string>, i: nat)
    requires i < |texts|
    ensures var m := n[p := File(CleanText(texts[..i]))]; var t := Strip(texts[i]);
      && (t == [] ==> m == n[p := File(CleanText(texts[..i + 1]))])
      && (t != [] ==> m[p := File(m[p].data + (t + "\n"))] == n[p := File(CleanText(texts[..i + 1]))])
  {
    LineAppended(texts, i);
    var m := n[p := File(CleanText(texts[..i]))];
    var t := Strip(texts[i]);
    if t != [] {
      var d := CleanText(texts[..i + 1]);
      assert m[p].data + (t + "\n") == d;
      MapOverwrite(n, p, File(CleanText(texts[..i])), File(d));
    }
  }

  /** Writing a key twice leaves the second value. */
  lemma MapOverwrite(n: Nodes, p: string, a: Node, b: Node)
    ensures n[p := a][p := b] == n[p := b]
  {
  }

  /** The loop of `sts_file_clean` over the segments, on a transcript just opened (and so emptied). */
  method WriteLines(fs: FileSystem, outputPath: string, texts: seq<string>)
    requires IsFile(fs.nodes, outputPath) && fs.nodes[outputPath].data == []
    modifies fs
    ensures fs.nodes == old(fs.nodes)[outputPath := File(CleanText(texts))]
  {
    ghost var n0 := fs.nodes;
    assert texts[..0] == [];
    assert fs.nodes == n0[outputPath := File(CleanText(texts[..0]))];
    var i := 0;
    while i < |texts|
      invariant 0 <= i <= |texts|
      invariant fs.nodes == n0[outputPath := File(CleanText(texts[..i]))]
    {
      WriteStep(n0, outputPath, texts, i);
      var text := Strip(texts[i]);
      if text != [] {
        fs.AppendText(outputPath, text + "\n");
      }
      i := i + 1;
    }
    assert texts[..i] == texts;
  }

  /** `sts_file_clean`, run against the file system. */
  method StsFileClean(fs: FileSystem, filePath: string, env: Env) returns (crashed: bool)
    requires !IsDir(fs.nodes, filePath)
    modifies fs
    ensures crashed == StsSpec(old(fs.nodes), filePath, env).crashed
    ensures fs.nodes == StsSpec(old(fs.nodes), filePath, env).nodes
  {
    var outputPath := TranscriptPath(filePath);
    if filePath !in fs.nodes || !env.durationOk(fs.nodes[filePath].data) {
      return true;
    }
    var segments := env.transcribe(fs.nodes[filePath].data);
    if segments.Raises? {
      return true;
    }
    var isOpen := fs.WriteText(outputPath, "");
    if !isOpen {
      return true;
    }
    ghost var n1 := fs.nodes;
    WriteLines(fs, outputPath, segments.texts);
    assert fs.nodes == old(fs.nodes)[outputPath := File(CleanText(segments.texts))] by {
      assert n1 == old(fs.nodes)[outputPath := File([])];
    }
    return segments.thenRaises;
  }

  /** The branch of `handle_file` for anything but a directory. */
  function VisitSpec(n: Nodes, p: string, env: Env): Run
    requires !IsDir(n, p)
  {
    if !EndsWith(p, ".mp3") then Run(false, n)
    else if SkipPath(p) in n then Run(false, n)
    else StsSpec(n, p, env)
  }

  /** What a walk may do to the tree: keep every directory and every entry, and write only `.txt` files. */
  ghost predicate Grows(n0: Nodes, n1: Nodes) {
    && (forall q :: IsDir(n1, q) <==> IsDir(n0, q))
    && (forall q :: q in n0 ==> q in n1)
    && (forall q :: q in n1 && (q !in n0 || n1[q] != n0[q]) ==> EndsWith(q, ".txt"))
  }

  lemma GrowsRefl(n: Nodes)
    ensures Grows(n, n)
  {
  }

  lemma GrowsTrans(n0: Nodes, n1: Nodes, n2: Nodes)
    requires Grows(n0, n1) && Grows(n1, n2)
    ensures Grows(n0, n2)
  {
    forall q | q in n2 && (q !in n0 || n2[q] != n0[q]) ensures EndsWith(q, ".txt") {
      if q in n1 && n2[q] == n1[q] {
        assert q in n0 ==> n1[q] != n0[q];
      }
    }
  }

  /**
    Visiting a file other than a directory writes at most its transcript, a
    `.txt` file, and only when the file ends in `.mp3` and no skip file
    exists; a file that is skipped changes nothing and does not fail.
  */
  lemma VisitEffect(n: Nodes, p: string, env: Env)
    requires !IsDir(n, p)
    ensures var r := VisitSpec(n, p, env);
      r.nodes != n ==> EndsWith(p, ".mp3") && SkipPath(p) !in n && p in n
                       && TranscriptPath(p) in r.nodes
                       && r.nodes == n[TranscriptPath(p) := r.nodes[TranscriptPath(p)]]
                       && TranscriptOf(n, p, r.nodes[TranscriptPath(p)], env)
    ensures !EndsWith(p, ".mp3") || SkipPath(p) in n ==> VisitSpec(n, p, env) == Run(false, n)
    ensures Grows(n, VisitSpec(n, p, env).nodes)
  {
    if EndsWith(p, ".mp3") {
      TranscriptPathShape(p);
    }
  }

  /**
    A visit that did not fail leaves a `.mp3` file with its skip file or its
    transcript, and the transcript, when written, holds the kept texts one
    per line.
  */
  lemma VisitCovers(n: Nodes, p: string, env: Env)
    requires !IsDir(n, p) && EndsWith(p, ".mp3")
    requires !VisitSpec(n, p, env).crashed
    ensures var r := VisitSpec(n, p, env);
      SkipPath(p) in r.nodes || TranscriptPath(p) in r.nodes
    ensures var r := VisitSpec(n, p, env);
      SkipPath(p) !in n ==>
        p in n && env.transcribe(n[p].data).Yields? &&
        r.nodes[TranscriptPath(p)] == File(JoinLines(Kept(env.transcribe(n[p].data).texts))) &&
        TranscriptOf(n, p, r.nodes[TranscriptPath(p)], env)
  {
    if SkipPath(p) !in n {
      CleanTextIsJoinOfKept(env.transcribe(n[p].data).texts);
    }
  }

  /**
    Running the script again over a `.mp3` file whose path holds no `.wav`
    changes nothing, once the first run wrote its transcript, even a partial
    one that a failure cut short.
  */
  lemma RerunSkips(n: Nodes, p: string, env: Env)
    requires !IsDir(n, p) && !Occurs(p, ".wav")
    requires var r := VisitSpec(n, p, env); !r.crashed || r.nodes != n
    ensures var r := VisitSpec(n, p, env);
      !IsDir(r.nodes, p) && VisitSpec(r.nodes, p, env) == Run(false, r.nodes)
  {
    VisitEffect(n, p, env);
    PathsAgreeWithoutWav(p);
    if EndsWith(p, ".mp3") {
      TranscriptPathShape(p);
    }
  }

  /**
    With `.wav` in the path, a run does not stop the next one: `a.wav.mp3` is
    transcribed to `a.txt.txt`, and `a.wav.txt`, which the next run looks
    for, is still missing, so the next run transcribes the file again.
  */
  lemma WavPathIsTranscribedAgain(n: Nodes, env: Env, c: char)
    requires c != '.'
    requires IsFile(n, [c] + ".wav.mp3") && [c] + ".wav.txt" !in n
    ensures var p := [c] + ".wav.mp3"; var r := VisitSpec(n, p, env);
      !IsDir(r.nodes, p) && [c] + ".wav.txt" !in r.nodes &&
      VisitSpec(r.nodes, p, env) == StsSpec(r.nodes, p, env)
  {
    var p := [c] + ".wav.mp3";
    var written, checked := [c] + ".txt.txt", [c] + ".wav.txt";
    WavInPathSplitsTheTwo(c);
    assert EndsWith(p, ".mp3") by {
      assert p[|p| - 4..] == ".mp3";
    }
    assert written != checked by {
      assert written[2] == 't' && checked[2] == 'w';
    }
    VisitEffect(n, p, env);
    var r := VisitSpec(n, p, env);
    assert checked !in r.nodes;
    assert !IsDir(r.nodes, p);
  }

  /** `.mp3` alone is replaced whole. */
  lemma Mp3Alone()
    ensures Replace(".mp3", ".mp3", ".txt") == ".txt"
  {
    assert ".mp3"[..4] == ".mp3";
    assert ".mp3"[4..] == [];
  }

  /** A dot, a dot-free text that does not start with `m`, and `.mp3`: only the final `.mp3` changes. */
  lemma DotMidMp3(mid: string)
    requires '.' !in mid && |mid| > 0 && mid[0] != 'm'
    ensures Replace(['.'] + (mid + ".mp3"), ".mp3", ".txt") == ['.'] + (mid + ".txt")
  {
    Mp3Alone();
    ReplaceCopiesPrefix(mid, ".mp3", ".mp3", ".txt");
    ReplaceCopiesDot(mid + ".mp3", ".mp3", ".txt");
  }

  /** The skip path of `c.wav/x.mp3`: only the final `.mp3` changes. */
  lemma WavDirSkipPath(c: char, x: char)
    requires c != '.' && x != '.'
    ensures SkipPath([c] + ".wav/" + [x] + ".mp3") == [c] + ".wav/" + [x] + ".txt"
  {
    var mid := "wav/" + [x];
    assert '.' !in mid;
    DotMidMp3(mid);
    ReplaceCopies(c, ['.'] + (mid + ".mp3"), ".mp3", ".txt");
    assert [c] + ".wav/" + [x] + ".mp3" == [c] + (['.'] + (mid + ".mp3"));
    assert [c] + ".wav/" + [x] + ".txt" == [c] + (['.'] + (mid + ".txt"));
  }

  /** The one `.wav` after the first character of `c.wav<tail>.txt` becomes `.txt`. */
  lemma WavOnceReplaced(c: char, tail: string)
    requires c != '.' && '.' !in tail
    ensures Replace([c] + (".wav" + (tail + ".txt")), ".wav", ".txt") == [c] + (".txt" + (tail + ".txt"))
  {
    assert Replace(".txt", ".wav", ".txt") == ".txt";
    ReplaceCopiesPrefix(tail, ".txt", ".wav", ".txt");
    var rest := ".wav" + (tail + ".txt");
    assert rest[..4] == ".wav";
    assert rest[4..] == tail + ".txt";
    ReplaceCopies(c, rest, ".wav", ".txt");
  }

  /** The transcript path of `c.wav/x.mp3`: the directory's `.wav` becomes `.txt` as well. */
  lemma WavDirTranscriptPath(c: char, x: char)
    requires c != '.' && x != '.'
    ensures TranscriptPath([c] + ".wav/" + [x] + ".mp3") == [c] + ".txt/" + [x] + ".txt"
  {
    WavDirSkipPath(c, x);
    var tail := "/" + [x];
    WavOnceReplaced(c, tail);
    assert [c] + ".wav/" + [x] + ".txt" == [c] + (".wav" + (tail + ".txt"));
    assert [c] + ".txt/" + [x] + ".txt" == [c] + (".txt" + (tail + ".txt"));
  }

  /**
    A `.wav` in a directory name stops the whole walk: for `c.wav/x.mp3` the
    transcript goes to `c.txt/x.txt`, whose directory does not exist, so
    `open` raises, whatever the audio and the model do.
  */
  lemma WavDirectoryCrashes(c: char, x: char, data: string, env: Env)
    requires c != '.' && x != '.' && x != '/'
    ensures var dir := [c] + ".wav"; var p := dir + "/" + [x] + ".mp3";
      var n := map[dir := Dir, p := File(data)];
      !IsDir(n, p) && VisitSpec(n, p, env) == Run(true, n)
  {
    var dir := [c] + ".wav";
    var p := dir + "/" + [x] + ".mp3";
    var n := map[dir := Dir, p := File(data)];
    assert p == [c] + ".wav/" + [x] + ".mp3";
    WavDirSkipPath(c, x);
    WavDirTranscriptPath(c, x);
    var out := [c] + ".txt/" + [x] + ".txt";
    var t := "/" + [x] + ".txt";
    assert out[|out| - |t|..] == t;
    LastIndexOfInTail(out, t, '/', 0);
    assert out[..5][2] != dir[2];
    assert !ParentExists(n, out);
    assert p[|p| - 4..] == ".mp3";
    assert SkipPath(p)[|p| - 1] != p[|p| - 1];
  }

  // ---------------------------------------------------------------------------
  // The walk

  /**
    Every `.mp3` file among `visited` has its skip file in `n1`, or it is
    among `transcribed` (handed to `sts_file_clean`) and its transcript path
    holds what one of `transcribed` wrote there.
  */
  ghost predicate Covered(n0: Nodes, n1: Nodes, visited: set<string>, transcribed: set<string>, env: Env) {
    forall v :: v in visited && IsFile(n0, v) && EndsWith(v, ".mp3") ==>
      SkipPath(v) in n1 || (v in transcribed && HoldsTranscript(n0, n1, TranscriptPath(v), transcribed, env))
  }

  /** Every entry of a directory among `visited`, other than `open`, is among `visited` too. */
  ghost predicate ClosedBut(n: Nodes, visited: set<string>, open: Option<string>) {
    forall d, c :: d in visited && IsDir(n, d) && Some(d) != open && c in n && IsChild(d, c) ==> c in visited
  }

  /** Counting more files as transcribed keeps what is covered. */
  lemma CoveredMore(n0: Nodes, n1: Nodes, visited: set<string>, a: set<string>, b: set<string>, env: Env)
    requires Covered(n0, n1, visited, a, env) && a <= b
    ensures Covered(n0, n1, visited, b, env)
  {
    forall v | v in visited && IsFile(n0, v) && EndsWith(v, ".mp3") && SkipPath(v) !in n1
      ensures v in b && HoldsTranscript(n0, n1, TranscriptPath(v), b, env)
    {
      var w :| w in a && TranscriptPath(w) == TranscriptPath(v) && TranscriptOf(n0, w, n1[TranscriptPath(v)], env);
    }
  }

  /** Later writes of transcripts keep what is covered: a transcript is overwritten only by another one. */
  lemma CoveredLater(n0: Nodes, n1: Nodes, n2: Nodes, visited: set<string>, transcribed: set<string>,
                     done: set<string>, env: Env)
    requires Grows(n0, n1) && Grows(n1, n2) && Covered(n0, n1, visited, transcribed, env)
    requires WritesOnly(n1, n2, done, env) && forall v :: v in done ==> EndsWith(v, ".mp3")
    ensures Covered(n0, n2, visited, transcribed + done, env)
  {
    forall v | v in visited && IsFile(n0, v) && EndsWith(v, ".mp3") && SkipPath(v) !in n2
      ensures v in transcribed + done && HoldsTranscript(n0, n2, TranscriptPath(v), transcribed + done, env)
    {
      var q := TranscriptPath(v);
      if n2[q] == n1[q] {
        var w :| w in transcribed && TranscriptPath(w) == q && TranscriptOf(n0, w, n1[q], env);
        assert w in transcribed + done;
      } else {
        var w :| w in done && TranscriptPath(w) == q && TranscriptOf(n1, w, n2[q], env);
        Mp3Unchanged(n0, n1, w);
        assert w in transcribed + done;
      }
    }
  }

  /** What a later visit covered, judged by the tree it started from, is covered for an earlier tree. */
  lemma CoveredEarlier(n0: Nodes, n1: Nodes, n2: Nodes, visited: set<string>, transcribed: set<string>, env: Env)
    requires Grows(n0, n1) && Covered(n1, n2, visited, transcribed, env)
    requires forall v :: v in transcribed ==> EndsWith(v, ".mp3")
    ensures Covered(n0, n2, visited, transcribed, env)
  {
    forall v | v in visited && IsFile(n0, v) && EndsWith(v, ".mp3") && SkipPath(v) !in n2
      ensures v in transcribed && HoldsTranscript(n0, n2, TranscriptPath(v), transcribed, env)
    {
      if n1[v] != n0[v] {
        TxtIsNotMp3(v);
      }
      var q := TranscriptPath(v);
      var w :| w in transcribed && TranscriptPath(w) == q && TranscriptOf(n1, w, n2[q], env);
      Mp3Unchanged(n0, n1, w);
    }
  }

  /** A closed set of a later tree is closed for an earlier one: it has no more entries or directories. */
  lemma ClosedEarlier(n0: Nodes, n1: Nodes, visited: set<string>)
    requires Grows(n0, n1) && ClosedBut(n1, visited, None)
    ensures ClosedBut(n0, visited, None)
  {
  }

  /** The directories below `d` are the same in two trees with the same directories. */
  lemma DirsUnderOfGrows(n0: Nodes, n1: Nodes, d: string)
    requires Grows(n0, n1)
    ensures DirsUnder(n1, d) == DirsUnder(n0, d)
  {
    assert forall q :: q in Dirs(n1) <==> IsDir(n1, q);
    assert forall q :: q in Dirs(n0) <==> IsDir(n0, q);
    assert Dirs(n1) == Dirs(n0);
  }

  /** Every entry of `d` in `n` has been handled, or its name is still among `names`. */
  ghost predicate Pending(n: Nodes, d: string, visited: set<string>, names: set<string>) {
    forall c :: c in n && IsChild(d, c) ==> c in visited || c[|DirPrefix(d)|..] in names
  }

  /** Handling one more entry of the directory `d` keeps the walk's invariants. */
  lemma WalkStep(n0: Nodes, n1: Nodes, n2: Nodes, d: string, visited: set<string>, transcribed: set<string>,
                 seen: set<string>, done: set<string>, names: set<string>, name: string, env: Env)
    requires Grows(n0, n1) && Grows(n1, n2)
    requires ClosedBut(n0, visited, Some(d)) && Covered(n0, n1, visited, transcribed, env) && Pending(n0, d, visited, names)
    requires Join(d, name) in seen
    requires ClosedBut(n1, seen, None) && Covered(n1, n2, seen, done, env)
    requires WritesOnly(n1, n2, done, env) && forall v :: v in done ==> EndsWith(v, ".mp3")
    ensures Grows(n0, n2)
    ensures ClosedBut(n0, visited + seen, Some(d))
    ensures Covered(n0, n2, visited + seen, transcribed + done, env)
    ensures Pending(n0, d, visited + seen, names - {name})
  {
    GrowsTrans(n0, n1, n2);
    CoveredLater(n0, n1, n2, visited, transcribed, done, env);
    CoveredEarlier(n0, n1, n2, seen, done, env);
    CoveredMore(n0, n2, seen, done, transcribed + done, env);
    ClosedEarlier(n0, n1, seen);
    forall c | c in n0 && IsChild(d, c) && c !in visited + seen
      ensures c[|DirPrefix(d)|..] in names - {name}
    {
      ChildIsJoin(d, c);
    }
  }

  /** Once no name is left, the directory is closed too. */
  lemma WalkDone(n: Nodes, d: string, visited: set<string>)
    requires ClosedBut(n, visited, Some(d)) && Pending(n, d, visited, {})
    ensures ClosedBut(n, visited, None)
  {
  }

  /** A file the walk hands to `sts_file_clean` when it meets it in the tree `n`. */
  ghost predicate Transcribes(n: Nodes, v: string) {
    !IsDir(n, v) && EndsWith(v, ".mp3") && SkipPath(v) !in n
  }

  /** Transcribing each of `files` on the tree `n` would not raise. */
  ghost predicate AllSucceed(n: Nodes, files: set<string>, env: Env) {
    forall v :: v in files && !IsDir(n, v) ==> !StsSpec(n, v, env).crashed
  }

  /** `e` is what `sts_file_clean` leaves at the transcript of the file `v` of `n`: the clean text of its segments. */
  ghost predicate TranscriptOf(n: Nodes, v: string, e: Node, env: Env) {
    IsFile(n, v) && env.transcribe(n[v].data).Yields? && e == File(CleanText(env.transcribe(n[v].data).texts))
  }

  /** `n1` holds at `q` what one of `files` wrote there as its transcript: the clean text of its segments in `n0`. */
  ghost predicate HoldsTranscript(n0: Nodes, n1: Nodes, q: string, files: set<string>, env: Env) {
    q in n1 && exists w :: w in files && TranscriptPath(w) == q && TranscriptOf(n0, w, n1[q], env)
  }

  /** Every entry written between `n0` and `n1` is the transcript of one of `files`, as that file wrote it. */
  ghost predicate WritesOnly(n0: Nodes, n1: Nodes, files: set<string>, env: Env) {
    forall q :: q in n1 && (q !in n0 || n1[q] != n0[q]) ==> HoldsTranscript(n0, n1, q, files, env)
  }

  /** A `.mp3` file of a grown tree is the file it was in the earlier tree. */
  lemma Mp3Unchanged(n0: Nodes, n1: Nodes, v: string)
    requires Grows(n0, n1) && IsFile(n1, v) && EndsWith(v, ".mp3")
    ensures IsFile(n0, v) && n0[v] == n1[v]
  {
    if v !in n0 || n1[v] != n0[v] {
      TxtIsNotMp3(v);
    }
  }

  /** What two walks write together is the transcripts of the files both transcribed. */
  lemma WritesOnlyTrans(n0: Nodes, n1: Nodes, n2: Nodes, a: set<string>, b: set<string>, env: Env)
    requires WritesOnly(n0, n1, a, env) && WritesOnly(n1, n2, b, env)
    requires Grows(n0, n1) && forall v :: v in b ==> EndsWith(v, ".mp3")
    ensures WritesOnly(n0, n2, a + b, env)
  {
    forall q | q in n2 && (q !in n0 || n2[q] != n0[q])
      ensures HoldsTranscript(n0, n2, q, a + b, env)
    {
      if q in n1 && n2[q] == n1[q] {
        var v :| v in a && TranscriptPath(v) == q && TranscriptOf(n0, v, n1[q], env);
        assert v in a + b;
      } else {
        var v :| v in b && TranscriptPath(v) == q && TranscriptOf(n1, v, n2[q], env);
        Mp3Unchanged(n0, n1, v);
        assert v in a + b;
      }
    }
  }

  /**
    Whether transcribing a `.mp3` file raises does not depend on what the
    walk wrote before: the walk never changes a `.mp3` file or a directory.
  */
  lemma SameOutcome(n0: Nodes, n1: Nodes, v: string, env: Env)
    requires Grows(n0, n1) && !IsDir(n0, v) && EndsWith(v, ".mp3")
    ensures !IsDir(n1, v) && StsSpec(n1, v, env).crashed == StsSpec(n0, v, env).crashed
    ensures Opens(n1, v, env) == Opens(n0, v, env)
  {
    if v in n1 && (v !in n0 || n1[v] != n0[v]) {
      TxtIsNotMp3(v);
    }
    var out := TranscriptPath(v);
    assert CanWrite(n1, out) == CanWrite(n0, out) by {
      assert IsDir(n1, out) == IsDir(n0, out);
      match LastIndexOf(out, '/')
      case None =>
      case Some(i) => assert IsDir(n1, out[..i]) == IsDir(n0, out[..i]);
    }
  }

  /** The files a later walk transcribed, and whether they all succeed, read the same on an earlier tree. */
  lemma TranscribedEarlier(n0: Nodes, n1: Nodes, files: set<string>, env: Env)
    requires Grows(n0, n1)
    requires forall v :: v in files ==> Transcribes(n1, v)
    ensures forall v :: v in files ==> Transcribes(n0, v)
    ensures AllSucceed(n1, files, env) <==> AllSucceed(n0, files, env)
  {
    forall v | v in files ensures Transcribes(n0, v) && StsSpec(n1, v, env).crashed == StsSpec(n0, v, env).crashed {
      SameOutcome(n0, n1, v, env);
    }
  }

  /** The files transcribed below an entry of `d`, already in the tree, lie below `d`. */
  lemma TranscribedBelow(n0: Nodes, n1: Nodes, d: string, c: string, files: set<string>)
    requires Grows(n0, n1) && IsChild(d, c) && c in n0
    requires forall v :: v in files ==> Transcribes(n0, v) && (v == c || (Under(c, v) && v in n1))
    ensures forall v :: v in files ==> Under(d, v) && v in n0
  {
    forall v | v in files ensures Under(d, v) && v in n0 {
      if v != c {
        UnderChild(d, c, v);
        if v !in n0 {
          TxtIsNotMp3(v);
        }
      }
    }
  }

  /**
    `c` raised in `sts_file_clean` on the tree `n0`, and if it got as far as
    opening its transcript, `n1` holds there the clean text of its segments,
    written before the segment generator raised.
  */
  ghost predicate CrashedAt(n0: Nodes, n1: Nodes, c: string, env: Env) {
    && !IsDir(n0, c) && StsSpec(n0, c, env).crashed
    && (Opens(n0, c, env) ==> TranscriptPath(c) in n1 && TranscriptOf(n0, c, n1[TranscriptPath(c)], env))
  }

  /** A file that raised on a grown tree raised, and left the same transcript, on the earlier tree. */
  lemma CrashedEarlier(n0: Nodes, n1: Nodes, n2: Nodes, c: string, env: Env)
    requires Grows(n0, n1) && Transcribes(n1, c) && CrashedAt(n1, n2, c, env)
    ensures CrashedAt(n0, n2, c, env)
  {
    if c in n1 && (c !in n0 || n1[c] != n0[c]) {
      TxtIsNotMp3(c);
    }
    SameOutcome(n0, n1, c, env);
  }

  /** What visiting a non-directory does, in the terms of the walk: `files` is `{p}` when `p` reaches `sts_file_clean`. */
  lemma VisitWalk(n: Nodes, p: string, env: Env, files: set<string>)
    requires !IsDir(n, p)
    requires files == if EndsWith(p, ".mp3") && SkipPath(p) !in n then {p} else {}
    ensures var r := VisitSpec(n, p, env);
      && Grows(n, r.nodes) && WritesOnly(n, r.nodes, files, env)
      && (forall v :: v in files ==> Transcribes(n, v) && v == p)
      && (r.crashed <==> !AllSucceed(n, files, env))
      && (r.crashed ==> p in files && CrashedAt(n, r.nodes, p, env))
      && (!r.crashed ==> Covered(n, r.nodes, {p}, files, env))
  {
    VisitEffect(n, p, env);
    if EndsWith(p, ".mp3") && SkipPath(p) !in n && !VisitSpec(n, p, env).crashed {
      VisitCovers(n, p, env);
    }
  }

  /**
    `handle_file(p)`. A directory is listed once, and its entries are
    handled in the order the listing gives, which is the file system's and
    is left open here. Anything else is visited. An exception ends the walk.
    `visited` is the set of paths handled, and `transcribed` the set of
    `.mp3` files handed to `sts_file_clean`: the walk writes only their
    transcripts, each holding the clean text of one of them, and it raises
    exactly when one of them does, leaving that file's partial transcript.
  */
  method HandleFile(fs: FileSystem, p: string, env: Env)
    returns (crashed: bool, ghost visited: set<string>, ghost transcribed: set<string>)
    modifies fs
    ensures Grows(old(fs.nodes), fs.nodes)
    ensures WritesOnly(old(fs.nodes), fs.nodes, transcribed, env)
    ensures forall v :: v in transcribed ==>
      Transcribes(old(fs.nodes), v) && (v == p || (IsDir(old(fs.nodes), p) && Under(p, v) && v in old(fs.nodes)))
    ensures crashed <==> !AllSucceed(old(fs.nodes), transcribed, env)
    ensures crashed ==> exists c :: c in transcribed && CrashedAt(old(fs.nodes), fs.nodes, c, env)
    ensures !IsDir(old(fs.nodes), p) ==>
      crashed == VisitSpec(old(fs.nodes), p, env).crashed && fs.nodes == VisitSpec(old(fs.nodes), p, env).nodes
    ensures p in visited && transcribed <= visited
    ensures !crashed ==> ClosedBut(old(fs.nodes), visited, None) && Covered(old(fs.nodes), fs.nodes, visited, transcribed, env)
    decreases DirsUnder(fs.nodes, p), if IsDir(fs.nodes, p) then 1 else 0
  {
    ghost var n0 := fs.nodes;
    visited, transcribed := {p}, {};
    if IsDir(fs.nodes, p) {
      var names := ListDir(fs.nodes, p);
      crashed := false;
      while names != {}
        invariant Grows(n0, fs.nodes)
        invariant WritesOnly(n0, fs.nodes, transcribed, env)
        invariant forall v :: v in transcribed ==> Transcribes(n0, v) && Under(p, v) && v in n0
        invariant AllSucceed(n0, transcribed, env)
        invariant p in visited && transcribed <= visited
        invariant names <= ListDir(n0, p)
        invariant ClosedBut(n0, visited, Some(p))
        invariant Covered(n0, fs.nodes, visited, transcribed, env)
        invariant Pending(n0, p, visited, names)
        decreases names
      {
        var name :| name in names;
        var filename := Join(p, name);
        ListedChild(n0, p, name);
        DirsUnderChild(n0, p, filename);
        DirsUnderOfGrows(n0, fs.nodes, p);
        DirsUnderOfGrows(n0, fs.nodes, filename);
        ghost var n1 := fs.nodes;
        var failed, seen, done := HandleFile(fs, filename, env);
        TranscribedEarlier(n0, n1, done, env);
        TranscribedBelow(n0, n1, p, filename, done);
        WritesOnlyTrans(n0, n1, fs.nodes, transcribed, done, env);
        if failed {
          GrowsTrans(n0, n1, fs.nodes);
          ghost var c :| c in done && CrashedAt(n1, fs.nodes, c, env);
          CrashedEarlier(n0, n1, fs.nodes, c, env);
          assert c in transcribed + done;
          return true, visited + seen, transcribed + done;
        }
        WalkStep(n0, n1, fs.nodes, p, visited, transcribed, seen, done, names, name, env);
        names := names - {name};
        visited, transcribed := visited + seen, transcribed + done;
      }
      WalkDone(n0, p, visited);
    } else {
      VisitWalk(fs.nodes, p, env, if EndsWith(p, ".mp3") && SkipPath(p) !in fs.nodes then {p} else {});
      if EndsWith(p, ".mp3") {
        var srtFile := SkipPath(p);
        if srtFile in fs.nodes {
          return false, visited, transcribed;
        }
        transcribed := {p};
        crashed := StsFileClean(fs, p, env);
      } else {
        crashed := false;
      }
    }
  }

  /**
    In a well-formed tree, a set of paths that is closed under listing and
    holds the directory `d` holds every entry below `d`: each one is reached
    through the directory before its last slash.
  */
  lemma {:induction false} WalkReaches(n: Nodes, d: string, visited: set<string>, q: string)
    requires WellFormed(n) && ClosedBut(n, visited, None)
    requires d in visited && IsDir(n, d)
    requires q in n && Under(d, q)
    ensures q in visited
    decreases |q|
  {
    if '/' in q[|DirPrefix(d)|..] {
      ParentBelow(d, q);
      var i := LastIndexOf(q, '/').value;
      var parent := q[..i];
      assert IsDir(n, parent);
      WalkReaches(n, d, visited, parent);
      ParentOfChild(q, i);
    }
  }

  /** A `.mp3` file that the script is asked to handle: the input itself, or a file below the input directory. */
  ghost predicate Mp3InScope(n: Nodes, input: string, q: string) {
    IsFile(n, q) && EndsWith(q, ".mp3") && (q == input || (IsDir(n, input) && Under(input, q)))
  }

  /**
    The script's entry point: a missing input gives status 1 and changes
    nothing. Otherwise the walk runs over the input, and the status is 1
    exactly when one of the `.mp3` files it hands to `sts_file_clean` raises,
    0 when the walk finishes.
  */
  method TransportMain(fs: FileSystem, input: string, env: Env)
    returns (exitCode: int, ghost visited: set<string>, ghost transcribed: set<string>)
    requires Canonical(input)
    modifies fs
    ensures exitCode == 0 || exitCode == 1
    ensures input !in old(fs.nodes) ==> exitCode == 1 && fs.nodes == old(fs.nodes) && transcribed == {}
    ensures input in old(fs.nodes) ==> (exitCode == 0 <==> AllSucceed(old(fs.nodes), transcribed, env))
    ensures input in old(fs.nodes) && exitCode == 1 ==>
      exists c :: c in transcribed && CrashedAt(old(fs.nodes), fs.nodes, c, env)
    ensures input in old(fs.nodes) && !IsDir(old(fs.nodes), input) ==>
      fs.nodes == VisitSpec(old(fs.nodes), input, env).nodes && (exitCode == 1 <==> VisitSpec(old(fs.nodes), input, env).crashed)
    ensures forall v :: v in transcribed ==> Transcribes(old(fs.nodes), v) && Mp3InScope(old(fs.nodes), input, v)
    ensures Grows(old(fs.nodes), fs.nodes) && WritesOnly(old(fs.nodes), fs.nodes, transcribed, env)
    ensures exitCode == 0 ==>
      input in visited && ClosedBut(old(fs.nodes), visited, None) && Covered(old(fs.nodes), fs.nodes, visited, transcribed, env)
    ensures exitCode == 0 && WellFormed(old(fs.nodes)) ==>
      forall q :: Mp3InScope(old(fs.nodes), input, q) ==>
        SkipPath(q) in fs.nodes || (q in transcribed && HoldsTranscript(old(fs.nodes), fs.nodes, TranscriptPath(q), transcribed, env))
  {
    visited, transcribed := {}, {};
    if input !in fs.nodes {
      GrowsRefl(fs.nodes);
      return 1, visited, transcribed;
    }
    ghost var n0 := fs.nodes;
    var crashed;
    crashed, visited, transcribed := HandleFile(fs, input, env);
    exitCode := if crashed then 1 else 0;
    if !crashed && WellFormed(n0) {
      forall q | Mp3InScope(n0, input, q) ensures q in visited {
        if q != input {
          WalkReaches(n0, input, visited, q);
        }
      }
    }
  }
}
