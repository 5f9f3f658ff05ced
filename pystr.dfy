/** The optional value used by every module of the model. */
module Options {
  datatype Option<T> = None | Some(value: T)
}

/**
  The Python string operations the transcription scripts rely on, written out
  over `seq<char>`: `str.endswith`, `str.lower`, `str.rfind`/`str.rsplit`,
  `str.replace` and `str.strip`.
*/
module PyStr {
  import opened Options

  /** `s.endswith(suffix)` */
  predicate EndsWith(s: string, suffix: string) {
    |suffix| <= |s| && s[|s| - |suffix|..] == suffix
  }

  /** `s.startswith(prefix)` */
  predicate StartsWith(s: string, prefix: string) {
    |prefix| <= |s| && s[..|prefix|] == prefix
  }

  /**
    `str.lower` on one character: ASCII capitals, and KELVIN SIGN, which
    Python lowers to the ASCII letter `k`.
  */
  function LowerChar(c: char): char {
    if 'A' <= c <= 'Z' then (c as int + 32) as char
    else if c == '\U{212A}' then 'k'
    else c
  }

  /** `s.lower()`, character by character. */
  function Lower(s: string): (r: string)
    ensures |r| == |s|
    ensures forall i :: 0 <= i < |s| ==> r[i] == LowerChar(s[i])
  {
    seq(|s|, i requires 0 <= i < |s| => LowerChar(s[i]))
  }

  /** A string that `str.lower` leaves alone. */
  predicate IsLower(s: string) {
    forall i :: 0 <= i < |s| ==> LowerChar(s[i]) == s[i]
  }

  /** A string already in lower case is its own lowering. */
  lemma LowerOfLower(s: string)
    requires IsLower(s)
    ensures Lower(s) == s
  {
  }

  /**
    A path that ends with an already lower-case suffix still ends with it
    once lowered: this is why a name ending in `.mp3` passes the
    case-insensitive test as well.
  */
  lemma LowerKeepsLowerSuffix(s: string, suffix: string)
    requires IsLower(suffix)
    ensures EndsWith(s, suffix) ==> EndsWith(Lower(s), suffix)
  {
    if EndsWith(s, suffix) {
      var k := |s| - |suffix|;
      assert forall i :: 0 <= i < |suffix| ==> Lower(s)[k + i] == LowerChar(s[k + i]) == suffix[i];
    }
  }

  /** `s.rfind(c)` for one character: the position of its last occurrence. */
  function LastIndexOf(s: string, c: char): (r: Option<nat>)
    ensures r.Some? ==> r.value < |s|
  {
    if |s| == 0 then None
    else if s[|s| - 1] == c then Some(|s| - 1)
    else LastIndexOf(s[..|s| - 1], c)
  }

  /** The position found holds `c` and none after it does; nothing found means no `c` at all. */
  lemma {:induction false} LastIndexOfSpec(s: string, c: char)
    ensures var r := LastIndexOf(s, c);
      r.Some? ==> s[r.value] == c && forall j :: r.value < j < |s| ==> s[j] != c
    ensures LastIndexOf(s, c).None? ==> forall j :: 0 <= j < |s| ==> s[j] != c
    decreases |s|
  {
    if |s| > 0 && s[|s| - 1] != c {
      var t := s[..|s| - 1];
      LastIndexOfSpec(t, c);
      assert forall j :: 0 <= j < |t| ==> t[j] == s[j];
    }
  }

  /** The last occurrence is the one with no occurrence after it. */
  lemma {:induction false} LastIndexOfUnique(s: string, c: char, k: nat)
    requires k < |s| && s[k] == c
    requires forall j :: k < j < |s| ==> s[j] != c
    ensures LastIndexOf(s, c) == Some(k)
    decreases |s|
  {
    if k < |s| - 1 {
      var t := s[..|s| - 1];
      LastIndexOfUnique(t, c, k);
    }
  }

  /** `s.find(c)` for one character: the position of its first occurrence. */
  function IndexOf(s: string, c: char): (r: Option<nat>)
    ensures r.Some? ==> r.value < |s|
  {
    if |s| == 0 then None
    else if s[0] == c then Some(0)
    else match IndexOf(s[1..], c)
      case None => None
      case Some(i) => Some(i + 1)
  }

  /** The first `c` of `l + [c] + rest`, where `l` holds none, is the one after `l`. */
  lemma {:induction false} IndexOfAfter(l: string, c: char, rest: string)
    requires c !in l
    ensures IndexOf(l + [c] + rest, c) == Some(|l|)
    decreases |l|
  {
    var s := l + [c] + rest;
    if l != [] {
      assert s[0] == l[0];
      assert s[1..] == l[1..] + [c] + rest;
      IndexOfAfter(l[1..], c, rest);
    }
  }

  /** A tail of a tail of `s` is a tail of `s`. */
  lemma TailOfTail(s: string, t: string, i: nat)
    requires EndsWith(s, t) && i <= |t|
    ensures s[|s| - |t| + i..] == t[i..]
  {
    assert forall j :: 0 <= j < |t| - i ==> s[|s| - |t| + i..][j] == t[i..][j];
  }

  /** The last occurrence of `c` in a tail of `s` with no later `c` is the last in `s`. */
  lemma LastIndexOfInTail(s: string, t: string, c: char, i: nat)
    requires EndsWith(s, t) && i < |t| && t[i] == c
    requires forall j :: i < j < |t| ==> t[j] != c
    ensures LastIndexOf(s, c) == Some(|s| - |t| + i)
  {
    var k := |s| - |t| + i;
    forall j | k < j < |s| ensures s[j] != c {
      assert s[j] == t[j - (|s| - |t|)];
    }
    LastIndexOfUnique(s, c, k);
  }

  /** `s.rsplit(".", 1)[0]`: everything before the last dot, or all of `s`. */
  function RSplitHead(s: string): string {
    match LastIndexOf(s, '.')
    case None => s
    case Some(i) => s[..i]
  }

  /** Whether `pat` occurs in `s` at some position (`pat in s`). */
  predicate Occurs(s: string, pat: string)
    requires |pat| > 0
    decreases |s|
  {
    |pat| <= |s| && (s[..|pat|] == pat || Occurs(s[1..], pat))
  }

  /** An occurrence in a suffix is an occurrence. */
  lemma {:induction false} OccursInSuffix(s: string, pat: string, k: nat)
    requires |pat| > 0 && k <= |s|
    requires Occurs(s[k..], pat)
    ensures Occurs(s, pat)
    decreases k
  {
    if k > 0 {
      assert s[1..][k - 1..] == s[k..];
      OccursInSuffix(s[1..], pat, k - 1);
    }
  }

  /**
    `s.replace(pat, rep)` for a non-empty `pat`: occurrences are replaced
    from left to right, and an occurrence that overlaps one already replaced
    is not one.
  */
  function Replace(s: string, pat: string, rep: string): string
    requires |pat| > 0
    decreases |s|
  {
    if |s| < |pat| then s
    else if s[..|pat|] == pat then rep + Replace(s[|pat|..], pat, rep)
    else [s[0]] + Replace(s[1..], pat, rep)
  }

  /** A string without `pat` comes out of `replace` as it went in. */
  lemma {:induction false} ReplaceAbsent(s: string, pat: string, rep: string)
    requires |pat| > 0 && !Occurs(s, pat)
    ensures Replace(s, pat, rep) == s
    decreases |s|
  {
    if |s| >= |pat| {
      ReplaceAbsent(s[1..], pat, rep);
      assert [s[0]] + s[1..] == s;
    }
  }

  /** Replacing by a string of the same length keeps the length. */
  lemma {:induction false} ReplaceSameLength(s: string, pat: string, rep: string)
    requires |pat| > 0 && |rep| == |pat|
    ensures |Replace(s, pat, rep)| == |s|
    decreases |s|
  {
    if |s| >= |pat| {
      if s[..|pat|] == pat {
        ReplaceSameLength(s[|pat|..], pat, rep);
      } else {
        ReplaceSameLength(s[1..], pat, rep);
      }
    }
  }

  /** No proper suffix of `pat` is also a prefix of it, so two of its occurrences never overlap. */
  predicate Unbordered(pat: string) {
    forall k :: 0 < k < |pat| ==> pat[k..] != pat[..|pat| - k]
  }

  /** A string that starts and ends with `pat` and is shorter than two copies of it gives `pat` a border. */
  lemma OverlapGivesBorder(s: string, pat: string)
    requires StartsWith(s, pat) && EndsWith(s, pat)
    requires |pat| < |s| < 2 * |pat|
    ensures pat[|s| - |pat|..] == pat[..2 * |pat| - |s|]
  {
    var n, k := |pat|, |s| - |pat|;
    assert pat[k..] == s[k..n];
    assert s[k..n] == s[|s| - n..][..n - k];
  }

  /** Two occurrences of an unbordered `pat` at the two ends of `s` are the same one or do not overlap. */
  lemma UnborderedEnds(s: string, pat: string)
    requires Unbordered(pat) && StartsWith(s, pat) && EndsWith(s, pat)
    ensures |s| == |pat| || |s| >= 2 * |pat|
  {
    if |pat| < |s| < 2 * |pat| {
      OverlapGivesBorder(s, pat);
      assert false;
    }
  }

  /**
    If `s` ends with an unbordered `pat`, the scan of `replace` reaches that
    last occurrence, so the result ends with `rep`.
  */
  lemma {:induction false} ReplaceEndsWithRep(s: string, pat: string, rep: string)
    requires |pat| > 0 && Unbordered(pat)
    requires EndsWith(s, pat)
    ensures EndsWith(Replace(s, pat, rep), rep)
    decreases |s|
  {
    var n := |pat|;
    if s[..n] == pat {
      UnborderedEnds(s, pat);
      if |s| == n {
        assert Replace(s[n..], pat, rep) == [];
        assert rep + [] == rep;
      } else {
        EndsWithAfterDrop(s, n, pat);
        ReplaceEndsWithRep(s[n..], pat, rep);
        EndsWithAfterPrepend(rep, Replace(s[n..], pat, rep), rep);
      }
    } else {
      assert s != pat;
      EndsWithAfterDrop(s, 1, pat);
      ReplaceEndsWithRep(s[1..], pat, rep);
      EndsWithAfterPrepend([s[0]], Replace(s[1..], pat, rep), rep);
    }
  }


  /** An occurrence of `pat` at the start of `s` that reaches into the tail `t` overlaps it. */
  lemma OccurrenceTouchingTail(s: string, pat: string, t: string)
    requires StartsWith(s, pat) && EndsWith(s, t)
    requires |s| - |t| < |pat|
    ensures 1 <= |pat| - (|s| - |t|) <= |t|
    ensures pat[|s| - |t|..] == t[..|pat| - (|s| - |t|)]
  {
    var n, m := |pat|, |s| - |t|;
    assert pat[m..] == s[m..n];
    assert s[m..n] == s[m..][..n - m];
  }

  /**
    If no non-empty suffix of `pat` is a prefix of the tail `t` (and `t` is
    no longer than `pat`), no occurrence of `pat` can touch `t`, so
    `replace` leaves the tail in place.
  */
  lemma {:induction false} ReplaceKeepsTail(s: string, pat: string, rep: string, t: string)
    requires |pat| > 0 && |t| <= |pat|
    requires forall k :: 1 <= k <= |t| ==> pat[|pat| - k..] != t[..k]
    requires EndsWith(s, t)
    ensures EndsWith(Replace(s, pat, rep), t)
    decreases |s|
  {
    var n := |pat|;
    if |s| >= n {
      if s[..n] == pat {
        if |s| - |t| < n {
          OccurrenceTouchingTail(s, pat, t);
          assert false;
        }
        EndsWithAfterDrop(s, n, t);
        ReplaceKeepsTail(s[n..], pat, rep, t);
        EndsWithAfterPrepend(rep, Replace(s[n..], pat, rep), t);
      } else if |s| == |t| {
        assert |s[1..]| < n;
        assert Replace(s, pat, rep) == [s[0]] + s[1..] == s;
      } else {
        EndsWithAfterDrop(s, 1, t);
        ReplaceKeepsTail(s[1..], pat, rep, t);
        EndsWithAfterPrepend([s[0]], Replace(s[1..], pat, rep), t);
      }
    }
  }

  /** Dropping a prefix that does not reach the tail `t` keeps it. */
  lemma EndsWithAfterDrop(s: string, d: nat, t: string)
    requires EndsWith(s, t) && d <= |s| - |t|
    ensures EndsWith(s[d..], t)
  {
    assert s[d..][|s[d..]| - |t|..] == s[|s| - |t|..];
  }

  /** Putting anything in front keeps the tail `t`. */
  lemma EndsWithAfterPrepend(a: string, b: string, t: string)
    requires EndsWith(b, t)
    ensures EndsWith(a + b, t)
  {
    assert (a + b)[|a + b| - |t|..] == b[|b| - |t|..];
  }


  /** A match at the front of `s` puts the first character of `rep` at the front of the result. */
  lemma ReplaceHead(s: string, pat: string, rep: string)
    requires |pat| > 0 && |rep| > 0 && StartsWith(s, pat)
    ensures |Replace(s, pat, rep)| > 0 && Replace(s, pat, rep)[0] == rep[0]
  {
  }

  /** A string that starts with `c` and continues with `w` starts with `[c] + w`. */
  lemma ConsPrefix(s: string, c: char, w: string)
    requires |s| > 0 && s[0] == c && StartsWith(s[1..], w)
    ensures StartsWith(s, [c] + w)
  {
    assert s[..|w| + 1] == [s[0]] + s[1..][..|w|];
  }

  /**
    If `replace` produces a string that starts with `w`, and `w` does not
    contain the first character of `rep`, then those characters were copied:
    the input starts with `w` too.
  */
  lemma {:induction false} ReplacePrefixCopied(s: string, pat: string, rep: string, w: string)
    requires |pat| > 0 && |rep| > 0
    requires forall i :: 0 <= i < |w| ==> w[i] != rep[0]
    requires StartsWith(Replace(s, pat, rep), w)
    ensures StartsWith(s, w)
    decreases |w|
  {
    if |w| > 0 && |s| >= |pat| {
      if s[..|pat|] == pat {
        ReplaceHead(s, pat, rep);
        assert false;
      } else {
        var r := Replace(s, pat, rep);
        assert r == [s[0]] + Replace(s[1..], pat, rep);
        assert r[1..] == Replace(s[1..], pat, rep);
        assert StartsWith(r[1..], w[1..]);
        ReplacePrefixCopied(s[1..], pat, rep, w[1..]);
        ConsPrefix(s, w[0], w[1..]);
        assert [w[0]] + w[1..] == w;
      }
    }
  }

  /** A few characters prepended to `s` whose windows cannot match `q` add no occurrence. */
  lemma OccursAfterChar(c: char, s: string, q: string)
    requires |q| > 0 && c != q[0]
    ensures Occurs([c] + s, q) == Occurs(s, q)
  {
    assert ([c] + s)[1..] == s;
  }

  /**
    Replacing `.mp3` by `.txt` never creates a `.wav`: the inserted text
    cannot start a match and cannot be the middle or end of one.
  */
  lemma {:induction false} ReplaceMp3CreatesNoWav(s: string)
    requires !Occurs(s, ".wav")
    ensures !Occurs(Replace(s, ".mp3", ".txt"), ".wav")
    decreases |s|
  {
    var r := Replace(s, ".mp3", ".txt");
    if |s| < 4 {
    } else if s[..4] == ".mp3" {
      var r' := Replace(s[4..], ".mp3", ".txt");
      if Occurs(s[4..], ".wav") {
        OccursInSuffix(s, ".wav", 4);
      }
      ReplaceMp3CreatesNoWav(s[4..]);
      assert r == ".txt" + r';
      TxtAddsNoWav(r');
    } else {
      var r' := Replace(s[1..], ".mp3", ".txt");
      ReplaceMp3CreatesNoWav(s[1..]);
      ReplaceSameLength(s, ".mp3", ".txt");
      assert r == [s[0]] + r';
      assert r[1..] == r';
      if r[..4] == ".wav" {
        assert StartsWith(r', "wav");
        ReplacePrefixCopied(s[1..], ".mp3", ".txt", "wav");
        ConsPrefix(s, '.', "wav");
        assert false;
      }
    }
  }

  /** `.txt` in front of a text without `.wav` does not make one. */
  lemma TxtAddsNoWav(r: string)
    requires !Occurs(r, ".wav")
    ensures !Occurs(".txt" + r, ".wav")
  {
    var t := ".txt" + r;
    assert t[..4] == ".txt";
    assert t[1..] == ['t'] + ("xt" + r);
    OccursAfterChar('t', "xt" + r, ".wav");
    assert "xt" + r == ['x'] + ("t" + r);
    OccursAfterChar('x', "t" + r, ".wav");
    assert "t" + r == ['t'] + r;
    OccursAfterChar('t', r, ".wav");
  }

  /** Characters that cannot start a match are copied to the front of the result. */
  lemma {:induction false} ReplaceCopiesPrefix(a: string, b: string, pat: string, rep: string)
    requires |pat| > 0 && pat[0] !in a
    ensures Replace(a + b, pat, rep) == a + Replace(b, pat, rep)
    decreases |a|
  {
    if a == [] {
      assert a + b == b;
    } else {
      var s := a + b;
      var t := a[1..];
      assert a == [a[0]] + t;
      assert s[0] == a[0] != pat[0];
      assert s[1..] == t + b;
      ReplaceCopiesPrefix(t, b, pat, rep);
      if |s| < |pat| {
        assert Replace(s, pat, rep) == s;
        assert Replace(t + b, pat, rep) == t + b;
      } else {
        assert s[..|pat|][0] == s[0];
        assert Replace(s, pat, rep) == [a[0]] + Replace(t + b, pat, rep);
      }
    }
  }

  /** A string that holds `pat` is changed by replacing `pat` with another text of its length. */
  lemma {:induction false} ReplaceChanges(s: string, pat: string, rep: string)
    requires |pat| > 0 && |rep| == |pat| && rep != pat && Occurs(s, pat)
    ensures Replace(s, pat, rep) != s
    decreases |s|
  {
    var r := Replace(s, pat, rep);
    if s[..|pat|] == pat {
      assert r[..|pat|] == rep;
    } else {
      ReplaceChanges(s[1..], pat, rep);
      assert r[1..] == Replace(s[1..], pat, rep);
    }
  }

  /** An occurrence that does not start at the first character lies in the rest. */
  lemma OccursPastHead(s: string, pat: string)
    requires |pat| > 0 && Occurs(s, pat) && s[0] != pat[0]
    ensures Occurs(s[1..], pat)
  {
    assert s[..|pat|][0] == s[0];
  }

  /** A `.wav` in `s` is never part of a `.mp3`, so it survives replacing `.mp3` by `.txt`. */
  lemma {:induction false} ReplaceMp3KeepsWav(s: string)
    requires Occurs(s, ".wav")
    ensures Occurs(Replace(s, ".mp3", ".txt"), ".wav")
    decreases |s|
  {
    var r := Replace(s, ".mp3", ".txt");
    if s[..4] == ".mp3" {
      assert s[1] == 'm' && s[2] == 'p' && s[3] == '3' by {
        assert s[..4][1] == s[1] && s[..4][2] == s[2] && s[..4][3] == s[3];
      }
      assert Occurs(s[1..], ".wav");
      OccursPastHead(s[1..], ".wav");
      assert s[1..][1..] == s[2..];
      OccursPastHead(s[2..], ".wav");
      assert s[2..][1..] == s[3..];
      OccursPastHead(s[3..], ".wav");
      assert s[3..][1..] == s[4..];
      ReplaceMp3KeepsWav(s[4..]);
      assert r[4..] == Replace(s[4..], ".mp3", ".txt");
      OccursInSuffix(r, ".wav", 4);
    } else if s[..4] == ".wav" {
      assert s == ".wav" + s[4..];
      ReplaceCopiesPrefix("wav", s[4..], ".mp3", ".txt");
      assert s[1..] == "wav" + s[4..];
      assert r == ".wav" + Replace(s[4..], ".mp3", ".txt");
      assert r[..4] == ".wav";
    } else {
      ReplaceMp3KeepsWav(s[1..]);
      assert r == [s[0]] + Replace(s[1..], ".mp3", ".txt");
      assert r[1..] == Replace(s[1..], ".mp3", ".txt");
      OccursInSuffix(r, ".wav", 1);
    }
  }

  /**
    The characters `str.strip()` removes: those for which `str.isspace()` is
    true.
  */
  predicate IsSpace(c: char) {
    c == ' ' || '\t' <= c <= '\r' || '\U{1C}' <= c <= '\U{1F}'
    || c == '\U{85}' || c == '\U{A0}' || c == '\U{1680}'
    || '\U{2000}' <= c <= '\U{200A}' || c == '\U{2028}' || c == '\U{2029}'
    || c == '\U{202F}' || c == '\U{205F}' || c == '\U{3000}'
  }

  /** `s.lstrip()`: the suffix of `s` left after its leading whitespace. */
  function LStrip(s: string): (r: string)
    ensures |r| <= |s| && r == s[|s| - |r|..]
    ensures forall i :: 0 <= i < |s| - |r| ==> IsSpace(s[i])
    ensures r == [] || !IsSpace(r[0])
  {
    if |s| > 0 && IsSpace(s[0]) then LStrip(s[1..]) else s
  }

  /** `s.rstrip()`: the prefix of `s` left before its trailing whitespace. */
  function RStrip(s: string): (r: string)
    ensures |r| <= |s| && r == s[..|r|]
    ensures forall i :: |r| <= i < |s| ==> IsSpace(s[i])
    ensures r == [] || !IsSpace(r[|r| - 1])
  {
    if |s| > 0 && IsSpace(s[|s| - 1]) then RStrip(s[..|s| - 1]) else s
  }

  /** `s.strip()` */
  function Strip(s: string): string {
    RStrip(LStrip(s))
  }

  /**
    What `strip` keeps: a contiguous piece of `s`, and everything around it
    is whitespace.
  */
  lemma StripBounds(s: string) returns (i: nat, j: nat)
    ensures i <= j <= |s| && Strip(s) == s[i..j]
    ensures forall k :: 0 <= k < i ==> IsSpace(s[k])
    ensures forall k :: j <= k < |s| ==> IsSpace(s[k])
  {
    var l := LStrip(s);
    var r := RStrip(l);
    i := |s| - |l|;
    j := i + |r|;
    SliceOfSuffix(s, i, |r|);
    forall k | j <= k < |s| ensures IsSpace(s[k]) {
      assert s[k] == l[k - i];
    }
  }

  /** A prefix of a suffix is a slice. */
  lemma SliceOfSuffix(s: string, i: nat, m: nat)
    requires i + m <= |s|
    ensures s[i..][..m] == s[i..i + m]
  {
  }

  /** What `strip` keeps neither starts nor ends with whitespace. */
  lemma StripTrimmed(s: string)
    ensures Strip(s) == [] || (!IsSpace(Strip(s)[0]) && !IsSpace(Strip(s)[|Strip(s)| - 1]))
  {
    var l := LStrip(s);
    var r := RStrip(l);
    if r != [] {
      assert r[0] == l[0];
    }
  }

  /** `strip` gives the empty string exactly for strings made only of whitespace. */
  lemma StripEmptyIffBlank(s: string)
    ensures Strip(s) == [] <==> forall k :: 0 <= k < |s| ==> IsSpace(s[k])
  {
    var i, j := StripBounds(s);
  }
}
