/**
  The file system both scripts work on: a map from path to entry, where an
  entry is a regular file with its text or a directory. Paths are POSIX
  strings in the canonical form `pathlib` prints them in.
*/
module FileSystem {
  import opened Options
  import opened PyStr

  datatype Node = File(data: string) | Dir

  type Nodes = map<string, Node>

  /** `os.path.exists(p)` */
  predicate Exists(n: Nodes, p: string) {
    p in n
  }

  /** `os.path.isfile(p)` / `Path.is_file()` */
  predicate IsFile(n: Nodes, p: string) {
    p in n && n[p].File?
  }

  /** `os.path.isdir(p)` */
  predicate IsDir(n: Nodes, p: string) {
    p in n && n[p].Dir?
  }

  /** The directories of the tree: writing and removing files never changes this set. */
  function Dirs(n: Nodes): set<string> {
    set p | p in n && n[p].Dir?
  }

  /** `Path(p).name`: the last component of the path. */
  function Base(p: string): (r: string)
    ensures |r| <= |p|
  {
    match LastIndexOf(p, '/')
    case None => p
    case Some(i) => p[i + 1..]
  }

  /** The last component holds no slash and ends the path. */
  lemma BaseShape(p: string)
    ensures '/' !in Base(p) && EndsWith(p, Base(p))
  {
    LastIndexOfSpec(p, '/');
    var r := Base(p);
    assert forall j :: 0 <= j < |r| ==> r[j] == p[|p| - |r| + j];
  }

  /** What a program reads at `p`: the text of a regular file, or nothing where no file is. */
  function Content(n: Nodes, p: string): Option<string> {
    if IsFile(n, p) then Some(n[p].data) else None
  }

  /** Whether the directory that is to hold `p` exists (a path without a slash lives in the working directory). */
  predicate ParentExists(n: Nodes, p: string) {
    match LastIndexOf(p, '/')
    case None => true
    case Some(i) => i == 0 || IsDir(n, p[..i])
  }

  /** `open(p, "w")` succeeds: `p` is no directory and its directory exists. */
  predicate CanWrite(n: Nodes, p: string) {
    !IsDir(n, p) && ParentExists(n, p)
  }

  /** The prefix `os.path.join(d, name)` puts in front of a name. */
  function DirPrefix(d: string): string {
    if d == "" || EndsWith(d, "/") then d else d + "/"
  }

  /** `os.path.join(d, name)` for one relative name. */
  function Join(d: string, name: string): (r: string)
    ensures r == DirPrefix(d) + name
  {
    if d == "" then name
    else if EndsWith(d, "/") then d + name
    else d + "/" + name
  }

  /** `q` lies strictly below the directory `d`. */
  predicate Under(d: string, q: string) {
    |q| > |DirPrefix(d)| && StartsWith(q, DirPrefix(d))
  }

  /** `q` is an entry of the directory `d` itself. */
  predicate IsChild(d: string, q: string) {
    Under(d, q) && '/' !in q[|DirPrefix(d)|..]
  }

  /** `os.listdir(d)`: the names of the entries of `d`. */
  function ListDir(n: Nodes, d: string): set<string> {
    set q | q in n && IsChild(d, q) :: q[|DirPrefix(d)|..]
  }

  /** Every name `os.listdir` returns, joined to its directory, is an entry below that directory. */
  lemma ListedChild(n: Nodes, d: string, name: string)
    requires name in ListDir(n, d)
    ensures Join(d, name) in n && IsChild(d, Join(d, name))
  {
    var q :| q in n && IsChild(d, q) && q[|DirPrefix(d)|..] == name;
    ChildIsJoin(d, q);
  }

  /** An entry of `d` is `d` joined to its name. */
  lemma ChildIsJoin(d: string, c: string)
    requires IsChild(d, c)
    ensures c == Join(d, c[|DirPrefix(d)|..])
  {
    assert c == c[..|DirPrefix(d)|] + c[|DirPrefix(d)|..];
  }

  /** The entries below a child of `d` are below `d`: the walk goes down the tree. */
  lemma UnderChild(d: string, c: string, q: string)
    requires IsChild(d, c) && Under(c, q)
    ensures Under(d, q)
  {
    ChildPrefix(d, c);
    PrefixOfPrefix(DirPrefix(d), DirPrefix(c), q);
  }

  /** An entry of a directory is longer than the directory's prefix, starts with it, and does not end in a slash. */
  lemma ChildPrefix(d: string, c: string)
    requires IsChild(d, c)
    ensures DirPrefix(c) == c + "/"
    ensures StartsWith(DirPrefix(c), DirPrefix(d)) && |DirPrefix(d)| < |DirPrefix(c)|
  {
    var name := c[|DirPrefix(d)|..];
    assert c[|c| - 1] == name[|name| - 1];
    assert (c + "/")[..|DirPrefix(d)|] == c[..|DirPrefix(d)|];
  }

  /** Starting with a string that starts with `a` means starting with `a`. */
  lemma PrefixOfPrefix(a: string, b: string, q: string)
    requires StartsWith(b, a) && StartsWith(q, b)
    ensures StartsWith(q, a)
  {
    assert q[..|a|] == b[..|a|];
  }

  /** The directories strictly below `d`. */
  function DirsUnder(n: Nodes, d: string): set<string> {
    set q | q in Dirs(n) && Under(d, q)
  }

  /** Going from a directory to one of its entries leaves fewer directories below, or the same ones. */
  lemma DirsUnderChild(n: Nodes, d: string, c: string)
    requires IsChild(d, c)
    ensures DirsUnder(n, c) <= DirsUnder(n, d)
    ensures IsDir(n, c) ==> DirsUnder(n, c) < DirsUnder(n, d)
  {
    forall q | q in DirsUnder(n, c) ensures q in DirsUnder(n, d) {
      UnderChild(d, c, q);
    }
    if IsDir(n, c) {
      assert c in DirsUnder(n, d);
      assert c !in DirsUnder(n, c);
    }
  }

  /** The character at `i` is a whole component `.` of the path: `.` itself, `./`, `/./` or a final `/.`. */
  predicate DotComponent(q: string, i: nat)
    requires i < |q|
  {
    q[i] == '.' && (i == 0 || q[i - 1] == '/') && (i + 1 == |q| || q[i + 1] == '/')
  }

  /**
    A path in the form `pathlib` prints it: not empty, every slash but a
    leading one sits between two other characters, and no component is `.`
    (pathlib drops those; the working directory itself has no entry here).
  */
  predicate Canonical(q: string) {
    && |q| > 0
    && (forall i :: 0 < i < |q| && q[i] == '/' ==> q[i - 1] != '/' && i + 1 < |q|)
    && (forall i :: 0 <= i < |q| ==> !DotComponent(q, i))
  }

  /** `.`, `./x`, `a/./b` and `a/.` are not in that form; `a.mp3` and `../a` are. */
  lemma DotInputsAreNotCanonical()
    ensures !Canonical(".") && !Canonical("./x") && !Canonical("a/./b") && !Canonical("a/.")
    ensures Canonical("a.mp3") && Canonical("../a")
  {
    assert DotComponent(".", 0);
    assert DotComponent("./x", 0);
    assert DotComponent("a/./b", 2);
    assert DotComponent("a/.", 2);
  }

  /** A tree in which every entry has a canonical path and lies in a directory of the tree. */
  ghost predicate WellFormed(n: Nodes) {
    forall q :: q in n ==> Canonical(q) && ParentExists(n, q)
  }

  /**
    An entry below the directory `d` that is not one of its own entries has
    its last slash past the prefix of `d`, and the path before that slash is
    below `d` too.
  */
  lemma ParentBelow(d: string, q: string)
    requires d != "" && Canonical(q) && Under(d, q) && '/' in q[|DirPrefix(d)|..]
    ensures LastIndexOf(q, '/').Some?
    ensures var i := LastIndexOf(q, '/').value; i > |DirPrefix(d)| && Under(d, q[..i])
  {
    var k := |DirPrefix(d)|;
    var j := SlashAtOrAfter(q, k);
    LastIndexOfSpec(q, '/');
    var i := LastIndexOf(q, '/').value;
    assert k <= i;
    PrefixEndsWithSlash(d, q);
    assert q[..i][..k] == q[..k];
  }

  /** A slash in the tail `q[k..]` is a slash at some position from `k` on. */
  lemma SlashAtOrAfter(q: string, k: nat) returns (j: nat)
    requires k <= |q| && '/' in q[k..]
    ensures k <= j < |q| && q[j] == '/'
  {
    var m :| 0 <= m < |q[k..]| && q[k..][m] == '/';
    j := k + m;
  }

  /** The character before a path's part below a directory `d` is the slash that ends `d`'s prefix. */
  lemma PrefixEndsWithSlash(d: string, q: string)
    requires d != "" && Under(d, q)
    ensures q[|DirPrefix(d)| - 1] == '/'
  {
    var k := |DirPrefix(d)|;
    assert DirPrefix(d)[k - 1] == '/';
    assert q[..k][k - 1] == q[k - 1];
  }

  /** A canonical path is an entry of the path before its last slash. */
  lemma ParentOfChild(q: string, i: nat)
    requires Canonical(q) && LastIndexOf(q, '/') == Some(i) && i > 0
    ensures IsChild(q[..i], q)
  {
    LastIndexOfSpec(q, '/');
    var d := q[..i];
    assert d[|d| - 1] != '/';
    assert DirPrefix(d) == q[..i + 1];
    assert q[i + 1..] == q[|DirPrefix(d)|..];
  }

  /** What lies below an entry of a directory `p` below `c` lies below `c`. */
  lemma UnderOfChild(c: string, p: string, q: string)
    requires Under(c, p) && IsChild(p, q)
    ensures Under(c, q)
  {
    assert StartsWith(DirPrefix(p), p);
    PrefixOfPrefix(DirPrefix(c), p, DirPrefix(p));
    PrefixOfPrefix(DirPrefix(c), DirPrefix(p), q);
  }

  /**
    In a well-formed tree, an entry below `d` that is not one of its own
    entries lies below one of them, and that one is a directory.
  */
  lemma {:induction false} AncestorChild(n: Nodes, d: string, q: string) returns (c: string)
    requires WellFormed(n) && d != "" && q in n && Under(d, q)
    requires '/' in q[|DirPrefix(d)|..]
    ensures IsDir(n, c) && IsChild(d, c) && Under(c, q)
    decreases |q|
  {
    ParentBelow(d, q);
    var i := LastIndexOf(q, '/').value;
    var parent := q[..i];
    assert ParentExists(n, q);
    ParentOfChild(q, i);
    if '/' in parent[|DirPrefix(d)|..] {
      c := AncestorChild(n, d, parent);
      UnderOfChild(c, parent, q);
    } else {
      c := parent;
    }
  }

  /** The file system as the scripts see it: one mutable map of entries. */
  class FileSystem {
    var nodes: Nodes

    constructor (initial: Nodes)
      ensures nodes == initial
    {
      nodes := initial;
    }

    /** `open(p, "w").write(text)`: fails, changing nothing, where `open` would raise. */
    method WriteText(p: string, text: string) returns (ok: bool)
      modifies this
      ensures ok == CanWrite(old(nodes), p)
      ensures nodes == if ok then old(nodes)[p := File(text)] else old(nodes)
    {
      ok := CanWrite(nodes, p);
      if ok {
        nodes := nodes[p := File(text)];
      }
    }

    /** One more `f.write(text)` on a file opened for writing. */
    method AppendText(p: string, text: string)
      requires IsFile(nodes, p)
      modifies this
      ensures nodes == old(nodes)[p := File(old(nodes)[p].data + text)]
    {
      nodes := nodes[p := File(nodes[p].data + text)];
    }

    /** A file that another program writes, replacing what was at `p`. */
    method Put(p: string, data: string)
      requires !IsDir(nodes, p)
      modifies this
      ensures nodes == old(nodes)[p := File(data)]
    {
      nodes := nodes[p := File(data)];
    }

    /** `os.remove(p)`: fails, changing nothing, unless `p` is a file. */
    method Remove(p: string) returns (ok: bool)
      modifies this
      ensures ok == IsFile(old(nodes), p)
      ensures nodes == if ok then old(nodes) - {p} else old(nodes)
    {
      ok := IsFile(nodes, p);
      if ok {
        nodes := nodes - {p};
      }
    }
  }
}
