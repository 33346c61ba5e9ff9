/**
  The `find` user program: a recursive directory walk that prints every regular
  file whose path contains a given name as a substring.

  The file system is a parameter: a map from path strings to the node found
  there.  `open`, `fstat` and `stat` succeed exactly when the path is in the map,
  and `read` on a directory yields its entries in order.  What `find` writes to
  standard output or standard error becomes a sequence of `Line` values.
*/
module Find {
  import opened CStrings

  /** DIRSIZ: the fixed width of a directory entry's name field. */
  const DIRSIZ := 14
  /** sizeof buf in find: the bound on the path of a directory to descend into. */
  const BUFSIZE := 512

  /** A directory entry's name field: exactly DIRSIZ bytes, NUL-padded when shorter. */
  type DirName = s: seq<char> | |s| == DIRSIZ witness seq(DIRSIZ, _ => '\0')

  /** struct dirent: an inode number (0 marks a free slot) and the name field. */
  datatype DirEnt = DirEnt(inum: nat, name: DirName)

  /** The node a path resolves to, with the type fstat reports for it. */
  datatype Node = File | Dir(entries: seq<DirEnt>) | Device

  type FileSys = map<seq<char>, Node>

  /** One line of output: a match, or one of the diagnostics. */
  datatype Line = Found(path: seq<char>) | CannotOpen(path: seq<char>) | CannotStat(path: seq<char>) | TooLong

  // ---------------------------------------------------------------------------------
  // match
  // ---------------------------------------------------------------------------------

  /** name occurs in path starting at index i. */
  predicate MatchesAt(path: seq<char>, name: seq<char>, i: nat) {
    i + |name| <= |path| && path[i..i + |name|] == name
  }

  /** name occurs in path at a start index before the end of path. */
  predicate Occurs(path: seq<char>, name: seq<char>) {
    exists i :: 0 <= i < |path| && MatchesAt(path, name, i)
  }

  /** match(path, name): true when it prints path.  It tries each start index of path in
      turn and stops at the first one where all of name agrees. */
  method Match(path: seq<char>, name: seq<char>) returns (printed: bool)
    requires NoNul(path) && NoNul(name)
    ensures printed <==> Occurs(path, name)
  {
    var pp := 0;
    while At(path, pp) != '\0'
      invariant pp <= |path|
      invariant forall i :: 0 <= i < pp ==> !MatchesAt(path, name, i)
      decreases |path| - pp
    {
      var pn := 0;
      var tmpp := pp;
      while At(name, pn) != '\0'
        invariant pn <= |name| && tmpp == pp + pn && tmpp <= |path|
        invariant path[pp..tmpp] == name[..pn]
        decreases |name| - pn
      {
        if At(name, pn) == At(path, tmpp) {
          pn := pn + 1;
          tmpp := tmpp + 1;
        } else {
          break;
        }
      }
      if At(name, pn) == '\0' {
        assert name[..pn] == name;
        assert MatchesAt(path, name, pp);
        return true;
      }
      pp := pp + 1;
    }
    return false;
  }

  /** An empty path is never printed; an empty name matches every non-empty path. */
  lemma MatchEdges(path: seq<char>, name: seq<char>)
    ensures !Occurs([], name)
    ensures |path| > 0 ==> Occurs(path, [])
  {
    if |path| > 0 {
      assert MatchesAt(path, [], 0);
    }
  }

  // ---------------------------------------------------------------------------------
  // Entry filter and child path
  // ---------------------------------------------------------------------------------

  /** The entries find passes over: free slots, "." and "..". */
  predicate Skip(de: DirEnt) {
    de.inum == 0
    || (de.name[0] == '.' && de.name[1] == '\0')
    || (de.name[0] == '.' && de.name[1] == '.' && de.name[2] == '\0')
  }

  /** The test on the first bytes of the name field is the test on the name itself. */
  lemma SkipIff(de: DirEnt)
    ensures Skip(de) <==> de.inum == 0 || CStr(de.name) == "." || CStr(de.name) == ".."
  {
    var n := de.name;
    assert CStr(n) == (if n[0] == '\0' then [] else [n[0]] + CStr(n[1..]));
    if n[0] != '\0' {
      var m := n[1..];
      assert CStr(m) == (if m[0] == '\0' then [] else [m[0]] + CStr(m[1..]));
      if m[0] != '\0' {
        var k := m[1..];
        assert CStr(k) == (if k[0] == '\0' then [] else [k[0]] + CStr(k[1..]));
      }
    }
  }

  /** The path of an entry of directory path: path, a slash, and the entry's name. */
  function Child(path: seq<char>, de: DirEnt): (r: seq<char>)
    ensures NoNul(path) ==> NoNul(r)
    ensures |path| < |r| <= |path| + 1 + DIRSIZ
  {
    path + ['/'] + CStr(de.name)
  }

  /** The string in buf once find has copied path, the slash, the name field and the NUL:
      it stops at the name's own NUL, or at the one written at offset DIRSIZ. */
  lemma ChildInBuffer(path: seq<char>, de: DirEnt, rest: seq<char>)
    requires NoNul(path)
    ensures CStr(path + ['/'] + de.name + ['\0'] + rest) == Child(path, de)
  {
    CStrAppend(path + ['/'], de.name + ['\0'] + rest);
    CStrPadded(de.name, rest);
    assert path + ['/'] + de.name + ['\0'] + rest == (path + ['/']) + (de.name + ['\0'] + rest);
  }

  // ---------------------------------------------------------------------------------
  // find, as a specification
  // ---------------------------------------------------------------------------------

  /** Whether a directory at path passes the length guard and is descended into. */
  predicate Fits(path: seq<char>) {
    |path| + 1 + DIRSIZ + 1 <= BUFSIZE
  }

  /** The lines find(path, name) writes. */
  function FindSpec(fs: FileSys, path: seq<char>, name: seq<char>): seq<Line>
    decreases BUFSIZE - |path|, 1, 0
  {
    if path !in fs then [CannotOpen(path)]
    else match fs[path]
      case File => if Occurs(path, name) then [Found(path)] else []
      case Device => []
      case Dir(entries) => if !Fits(path) then [TooLong] else EntriesSpec(fs, path, name, entries)
  }

  /** The lines written while reading the entries es of the directory at path. */
  function EntriesSpec(fs: FileSys, path: seq<char>, name: seq<char>, es: seq<DirEnt>): seq<Line>
    requires Fits(path)
    decreases BUFSIZE - |path|, 0, |es|
  {
    if es == [] then []
    else EntriesSpec(fs, path, name, es[..|es| - 1]) + EntrySpec(fs, path, name, es[|es| - 1])
  }

  /** The lines written for one entry of the directory at path. */
  function EntrySpec(fs: FileSys, path: seq<char>, name: seq<char>, de: DirEnt): seq<Line>
    requires Fits(path)
    decreases BUFSIZE - |path|, 0, 0
  {
    if Skip(de) then []
    else if Child(path, de) !in fs then [CannotStat(Child(path, de))]
    else FindSpec(fs, Child(path, de), name)
  }

  /** Every path find prints is a regular file that name occurs in, and lies under the
      starting path. */
  lemma {:induction false} FoundOnlyFiles(fs: FileSys, path: seq<char>, name: seq<char>, p: seq<char>)
    requires Found(p) in FindSpec(fs, path, name)
    ensures p in fs && fs[p] == File && Occurs(p, name)
    ensures |path| <= |p| && p[..|path|] == path
    decreases BUFSIZE - |path|, 1, 0
  {
    if path in fs && fs[path].Dir? && Fits(path) {
      FoundInEntries(fs, path, name, fs[path].entries, p);
    }
  }

  lemma {:induction false} FoundInEntries(fs: FileSys, path: seq<char>, name: seq<char>, es: seq<DirEnt>, p: seq<char>)
    requires Fits(path) && Found(p) in EntriesSpec(fs, path, name, es)
    ensures p in fs && fs[p] == File && Occurs(p, name)
    ensures |path| < |p| && p[..|path|] == path
    decreases BUFSIZE - |path|, 0, |es|
  {
    var init, de := es[..|es| - 1], es[|es| - 1];
    if Found(p) in EntriesSpec(fs, path, name, init) {
      FoundInEntries(fs, path, name, init, p);
    } else {
      assert Found(p) in EntrySpec(fs, path, name, de);
      var c := Child(path, de);
      FoundOnlyFiles(fs, c, name, p);
      assert p[..|path|] == p[..|c|][..|path|];
    }
  }

  /** A file is printed at most once: find on a regular file writes nothing or its path. */
  lemma FileAtMostOnce(fs: FileSys, path: seq<char>, name: seq<char>)
    requires path in fs && fs[path] == File
    ensures FindSpec(fs, path, name) == [] || FindSpec(fs, path, name) == [Found(path)]
    ensures FindSpec(fs, path, name) == [Found(path)] <==> Occurs(path, name)
  {
  }

  /** A directory whose path fails the length guard is not descended into. */
  lemma LongDirNotEntered(fs: FileSys, path: seq<char>, name: seq<char>)
    requires path in fs && fs[path].Dir? && !Fits(path)
    ensures FindSpec(fs, path, name) == [TooLong]
  {
  }

  // ---------------------------------------------------------------------------------
  // find, the program
  // ---------------------------------------------------------------------------------

  /** strlen: the index of the first NUL of buf. */
  method StrLen(buf: array<char>) returns (n: nat)
    requires exists i :: 0 <= i < buf.Length && buf[i] == '\0'
    ensures n < buf.Length && buf[n] == '\0' && NoNul(buf[..n])
    ensures buf[..n] == CStr(buf[..])
  {
    n := 0;
    while buf[n] != '\0'
      invariant n < buf.Length && NoNul(buf[..n])
      invariant forall i :: 0 <= i < buf.Length && buf[i] == '\0' ==> n <= i
      decreases buf.Length - n
    {
      assert buf[..n + 1] == buf[..n] + [buf[n]];
      n := n + 1;
    }
    CStrAppend(buf[..n], buf[n..]);
    assert buf[..] == buf[..n] + buf[n..];
  }

  /** The name-copy step: memmove of the DIRSIZ bytes of the name field to offset p of buf,
      then the NUL at offset p + DIRSIZ. */
  method CopyName(buf: array<char>, p: nat, de: DirEnt)
    requires p + DIRSIZ < buf.Length
    modifies buf
    ensures buf[..] == old(buf[..p]) + de.name + ['\0'] + old(buf[p + DIRSIZ + 1..])
  {
    var j := 0;
    while j < DIRSIZ
      invariant j <= DIRSIZ
      invariant forall k :: 0 <= k < buf.Length && !(p <= k < p + j) ==> buf[k] == old(buf[k])
      invariant forall k :: 0 <= k < j ==> buf[p + k] == de.name[k]
    {
      buf[p + j] := de.name[j];
      j := j + 1;
    }
    buf[p + DIRSIZ] := '\0';
    Laid(buf[..], old(buf[..]), p, de.name);
  }

  /** A buffer that agrees with o outside [p, p + |w| + 1) and holds w then a NUL there. */
  lemma Laid(v: seq<char>, o: seq<char>, p: nat, w: seq<char>)
    requires |v| == |o| && p + |w| < |o|
    requires forall k :: 0 <= k < |v| && !(p <= k <= p + |w|) ==> v[k] == o[k]
    requires forall k :: 0 <= k < |w| ==> v[p + k] == w[k]
    requires v[p + |w|] == '\0'
    ensures v == o[..p] + w + ['\0'] + o[p + |w| + 1..]
  {
    var r := o[..p] + w + ['\0'] + o[p + |w| + 1..];
    assert |r| == |v|;
    forall k | 0 <= k < |v|
      ensures v[k] == r[k]
    {
      if k < p {
      } else if k < p + |w| {
        assert v[p + (k - p)] == w[k - p];
      } else if k == p + |w| {
      } else {
      }
    }
  }

  /** find(path, name): the lines written, the same as FindSpec. */
  method Find(fs: FileSys, path: seq<char>, name: seq<char>) returns (out: seq<Line>)
    requires NoNul(path) && NoNul(name)
    ensures out == FindSpec(fs, path, name)
    decreases BUFSIZE - |path|, 1
  {
    if path !in fs {
      return [CannotOpen(path)];
    }
    match fs[path]
    case File =>
      var printed := Match(path, name);
      out := if printed then [Found(path)] else [];
    case Device =>
      out := [];
    case Dir(entries) =>
      if !Fits(path) {
        return [TooLong];
      }
      var buf := DirPrefix(path);
      var p := |path| + 1;
      out := [];
      var k := 0;
      while k < |entries|
        invariant k <= |entries| && buf[..p] == path + ['/']
        invariant out == EntriesSpec(fs, path, name, entries[..k])
      {
        assert entries[..k + 1][..k] == entries[..k];
        var lines := Entry(fs, path, name, buf, entries[k]);
        out := out + lines;
        k := k + 1;
      }
      assert entries[..k] == entries;
  }

  /** The buffer find builds for a directory: a copy of path followed by '/'. */
  method DirPrefix(path: seq<char>) returns (buf: array<char>)
    requires Fits(path)
    ensures fresh(buf) && buf.Length == BUFSIZE
    ensures buf[..|path| + 1] == path + ['/']
  {
    buf := new char[BUFSIZE];
    var i := 0;
    while i < |path|
      invariant i <= |path| && buf[..i] == path[..i]
    {
      buf[i] := path[i];
      i := i + 1;
    }
    buf[i] := '/';
    assert buf[..i + 1] == path + ['/'];
  }

  /** One turn of find's read loop: skip the entry, or lay its name after the '/' in buf and
      stat and descend into the child path. */
  method Entry(fs: FileSys, path: seq<char>, name: seq<char>, buf: array<char>, de: DirEnt) returns (lines: seq<Line>)
    requires NoNul(path) && NoNul(name) && Fits(path)
    requires buf.Length == BUFSIZE && buf[..|path| + 1] == path + ['/']
    modifies buf
    ensures buf[..|path| + 1] == path + ['/']
    ensures lines == EntrySpec(fs, path, name, de)
    decreases BUFSIZE - |path|, 0
  {
    if de.inum == 0 {
      return [];
    }
    if de.name[0] == '.' && de.name[1] == '\0' {
      return [];
    }
    if de.name[0] == '.' && de.name[1] == '.' && de.name[2] == '\0' {
      return [];
    }
    var p := |path| + 1;
    ghost var rest := buf[p + DIRSIZ + 1..];
    CopyName(buf, p, de);
    assert buf[p + DIRSIZ] == '\0';
    var n := StrLen(buf);
    var child := buf[..n];
    ChildInBuffer(path, de, rest);
    assert buf[..] == path + ['/'] + de.name + ['\0'] + rest;
    assert buf[..p] == path + ['/'];
    if child !in fs {
      return [CannotStat(child)];
    }
    lines := Find(fs, child, name);
  }
}
