/**
  The `xargs` user program: for every line of standard input it runs the command
  given on its own command line, with the line's words appended as extra arguments.

  Standard input is a parameter (`input`, read from position `pos` on), and each
  fork/exec/wait becomes one entry of `runs`: the argument vector exec receives.
*/
module Xargs {
  import opened Wrappers
  import opened CStrings

  /** malloc(100): the line buffer of readline. */
  const LINEBUF := 100
  /** malloc(36): the buffer each word is built in. */
  const WORDBUF := 36
  /** char *nargv[16]: the new argument vector. */
  const MAXARG := 16

  /** The bytes that end a line for readline. */
  predicate IsTerm(c: char) {
    c == '\n' || c == '\0'
  }

  /** The index of the first line terminator in s at or after pos, or |s| when there is none. */
  function TermIndex(s: seq<char>, pos: nat): (j: nat)
    requires pos <= |s|
    ensures pos <= j <= |s| && (j < |s| ==> IsTerm(s[j]))
    ensures forall k :: pos <= k < j ==> !IsTerm(s[k])
    decreases |s| - pos
  {
    if pos == |s| || IsTerm(s[pos]) then pos else TermIndex(s, pos + 1)
  }

  // ---------------------------------------------------------------------------------
  // readline
  // ---------------------------------------------------------------------------------

  /** What readline hands back: a line, the null pointer at end of input, or the bytes of
      a last line that has no terminator (whose buffer then holds no NUL). */
  datatype ReadResult = Line(s: seq<char>) | Eof | Unterminated(s: seq<char>)

  /** readline() on the input from pos: reads byte by byte into a 100-byte buffer until a
      newline or NUL, which it overwrites with NUL.  next is the position after the last
      byte read. */
  method ReadLine(input: seq<char>, pos: nat) returns (r: ReadResult, next: nat)
    requires pos <= |input| && TermIndex(input, pos) - pos < LINEBUF
    ensures pos <= next <= |input|
    ensures r == Eof <==> pos == |input|
    ensures r.Line? ==> pos < next && IsTerm(input[next - 1]) && r.s == input[pos..next - 1]
    ensures r.Line? || r.Unterminated? ==> forall k :: 0 <= k < |r.s| ==> !IsTerm(r.s[k])
    ensures r.Unterminated? ==> next == |input| && r.s == input[pos..] && r.s != []
    ensures pos < |input| && TermIndex(input, pos) < |input| ==> r.Line?
    ensures r.Line? ==> next - 1 == TermIndex(input, pos)
  {
    var buf := new char[LINEBUF];
    var p := 0;
    next := pos;
    while next < |input|
      invariant pos <= next <= TermIndex(input, pos) && p == next - pos
      invariant buf[..p] == input[pos..next]
      decreases |input| - next
    {
      buf[p] := input[next];
      next := next + 1;
      if IsTerm(buf[p]) {
        buf[p] := '\0';
        return Line(buf[..p]), next;
      }
      assert buf[..p + 1] == input[pos..next];
      p := p + 1;
    }
    if p != 0 {
      return Unterminated(buf[..p]), next;
    }
    return Eof, next;
  }

  /** Input whose last line is terminated, so that readline never returns a line without
      its NUL. */
  predicate Terminated(s: seq<char>) {
    s == [] || IsTerm(s[|s| - 1])
  }

  /** The lines readline returns one after the other from pos on, until end of input. */
  function Lines(s: seq<char>, pos: nat): (ls: seq<seq<char>>)
    requires Terminated(s) && pos <= |s|
    ensures forall l :: l in ls ==> NoNul(l) && '\n' !in l
    decreases |s| - pos
  {
    if pos == |s| then []
    else
      var j := TermIndex(s, pos);
      assert j < |s|;
      [s[pos..j]] + Lines(s, j + 1)
  }

  // ---------------------------------------------------------------------------------
  // The word splitter
  // ---------------------------------------------------------------------------------

  /** The splitter's state: the finished words, and the word being built. */
  datatype Tok = Tok(done: seq<seq<char>>, word: seq<char>)

  /** One byte c of the line: a space finishes the word being built when that word is
      non-empty; any other byte, and a space met while the word is still empty, is added
      to the word. */
  function Step(s: Tok, c: char): Tok {
    if c == ' ' && s.word != [] then Tok(s.done + [s.word], []) else Tok(s.done, s.word + [c])
  }

  /** The state after the loop has consumed the first i bytes of line. */
  function ScanTo(line: seq<char>, i: nat): Tok
    requires i <= |line|
  {
    if i == 0 then Tok([], []) else Step(ScanTo(line, i - 1), line[i - 1])
  }

  /** The finished words and, when non-empty, the word being built. */
  function Pieces(s: Tok): seq<seq<char>> {
    if s.word != [] then s.done + [s.word] else s.done
  }

  /** The words of a line: the pieces of the state after the whole line. */
  function Words(line: seq<char>): seq<seq<char>> {
    Pieces(ScanTo(line, |line|))
  }

  /** A space can only be a word's first byte. */
  predicate NoInnerSpace(t: seq<char>) {
    forall i :: 1 <= i < |t| ==> t[i] != ' '
  }

  /** The shape every word has. */
  predicate WordShaped(t: seq<char>) {
    t != [] && NoInnerSpace(t)
  }

  /** Each word followed by one space. */
  function Spaced(ts: seq<seq<char>>): (r: seq<char>)
    ensures ts != [] ==> |r| > 0 && r[|r| - 1] == ' '
  {
    if ts == [] then [] else Spaced(ts[..|ts| - 1]) + ts[|ts| - 1] + [' ']
  }

  /** What the loop keeps: the words so far, each with one separating space, then the word
      being built, spell out the bytes consumed. */
  lemma {:induction false} ScanSpec(line: seq<char>, i: nat)
    requires i <= |line|
    ensures Spaced(ScanTo(line, i).done) + ScanTo(line, i).word == line[..i]
  {
    if i > 0 {
      ScanSpec(line, i - 1);
      StepSpec(ScanTo(line, i - 1), line[..i - 1], line[i - 1]);
      assert line[..i - 1] + [line[i - 1]] == line[..i];
    }
  }

  /** One step of the loop keeps the consumed bytes spelled out. */
  lemma StepSpec(s: Tok, consumed: seq<char>, c: char)
    requires Spaced(s.done) + s.word == consumed
    ensures Spaced(Step(s, c).done) + Step(s, c).word == consumed + [c]
  {
    if c == ' ' && s.word != [] {
      var d := s.done + [s.word];
      assert d[..|d| - 1] == s.done;
    } else {
      assert Spaced(s.done) + (s.word + [c]) == (Spaced(s.done) + s.word) + [c];
    }
  }

  /** The finished words are shaped, and the word being built has no space after its
      first byte. */
  lemma {:induction false} ScanShape(line: seq<char>, i: nat)
    requires i <= |line|
    ensures forall t :: t in ScanTo(line, i).done ==> WordShaped(t)
    ensures NoInnerSpace(ScanTo(line, i).word)
  {
    if i > 0 {
      ScanShape(line, i - 1);
      var s := ScanTo(line, i - 1);
      if line[i - 1] == ' ' && s.word != [] {
        assert WordShaped(s.word);
      }
    }
  }

  /** The words of a line are non-empty, have no space after their first byte, and joined
      with one space after each they give back the line, with or without a final space.
      An empty line has no words. */
  lemma WordsSpec(line: seq<char>)
    ensures forall t :: t in Words(line) ==> WordShaped(t)
    ensures Spaced(Words(line)) == line || Spaced(Words(line)) == line + [' ']
    ensures line == [] ==> Words(line) == []
  {
    ScanSpec(line, |line|);
    ScanShape(line, |line|);
    assert line[..|line|] == line;
    var s := ScanTo(line, |line|);
    if s.word != [] {
      var d := s.done + [s.word];
      assert d[..|d| - 1] == s.done;
    }
  }

  /** The state after i bytes depends on those bytes only. */
  lemma {:induction false} ScanPrefix(a: seq<char>, b: seq<char>, i: nat)
    requires i <= |a| && i <= |b| && a[..i] == b[..i]
    ensures ScanTo(a, i) == ScanTo(b, i)
  {
    if i > 0 {
      assert a[i - 1] == a[..i][i - 1] == b[i - 1];
      assert a[..i - 1] == a[..i][..i - 1];
      assert b[..i - 1] == b[..i][..i - 1];
      ScanPrefix(a, b, i - 1);
    }
  }

  /** The state after all of s, from the state after all but its last byte. */
  lemma ScanLast(s: seq<char>, pre: seq<char>)
    requires s != [] && pre == s[..|s| - 1]
    ensures ScanTo(s, |s|) == Step(ScanTo(pre, |pre|), s[|s| - 1])
  {
    ScanPrefix(s, pre, |pre|);
    assert pre[..|pre|] == pre;
  }

  lemma {:induction false} ScanSpaced(ts: seq<seq<char>>)
    requires forall t :: t in ts ==> WordShaped(t)
    ensures ScanTo(Spaced(ts), |Spaced(ts)|) == Tok(ts, [])
    decreases |ts|, 0, 0
  {
    if ts != [] {
      var init, t := ts[..|ts| - 1], ts[|ts| - 1];
      assert forall u :: u in init ==> u in ts;
      assert t in ts;
      ScanWord(init, t, |t|);
      assert t[..|t|] == t;
      var s := Spaced(ts);
      ScanLast(s, Spaced(init) + t);
      assert init + [t] == ts;
    }
  }

  lemma {:induction false} ScanWord(ts: seq<seq<char>>, t: seq<char>, k: nat)
    requires forall u :: u in ts ==> WordShaped(u)
    requires NoInnerSpace(t) && k <= |t|
    ensures ScanTo(Spaced(ts) + t[..k], |Spaced(ts) + t[..k]|) == Tok(ts, t[..k])
    decreases |ts|, 1, k
  {
    if k == 0 {
      assert Spaced(ts) + t[..0] == Spaced(ts);
      ScanSpaced(ts);
    } else {
      ScanWord(ts, t, k - 1);
      var s := Spaced(ts) + t[..k];
      ScanLast(s, Spaced(ts) + t[..k - 1]);
      assert t[..k - 1] + [t[k - 1]] == t[..k];
    }
  }

  /** Words is the only way to cut a line into shaped words that, each followed by one
      space, give back the line with or without a final space. */
  lemma WordsUnique(line: seq<char>, ts: seq<seq<char>>)
    requires forall t :: t in ts ==> WordShaped(t)
    requires Spaced(ts) == line || Spaced(ts) == line + [' ']
    ensures Words(line) == ts
  {
    if Spaced(ts) == line {
      ScanSpaced(ts);
    } else {
      var init, t := ts[..|ts| - 1], ts[|ts| - 1];
      assert forall u :: u in init ==> u in ts;
      assert t in ts;
      ScanWord(init, t, |t|);
      assert t[..|t|] == t;
      var s := Spaced(ts);
      assert line == s[..|s| - 1] == Spaced(init) + t;
      assert init + [t] == ts;
    }
  }

  /** A space on an empty word is kept: a doubled space starts the next word with it, and
      so does a leading space. */
  lemma SpaceQuirk()
    ensures Words("a  b") == ["a", " b"]
    ensures Words(" x") == [" x"]
    ensures Words("  ") == [" "]
  {
    assert Spaced(["a"]) == "a ";
    assert Spaced(["a", " b"]) == "a  b ";
    WordsUnique("a  b", ["a", " b"]);
    assert Spaced([" x"]) == " x ";
    WordsUnique(" x", [" x"]);
    assert Spaced([" "]) == "  ";
    WordsUnique("  ", [" "]);
  }

  /** Later states hold at least as many finished words, and a piece at least as long as
      the word being built earlier. */
  lemma {:induction false} ScanGrows(line: seq<char>, i: nat, j: nat)
    requires i <= j <= |line|
    ensures |ScanTo(line, i).done| <= |ScanTo(line, j).done|
    ensures ScanTo(line, i).word == [] || exists t :: t in Pieces(ScanTo(line, j)) && |ScanTo(line, i).word| <= |t|
  {
    var w := ScanTo(line, i).word;
    if j == i {
      if w != [] {
        assert w in Pieces(ScanTo(line, j));
      }
    } else {
      ScanGrows(line, i, j - 1);
      var s, c := ScanTo(line, j - 1), line[j - 1];
      if w != [] {
        var t :| t in Pieces(s) && |w| <= |t|;
        if c == ' ' && s.word != [] {
          assert Pieces(ScanTo(line, j)) == Pieces(s);
        } else if t in s.done {
          assert t in Pieces(ScanTo(line, j));
        } else {
          assert s.word + [c] in Pieces(ScanTo(line, j));
        }
      }
    }
  }

  /** Part way through a line, the finished words fit in nargv and the word being built in
      its buffer, when the whole line's words do. */
  lemma LoopBounds(line: seq<char>, start: nat, len: nat)
    requires start + |Words(line)| < len
    requires forall t :: t in Words(line) ==> |t| < WORDBUF
    ensures forall i :: 0 <= i <= |line| ==> start + |ScanTo(line, i).done| < len
    ensures forall i :: 0 <= i <= |line| ==> |ScanTo(line, i).word| < WORDBUF
  {
    forall i | 0 <= i <= |line|
      ensures start + |ScanTo(line, i).done| < len && |ScanTo(line, i).word| < WORDBUF
    {
      ScanGrows(line, i, |line|);
    }
  }

  // ---------------------------------------------------------------------------------
  // Argument vectors
  // ---------------------------------------------------------------------------------

  /** Each string as a non-null pointer. */
  function Somes(a: seq<seq<char>>): seq<Option<seq<char>>> {
    seq(|a|, i requires 0 <= i < |a| => Some(a[i]))
  }

  /** The argument vector exec reads: the strings before the first null pointer. */
  function ArgvOf(v: seq<Option<seq<char>>>): seq<seq<char>> {
    if v == [] || v[0].None? then [] else [v[0].value] + ArgvOf(v[1..])
  }

  /** A vector of pointers to a, then a null pointer, is read back as a. */
  lemma {:induction false} ArgvOfSomes(a: seq<seq<char>>, rest: seq<Option<seq<char>>>)
    ensures ArgvOf(Somes(a) + [None] + rest) == a
  {
    if a != [] {
      var v := Somes(a) + [None] + rest;
      assert v[1..] == Somes(a[1..]) + [None] + rest;
      ArgvOfSomes(a[1..], rest);
      assert [a[0]] + a[1..] == a;
    }
  }

  /** The fixed buffers are large enough for line l when the command has nargs arguments. */
  predicate LineFits(l: seq<char>, nargs: int) {
    |l| < LINEBUF
    && nargs + |Words(l)| < MAXARG
    && forall t :: t in Words(l) ==> |t| < WORDBUF
  }

  /** The argument vectors exec receives, one per line. */
  function Runs(args: seq<seq<char>>, ls: seq<seq<char>>): seq<seq<seq<char>>> {
    seq(|ls|, i requires 0 <= i < |ls| => args + Words(ls[i]))
  }

  lemma RunsCons(args: seq<seq<char>>, l: seq<char>, rest: seq<seq<char>>)
    ensures Runs(args, [l] + rest) == [args + Words(l)] + Runs(args, rest)
  {
    assert forall i :: 0 < i <= |rest| ==> ([l] + rest)[i] == rest[i - 1];
  }

  /** The lines from pos on: the one readline returns first, then the rest. */
  lemma LinesCons(s: seq<char>, pos: nat, next: nat)
    requires Terminated(s) && pos < next <= |s| && next - 1 == TermIndex(s, pos)
    ensures Lines(s, pos) == [s[pos..next - 1]] + Lines(s, next)
  {
  }

  /** The vector main assembles for a line is read back by exec as the original arguments
      followed by the line's words. */
  lemma ArgvOfRun(args: seq<seq<char>>, ws: seq<seq<char>>, v: seq<Option<seq<char>>>, rest: seq<Option<seq<char>>>)
    requires v == Somes(args) + Somes(ws) + [None] + rest
    ensures ArgvOf(v) == args + ws
  {
    Somes2(args, ws);
    ArgvOfSomes(args + ws, rest);
  }

  lemma Somes2(a: seq<seq<char>>, b: seq<seq<char>>)
    ensures Somes(a) + Somes(b) == Somes(a + b)
  {
  }

  // ---------------------------------------------------------------------------------
  // main
  // ---------------------------------------------------------------------------------

  /** The word loop of main on one line: each word is built in a fresh 36-byte buffer,
      NUL-terminated and stored at nargv[nargc]; after the last word comes the null
      pointer. */
  method Tokenize(line: seq<char>, nargv: array<Option<seq<char>>>, start: nat) returns (nargc: nat)
    requires NoNul(line)
    requires start + |Words(line)| < nargv.Length
    requires forall t :: t in Words(line) ==> |t| < WORDBUF
    modifies nargv
    ensures nargc == start + |Words(line)|
    ensures nargv[..] == old(nargv[..start]) + Somes(Words(line)) + [None] + old(nargv[nargc + 1..])
  {
    var buf: array<char>, bw: nat;
    ghost var done: seq<seq<char>>;
    LoopBounds(line, start, nargv.Length);
    nargc, buf, bw, done := WordLoop(line, nargv, start);
    if bw != 0 {
      var w := Flush(nargv, nargc, buf, bw);
      done := done + [w];
      nargc := nargc + 1;
    }
    assert done == Words(line);
    nargv[nargc] := None;
    Assembled(nargv[..], old(nargv[..]), start, done);
  }

  /** The loop over the line's bytes: the finished words stored from nargv[start] on, and
      the last word still in its buffer. */
  method WordLoop(line: seq<char>, nargv: array<Option<seq<char>>>, start: nat)
      returns (nargc: nat, buf: array<char>, bw: nat, ghost done: seq<seq<char>>)
    requires NoNul(line)
    requires forall i :: 0 <= i <= |line| ==> start + |ScanTo(line, i).done| < nargv.Length
    requires forall i :: 0 <= i <= |line| ==> |ScanTo(line, i).word| < WORDBUF
    modifies nargv
    ensures fresh(buf) && buf.Length == WORDBUF && bw < WORDBUF && NoNul(buf[..bw])
    ensures ScanTo(line, |line|) == Tok(done, buf[..bw])
    ensures nargc == start + |done| < nargv.Length
    ensures forall j :: 0 <= j < |done| ==> nargv[start + j] == Some(done[j])
    ensures forall j :: 0 <= j < nargv.Length && !(start <= j < nargc) ==> nargv[j] == old(nargv[j])
  {
    buf := new char[WORDBUF];
    bw := 0;
    nargc := start;
    var i := 0;
    done := [];
    ghost var word: seq<char> := [];
    while At(line, i) != '\0'
      invariant fresh(buf) && buf.Length == WORDBUF && bw < WORDBUF && buf[..bw] == word && NoNul(word)
      invariant i <= |line| && ScanTo(line, i) == Tok(done, word)
      invariant nargc == start + |done| < nargv.Length
      invariant forall j :: 0 <= j < |done| ==> nargv[start + j] == Some(done[j])
      invariant forall j :: 0 <= j < nargv.Length && !(start <= j < nargc) ==> nargv[j] == old(nargv[j])
      decreases |line| - i
    {
      if line[i] == ' ' && bw != 0 {
        var w := Flush(nargv, nargc, buf, bw);
        done, word := done + [w], [];
        buf := new char[WORDBUF];
        bw := 0;
        nargc := nargc + 1;
      } else {
        buf[bw] := line[i];
        word := word + [line[i]];
        assert buf[..bw + 1] == word;
        bw := bw + 1;
      }
      i := i + 1;
    }
  }

  /** An argument vector that agrees with o before start and after the words, and holds
      the words and then a null pointer from start on. */
  lemma Assembled(v: seq<Option<seq<char>>>, o: seq<Option<seq<char>>>, start: nat, ws: seq<seq<char>>)
    requires |v| == |o| && start + |ws| < |v|
    requires forall j :: 0 <= j < start ==> v[j] == o[j]
    requires forall j :: 0 <= j < |ws| ==> v[start + j] == Some(ws[j])
    requires v[start + |ws|] == None
    requires forall j :: start + |ws| < j < |v| ==> v[j] == o[j]
    ensures v == o[..start] + Somes(ws) + [None] + o[start + |ws| + 1..]
  {
    var n := start + |ws|;
    var r := o[..start] + Somes(ws) + [None] + o[n + 1..];
    assert |r| == |v|;
    forall j | 0 <= j < |v|
      ensures v[j] == r[j]
    {
      if j < start {
      } else if j < n {
        assert r[j] == Somes(ws)[j - start];
      } else if j == n {
      } else {
        assert r[j] == o[n + 1..][j - n - 1];
      }
    }
  }

  /** The end of a word: a NUL after its bytes, and the string stored at nargv[nargc]. */
  method Flush(nargv: array<Option<seq<char>>>, nargc: nat, buf: array<char>, bw: nat) returns (w: seq<char>)
    requires nargc < nargv.Length && bw < buf.Length && NoNul(buf[..bw])
    modifies nargv, buf
    ensures w == old(buf[..bw])
    ensures nargv[..] == old(nargv[..])[nargc := Some(w)]
  {
    buf[bw] := '\0';
    CStrAppend(buf[..bw], buf[bw..]);
    assert buf[..] == buf[..bw] + buf[bw..];
    w := CStr(buf[..]);
    nargv[nargc] := Some(w);
  }


  /** main(argc, argv) with standard input input: the usage error when no command is
      given, otherwise one exec per line read, of argv[1..] followed by the line's words. */
  method Run(argv: seq<seq<char>>, input: seq<char>) returns (usage: bool, runs: seq<seq<seq<char>>>)
    requires Terminated(input) && |argv| <= MAXARG
    requires forall l :: l in Lines(input, 0) ==> LineFits(l, |argv| - 1)
    ensures usage <==> |argv| < 2
    ensures usage ==> runs == []
    ensures !usage ==> runs == Runs(argv[1..], Lines(input, 0))
  {
    if |argv| < 2 {
      return true, [];
    }
    usage := false;
    var args := argv[1..];
    var nargv := new Option<seq<char>>[MAXARG];
    CopyArgs(nargv, args);
    runs := [];
    var pos := 0;
    while true
      invariant pos <= |input| && nargv[..|args|] == Somes(args)
      invariant runs + Runs(args, Lines(input, pos)) == Runs(args, Lines(input, 0))
      invariant forall l :: l in Lines(input, pos) ==> LineFits(l, |args|)
      decreases |input| - pos
    {
      NextLineFits(input, pos, |args|);
      var r, next := ReadLine(input, pos);
      if r == Eof {
        break;
      }
      var line := r.s;
      LinesCons(input, pos, next);
      var run := RunLine(nargv, args, line);
      runs := runs + [run];
      RunsCons(args, line, Lines(input, next));
      pos := next;
    }
  }

  /** The copy loop of main: argv[1..argc-1] to the front of nargv. */
  method CopyArgs(nargv: array<Option<seq<char>>>, args: seq<seq<char>>)
    requires |args| <= nargv.Length
    modifies nargv
    ensures nargv[..|args|] == Somes(args)
  {
    var k := 0;
    while k < |args|
      invariant k <= |args| && forall j :: 0 <= j < k ==> nargv[j] == Some(args[j])
    {
      nargv[k] := Some(args[k]);
      k := k + 1;
    }
  }

  /** One pass of main's line loop after readline: the line's words go into nargv after
      the copied arguments, and exec receives the vector up to the null pointer. */
  method RunLine(nargv: array<Option<seq<char>>>, args: seq<seq<char>>, line: seq<char>) returns (run: seq<seq<char>>)
    requires nargv.Length == MAXARG && |args| <= MAXARG && nargv[..|args|] == Somes(args)
    requires NoNul(line) && LineFits(line, |args|)
    modifies nargv
    ensures nargv[..|args|] == Somes(args)
    ensures run == args + Words(line)
  {
    var nargc := Tokenize(line, nargv, |args|);
    assert nargv[..|args|] == nargv[..][..|args|];
    ArgvOfRun(args, Words(line), nargv[..], nargv[nargc + 1..]);
    run := ArgvOf(nargv[..]);
  }

  /** Before each readline, the line it will return fits the buffers. */
  lemma NextLineFits(input: seq<char>, pos: nat, nargs: nat)
    requires Terminated(input) && pos <= |input|
    requires forall l :: l in Lines(input, pos) ==> LineFits(l, nargs)
    ensures TermIndex(input, pos) - pos < LINEBUF
    ensures pos < |input| ==> TermIndex(input, pos) < |input|
  {
    if pos < |input| {
      var j := TermIndex(input, pos);
      assert input[pos..j] in Lines(input, pos);
    }
  }

  // ---------------------------------------------------------------------------------
  // The trailing word as the program stores it
  // ---------------------------------------------------------------------------------

  /** The string exec receives for a line's last word as the program stores it: the word's
      bytes are not followed by a NUL, so the string runs on into whatever the 36-byte
      allocation held after them (junk), up to its first NUL. */
  function TrailingAsWritten(word: seq<char>, junk: seq<char>): seq<char>
    requires |word| + |junk| == WORDBUF
  {
    CStr(word + junk)
  }

  /** Unless the allocation happens to hold a NUL right after the word, exec receives the
      word with extra bytes after it. */
  lemma TrailingGarbled(word: seq<char>, junk: seq<char>)
    requires NoNul(word) && |word| + |junk| == WORDBUF && junk != [] && junk[0] != '\0'
    ensures word < TrailingAsWritten(word, junk)
  {
    CStrAppend(word, junk);
  }
}
