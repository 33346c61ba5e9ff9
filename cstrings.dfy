/** NUL-terminated strings over char buffers. */
module CStrings {

  /** A C string's contents: no NUL inside. */
  predicate NoNul(s: seq<char>) {
    forall i :: 0 <= i < |s| ==> s[i] != '\0'
  }

  /** The byte at index i of a C string whose contents are s: the terminator past the end. */
  function At(s: seq<char>, i: nat): char {
    if i < |s| then s[i] else '\0'
  }

  /** The string a char buffer holds: its bytes before the first NUL (all of them when
      there is none). */
  function CStr(s: seq<char>): (r: seq<char>)
    ensures |r| <= |s| && r == s[..|r|] && NoNul(r)
    ensures |r| < |s| ==> s[|r|] == '\0'
  {
    if s == [] || s[0] == '\0' then [] else [s[0]] + CStr(s[1..])
  }

  /** Appending after a string without NUL leaves the string's own end to what follows. */
  lemma {:induction false} CStrAppend(a: seq<char>, b: seq<char>)
    requires NoNul(a)
    ensures CStr(a + b) == a + CStr(b)
  {
    if a != [] {
      var ab := a + b;
      assert ab[0] == a[0] && ab[1..] == a[1..] + b;
      assert CStr(ab) == [a[0]] + CStr(ab[1..]);
      CStrAppend(a[1..], b);
      assert [a[0]] + (a[1..] + CStr(b)) == a + CStr(b);
    } else {
      assert a + b == b;
    }
  }

  /** A NUL written after s ends the string there, whatever follows it. */
  lemma {:induction false} CStrPadded(s: seq<char>, rest: seq<char>)
    ensures CStr(s + ['\0'] + rest) == CStr(s)
  {
    if s != [] && s[0] != '\0' {
      assert (s + ['\0'] + rest)[1..] == s[1..] + ['\0'] + rest;
      CStrPadded(s[1..], rest);
    }
  }
}
