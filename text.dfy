/** Python's `str.strip()` with no argument and `"\n".join(...)`. */
module Text {

  /** The characters Python's `str.isspace()` accepts, which are the ones
      `strip()` removes: the ASCII tab, line feed, vertical tab, form feed,
      carriage return, the four information separators and space, plus the
      Unicode spaces and line and paragraph separators. */
  predicate IsSpace(c: char) {
    var n := c as int;
    (9 <= n <= 13) || (28 <= n <= 32) || n == 0x85 || n == 0xA0 || n == 0x1680 ||
    (0x2000 <= n <= 0x200A) || n == 0x2028 || n == 0x2029 || n == 0x202F ||
    n == 0x205F || n == 0x3000
  }

  /** Neither end of `s` is a space character. */
  predicate Stripped(s: string) {
    s == [] || (!IsSpace(s[0]) && !IsSpace(s[|s| - 1]))
  }

  predicate AllSpace(s: string) {
    forall k :: 0 <= k < |s| ==> IsSpace(s[k])
  }

  /** The length of the leading run of spaces: where `lstrip()` starts. */
  function LeadingSpaces(s: string): (n: nat)
    ensures n <= |s|
    ensures forall k :: 0 <= k < n ==> IsSpace(s[k])
    ensures n < |s| ==> !IsSpace(s[n])
    decreases |s|
  {
    if s != [] && IsSpace(s[0]) then
      var m := LeadingSpaces(s[1..]);
      assert forall k :: 1 <= k < 1 + m ==> s[k] == s[1..][k - 1];
      1 + m
    else 0
  }

  /** The length of the trailing run of spaces: where `rstrip()` stops. */
  function TrailingSpaces(s: string): (n: nat)
    ensures n <= |s|
    ensures forall k :: |s| - n <= k < |s| ==> IsSpace(s[k])
    ensures n < |s| ==> !IsSpace(s[|s| - n - 1])
    decreases |s|
  {
    if s != [] && IsSpace(s[|s| - 1]) then
      var m := TrailingSpaces(s[..|s| - 1]);
      assert forall k :: |s| - 1 - m <= k < |s| - 1 ==> s[k] == s[..|s| - 1][k];
      1 + m
    else 0
  }

  /** `s.strip()`: the piece of `s` between its leading and its trailing
      run of spaces. It has no space at either end and is empty exactly when
      `s` is all spaces. */
  function Strip(s: string): (r: string)
    ensures Stripped(r)
    ensures r == [] <==> AllSpace(s)
  {
    var i := LeadingSpaces(s);
    var rest := s[i..];
    var j := |rest| - TrailingSpaces(rest);
    MiddleRun(s, i, j);
    rest[..j]
  }

  /** The facts behind Strip's contract, for the run boundaries `i` and
      `i + j` it computes. */
  lemma MiddleRun(s: string, i: nat, j: nat)
    requires i == LeadingSpaces(s) && j == |s[i..]| - TrailingSpaces(s[i..])
    ensures i + j <= |s|
    ensures forall k :: 0 <= k < i ==> IsSpace(s[k])
    ensures forall k :: i + j <= k < |s| ==> IsSpace(s[k])
    ensures j > 0 ==> !IsSpace(s[i]) && !IsSpace(s[i + j - 1])
    ensures Stripped(s[i..][..j])
    ensures s[i..][..j] == [] <==> AllSpace(s)
    ensures |s[i..][..j]| == j && forall k :: 0 <= k < j ==> s[i..][..j][k] == s[i + k]
  {
    var rest := s[i..];
    var n := TrailingSpaces(rest);
    forall k | i + j <= k < |s| ensures IsSpace(s[k]) {
      assert s[k] == rest[k - i];
    }
    if j > 0 {
      assert rest[0] == s[i];
      assert rest[j - 1] == s[i + j - 1];
      assert s[i..][..j][0] == s[i];
      assert s[i..][..j][j - 1] == s[i + j - 1];
    }
  }

  /** What strip removes: the result is the stretch of `s` that starts after
      the leading spaces, and everything before and after it is space. */
  lemma StripIsMiddle(s: string)
    ensures var i := LeadingSpaces(s); var r := Strip(s);
      i + |r| <= |s| &&
      (forall k :: 0 <= k < |r| ==> r[k] == s[i + k]) &&
      (forall k :: 0 <= k < i ==> IsSpace(s[k])) &&
      (forall k :: i + |r| <= k < |s| ==> IsSpace(s[k]))
  {
    var i := LeadingSpaces(s);
    var j := |s[i..]| - TrailingSpaces(s[i..]);
    assert Strip(s) == s[i..][..j];
    MiddleRun(s, i, j);
  }

  /** Stripping is idempotent. */
  lemma StripIdempotent(s: string)
    ensures Strip(Strip(s)) == Strip(s)
  {
    StripStripped(Strip(s));
  }

  /** A string without spaces at either end is its own strip. */
  lemma StripStripped(s: string)
    requires Stripped(s)
    ensures Strip(s) == s
  {
    if s != [] {
      assert LeadingSpaces(s) == 0;
      assert s[0..] == s;
      assert TrailingSpaces(s) == 0;
    }
  }

  /** Every part is a non-empty stripped string, as the dispatcher collects
      them. */
  predicate CleanParts(parts: seq<string>) {
    forall k :: 0 <= k < |parts| ==> parts[k] != [] && Stripped(parts[k])
  }

  /** Two runs of clean parts make a clean run. */
  lemma CleanPartsConcat(a: seq<string>, b: seq<string>)
    requires CleanParts(a) && CleanParts(b)
    ensures CleanParts(a + b)
  {
    forall k | 0 <= k < |a + b| ensures (a + b)[k] != [] && Stripped((a + b)[k]) {
      if k < |a| {
        assert (a + b)[k] == a[k];
      } else {
        assert (a + b)[k] == b[k - |a|];
      }
    }
  }

  /** `"\n".join(parts)`. */
  function Join(parts: seq<string>): string
    decreases |parts|
  {
    if |parts| == 0 then ""
    else if |parts| == 1 then parts[0]
    else parts[0] + "\n" + Join(parts[1..])
  }

  /** Appending one more part adds it after a line break, or alone when
      nothing was there yet. */
  lemma {:induction false} JoinAppend(parts: seq<string>, p: string)
    ensures Join(parts + [p]) == if parts == [] then p else Join(parts) + "\n" + p
  {
    if |parts| == 1 {
      assert (parts + [p])[1..] == [p];
    } else if |parts| > 1 {
      assert (parts + [p])[1..] == parts[1..] + [p];
      JoinAppend(parts[1..], p);
    }
  }

  /** Joining two runs of parts is joining each run and putting one line
      break between them when both are non-empty. */
  lemma {:induction false} JoinConcat(a: seq<string>, b: seq<string>)
    ensures Join(a + b) ==
      if a == [] then Join(b) else if b == [] then Join(a) else Join(a) + "\n" + Join(b)
    decreases |b|
  {
    if b == [] {
      assert a + b == a;
    } else if a != [] {
      var front := b[..|b| - 1];
      assert b == front + [b[|b| - 1]];
      assert a + b == (a + front) + [b[|b| - 1]];
      JoinAppend(a + front, b[|b| - 1]);
      JoinAppend(front, b[|b| - 1]);
      JoinConcat(a, front);
    } else {
      assert a + b == b;
    }
  }

  /** When every part is non-empty and stripped, the joined text is empty
      only for no parts and has no space (in particular no blank line) at
      either end. */
  lemma {:induction false} JoinStripped(parts: seq<string>)
    requires CleanParts(parts)
    ensures Join(parts) == [] <==> parts == []
    ensures Stripped(Join(parts))
    ensures Join(parts) != [] ==> Join(parts)[0] != '\n' && Join(parts)[|Join(parts)| - 1] != '\n'
    decreases |parts|
  {
    if |parts| > 1 {
      assert forall k :: 0 <= k < |parts[1..]| ==> parts[1..][k] == parts[k + 1];
      JoinStripped(parts[1..]);
      var rest := Join(parts[1..]);
      assert rest == Join(parts[1..]) && rest != [];
      var j := parts[0] + "\n" + rest;
      assert Join(parts) == j;
      assert j[0] == parts[0][0];
      assert j[|j| - 1] == rest[|rest| - 1];
    }
  }
}
