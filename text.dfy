/**
 Python string operations used by the relay: `str.strip()`, `str.lower()`
 (restricted to what the trigger test can observe), `str.split("\n\n")`
 and its inverse `"\n\n".join(...)`.
 */
module PyText {

  /** The paragraph separator the relay splits replies on. */
  const SEP: string := "\n\n"

  /**
   Python's `str.isspace()` for one character: the characters of category Zs
   or of bidirectional class WS, B or S.
   */
  predicate IsSpace(c: char) {
    var n := c as int;
    (9 <= n <= 13) || (28 <= n <= 32) || n == 0x85 || n == 0xA0 || n == 0x1680
    || (0x2000 <= n <= 0x200A) || n == 0x2028 || n == 0x2029 || n == 0x202F
    || n == 0x205F || n == 0x3000
  }

  predicate IsBlank(s: string) {
    forall i :: 0 <= i < |s| ==> IsSpace(s[i])
  }

  /** `s.lstrip()`: drop whitespace at the front. */
  function TrimLeft(s: string): string
    decreases |s|
  {
    if s != [] && IsSpace(s[0]) then TrimLeft(s[1..]) else s
  }

  /** `s.rstrip()`: drop whitespace at the back. */
  function TrimRight(s: string): string
    decreases |s|
  {
    if s != [] && IsSpace(s[|s| - 1]) then TrimRight(s[..|s| - 1]) else s
  }

  /** `s.strip()`. */
  function Strip(s: string): string {
    TrimRight(TrimLeft(s))
  }

  /** `lstrip` keeps the suffix that starts at the first non-space character. */
  lemma {:induction false} TrimLeftSpec(s: string)
    ensures |TrimLeft(s)| <= |s| && TrimLeft(s) == s[|s| - |TrimLeft(s)|..]
    ensures IsBlank(s[..|s| - |TrimLeft(s)|])
    ensures TrimLeft(s) == [] || !IsSpace(TrimLeft(s)[0])
    decreases |s|
  {
    if s != [] && IsSpace(s[0]) {
      TrimLeftSpec(s[1..]);
      var r := TrimLeft(s[1..]);
      assert s[..|s| - |r|] == [s[0]] + s[1..][..|s| - 1 - |r|];
    }
  }

  /** `rstrip` keeps the prefix that ends at the last non-space character. */
  lemma {:induction false} TrimRightSpec(s: string)
    ensures |TrimRight(s)| <= |s| && TrimRight(s) == s[..|TrimRight(s)|]
    ensures IsBlank(s[|TrimRight(s)|..])
    ensures TrimRight(s) == [] || !IsSpace(TrimRight(s)[|TrimRight(s)| - 1])
    decreases |s|
  {
    if s != [] && IsSpace(s[|s| - 1]) {
      TrimRightSpec(s[..|s| - 1]);
      var r := TrimRight(s[..|s| - 1]);
      assert s[|r|..] == s[..|s| - 1][|r|..] + [s[|s| - 1]];
    }
  }

  /** Number of whitespace characters `strip` removes at the front of `s`. */
  function Leading(s: string): nat
  {
    TrimLeftSpec(s);
    |s| - |TrimLeft(s)|
  }

  /**
   `s.strip()` is the slice of `s` left once the whitespace around it is
   removed: what is removed on either side is blank, and what is kept neither
   starts nor ends with whitespace.
   */
  lemma {:induction false} StripSpec(s: string)
    ensures Leading(s) + |Strip(s)| <= |s|
    ensures Strip(s) == s[Leading(s)..Leading(s) + |Strip(s)|]
    ensures IsBlank(s[..Leading(s)]) && IsBlank(s[Leading(s) + |Strip(s)|..])
    ensures Strip(s) == [] || (!IsSpace(Strip(s)[0]) && !IsSpace(Strip(s)[|Strip(s)| - 1]))
  {
    var t := TrimLeft(s);
    TrimLeftSpec(s);
    TrimRightSpec(t);
    assert s[Leading(s) + |Strip(s)|..] == t[|Strip(s)|..];
  }

  /** `s.strip()` is empty exactly when `s` is blank (Python's `not s.strip()`). */
  lemma {:induction false} StripEmptyIffBlank(s: string)
    ensures Strip(s) == "" <==> IsBlank(s)
  {
    StripSpec(s);
    TrimLeftSpec(s);
    var k := Leading(s);
    if Strip(s) == "" {
      forall i | 0 <= i < |s| ensures IsSpace(s[i]) {
        assert s[..k][i] == s[i];
      }
    }
  }

  /**
   Any way of writing `s` as blank + `m` + blank, where `m` is empty or neither
   starts nor ends with whitespace, singles out `Strip(s)`.
   */
  lemma {:induction false} StripUnique(s: string, i: nat, j: nat)
    requires i <= j <= |s|
    requires IsBlank(s[..i]) && IsBlank(s[j..])
    requires i < j ==> !IsSpace(s[i]) && !IsSpace(s[j - 1])
    ensures Strip(s) == s[i..j]
  {
    StripSpec(s);
    TrimLeftSpec(s);
  }

  /** Whitespace appended to a string does not change what `strip` keeps. */
  lemma {:induction false} StripAppendBlank(s: string, b: string)
    requires IsBlank(b)
    ensures Strip(s + b) == Strip(s)
  {
    StripSpec(s);
    var k := Leading(s);
    var r := Strip(s);
    var t := s + b;
    assert t[..k] == s[..k];
    assert t[k..k + |r|] == r;
    assert t[k + |r|..] == s[k + |r|..] + b;
    StripUnique(t, k, k + |r|);
  }

  /**
   `c.lower()` for the characters whose lower-case form is ASCII: the ASCII
   capitals and the Kelvin sign; every other character is kept as it is.
   */
  function LowerChar(c: char): char {
    if 'A' <= c <= 'Z' then (c as int + 32) as char
    else if c as int == 0x212A then 'k'
    else c
  }

  function Lower(s: string): string {
    seq(|s|, i requires 0 <= i < |s| => LowerChar(s[i]))
  }

  /** `t` contains no occurrence of the separator "\n\n". */
  predicate NoSep(t: string) {
    forall i :: 0 <= i < |t| - 1 ==> !(t[i] == '\n' && t[i + 1] == '\n')
  }

  /**
   `s.split("\n\n")`: cut at each separator, scanning left to right without
   overlap; there is always at least one piece.
   */
  function Split(s: string): (r: seq<string>)
    ensures |r| >= 1
    decreases |s|
  {
    if |s| < 2 then
      [s]
    else if s[0] == '\n' && s[1] == '\n' then
      [""] + Split(s[2..])
    else
      var rest := Split(s[1..]);
      [[s[0]] + rest[0]] + rest[1..]
  }

  /** The first piece of a split is a prefix of the text. */
  lemma {:induction false} SplitFirstIsPrefix(s: string)
    ensures |Split(s)[0]| <= |s| && Split(s)[0] == s[..|Split(s)[0]|]
    decreases |s|
  {
    if |s| >= 2 && !(s[0] == '\n' && s[1] == '\n') {
      SplitFirstIsPrefix(s[1..]);
    }
  }

  /** No piece of a split holds a separator (the split is as fine as it can be). */
  lemma {:induction false} SplitPiecesHaveNoSep(s: string)
    ensures forall k :: 0 <= k < |Split(s)| ==> NoSep(Split(s)[k])
    decreases |s|
  {
    if |s| < 2 {
    } else if s[0] == '\n' && s[1] == '\n' {
      SplitPiecesHaveNoSep(s[2..]);
      assert Split(s)[1..] == Split(s[2..]);
    } else {
      SplitPiecesHaveNoSep(s[1..]);
      SplitFirstIsPrefix(s[1..]);
      var rest := Split(s[1..]);
      assert Split(s)[1..] == rest[1..];
    }
  }

  /** A piece followed by another piece does not end in '\n'. */
  predicate CutLeftmost(ps: seq<string>) {
    forall k :: 0 <= k < |ps| - 1 ==> ps[k] == [] || ps[k][|ps[k]| - 1] != '\n'
  }

  /**
   Every cut is made at the leftmost separator still available, as Python
   scans left to right: no piece before the last ends in '\n', so no cut
   could have been made one character earlier.
   */
  lemma {:induction false} SplitCutsLeftmost(s: string)
    ensures CutLeftmost(Split(s))
    decreases |s|
  {
    if |s| < 2 {
    } else if s[0] == '\n' && s[1] == '\n' {
      SplitCutsLeftmost(s[2..]);
      assert Split(s)[1..] == Split(s[2..]);
    } else {
      SplitCutsLeftmost(s[1..]);
      var rest := Split(s[1..]);
      var r := Split(s);
      assert r[1..] == rest[1..];
      if |rest| > 1 && rest[0] == [] {
        // the rest was cut right at its start, so it starts with the separator
        assert |s[1..]| >= 2 && s[1] == '\n';
        assert s[0] != '\n';
      }
      assert r[0] == [s[0]] + rest[0];
      forall k | 0 <= k < |r| - 1
        ensures r[k] == [] || r[k][|r[k]| - 1] != '\n'
      {
        if k > 0 {
          assert r[k] == rest[k];
        }
      }
    }
  }

  /** `"\n\n".join(ps)`. */
  function Join(ps: seq<string>): string
    decreases |ps|
  {
    if ps == [] then ""
    else if |ps| == 1 then ps[0]
    else ps[0] + SEP + Join(ps[1..])
  }

  /** Putting a character in front of the first piece puts it in front of the join. */
  lemma {:induction false} JoinConsChar(c: char, rest: seq<string>)
    requires |rest| >= 1
    ensures Join([[c] + rest[0]] + rest[1..]) == [c] + Join(rest)
  {
    var r := [[c] + rest[0]] + rest[1..];
    assert r[1..] == rest[1..];
  }

  /** Joining the pieces of a split gives back the original text. */
  lemma {:induction false} JoinSplit(s: string)
    ensures Join(Split(s)) == s
    decreases |s|
  {
    if |s| < 2 {
    } else if s[0] == '\n' && s[1] == '\n' {
      var rest := Split(s[2..]);
      JoinSplit(s[2..]);
      assert ([""] + rest)[1..] == rest;
      assert s == SEP + s[2..];
    } else {
      JoinSplit(s[1..]);
      JoinConsChar(s[0], Split(s[1..]));
      assert s == [s[0]] + s[1..];
    }
  }

  /** The last piece comes after the last separator. */
  lemma {:induction false} JoinLast(ps: seq<string>)
    requires |ps| >= 2
    ensures Join(ps) == Join(ps[..|ps| - 1]) + SEP + ps[|ps| - 1]
    decreases |ps|
  {
    var n := |ps|;
    if n > 2 {
      JoinLast(ps[1..]);
      assert ps[..n - 1][1..] == ps[1..][..n - 2];
    }
  }
}
