/**
  The renderer's text utilities: `trim`, which strips ordinary white space
  from both ends of a string (but never a non-breaking space), and
  `escapeText`, which backslash-escapes every Markdown-significant
  character. The module also holds the string splitting that selector keys
  are parsed with.
*/
module Text {

  /**
    Ordinary white space: space, tab, carriage return, line feed. These are
    the characters `trim` removes and the ones that separate selector tokens.
  */
  const Whitespace: set<char> := {' ', '\t', '\r', '\n'}

  predicate IsTrimmable(c: char) {
    c in Whitespace
  }

  /** The non-breaking space U+00A0, which `trim` keeps. */
  const NonBreakingSpace: char := '\U{00A0}'

  ghost predicate AllTrimmable(s: string) {
    forall k :: 0 <= k < |s| ==> IsTrimmable(s[k])
  }

  /** Removes the leading run of trimmable characters. */
  function TrimStart(s: string): (r: string)
    ensures |r| <= |s| && r == s[|s| - |r|..]
    ensures AllTrimmable(s[..|s| - |r|])
    ensures r != [] ==> !IsTrimmable(r[0])
  {
    if s != [] && IsTrimmable(s[0]) then TrimStart(s[1..]) else s
  }

  /** Removes the trailing run of trimmable characters. */
  function TrimEnd(s: string): (r: string)
    ensures |r| <= |s| && r == s[..|r|]
    ensures AllTrimmable(s[|r|..])
    ensures r != [] ==> !IsTrimmable(r[|r| - 1])
  {
    if s != [] && IsTrimmable(s[|s| - 1]) then TrimEnd(s[..|s| - 1]) else s
  }

  /**
    `trim(text)`: the part of `s` left once the leading and the trailing
    runs of space, tab, CR and LF are removed. What is left is a contiguous
    piece of `s` that neither starts nor ends with one of those characters.
  */
  function Trim(s: string): (r: string)
    ensures |r| <= |s|
    ensures r != [] ==> !IsTrimmable(r[0]) && !IsTrimmable(r[|r| - 1])
    ensures r == [] <==> AllTrimmable(s)
  {
    var t := TrimStart(s);
    assert s == s[..|s| - |t|] + t;
    TrimEnd(t)
  }

  lemma {:induction false} TrimStartOfPadded(a: string, m: string)
    requires AllTrimmable(a)
    requires m != [] ==> !IsTrimmable(m[0])
    ensures TrimStart(a + m) == m
  {
    if a != [] {
      assert (a + m)[1..] == a[1..] + m;
      TrimStartOfPadded(a[1..], m);
    }
  }

  lemma {:induction false} TrimEndOfPadded(m: string, b: string)
    requires AllTrimmable(b)
    requires m != [] ==> !IsTrimmable(m[|m| - 1])
    ensures TrimEnd(m + b) == m
  {
    if b != [] {
      assert (m + b)[..|m + b| - 1] == m + b[..|b| - 1];
      TrimEndOfPadded(m, b[..|b| - 1]);
    } else {
      assert m + b == m;
    }
  }

  /**
    The characterisation of `trim`: whenever `s` is a run of trimmable
    characters, then a middle part that neither starts nor ends with one,
    then another such run, `Trim(s)` is exactly the middle part. Internal
    white space and a non-breaking space at either end both survive.
  */
  lemma TrimOfPadded(a: string, m: string, b: string)
    requires AllTrimmable(a) && AllTrimmable(b)
    requires m != [] ==> !IsTrimmable(m[0]) && !IsTrimmable(m[|m| - 1])
    ensures Trim(a + m + b) == m
  {
    assert a + m + b == a + (m + b);
    if m == [] {
      assert m + b == b;
      assert AllTrimmable(a + b);
    } else {
      TrimStartOfPadded(a, m + b);
      TrimEndOfPadded(m, b);
    }
  }

  /**
    What `trim` removes is white space only: `s` is `Trim(s)` with a run of
    trimmable characters before it and another after it.
  */
  lemma TrimSurroundings(s: string)
    ensures exists a, b :: s == a + Trim(s) + b && AllTrimmable(a) && AllTrimmable(b)
  {
    var t := TrimStart(s);
    var r := TrimEnd(t);
    Pieces(s, |s| - |t|);
    Pieces(t, |r|);
    Surround(s, s[..|s| - |t|], t, r, t[|r|..]);
    assert r == Trim(s);
  }

  lemma Pieces(x: string, i: nat)
    requires i <= |x|
    ensures x == x[..i] + x[i..]
  {
  }

  lemma Surround(s: string, a: string, t: string, r: string, b: string)
    requires s == a + t && t == r + b && AllTrimmable(a) && AllTrimmable(b)
    ensures exists a', b' :: s == a' + r + b' && AllTrimmable(a') && AllTrimmable(b')
  {
    assert s == a + r + b;
  }

  /** `trim` is idempotent. */
  lemma TrimIdempotent(s: string)
    ensures Trim(Trim(s)) == Trim(s)
  {
    var r := Trim(s);
    var e: string := [];
    assert AllTrimmable(e);
    TrimOfPadded(e, r, e);
    assert e + r + e == r;
  }

  // ---------------------------------------------------------------------
  // escapeText

  /** The Markdown-significant characters `escapeText` protects. */
  predicate IsProtected(c: char) {
    c == '*' || c == '(' || c == ')' || c == '[' || c == ']' || c == '{' || c == '}'
    || c == '_' || c == '#' || c == '`' || c == '+' || c == '-' || c == '.' || c == '!'
  }

  function CountProtected(s: string): (n: nat) {
    if s == [] then 0 else (if IsProtected(s[0]) then 1 else 0) + CountProtected(s[1..])
  }

  function EscapeChar(c: char): (r: string) {
    if IsProtected(c) then ['\\', c] else [c]
  }

  /**
    `escapeText(text)`: every protected character, each occurrence on its
    own, is preceded by one backslash; every other character is copied.
  */
  function EscapeText(s: string): (r: string)
    ensures |r| == |s| + CountProtected(s)
    ensures forall k :: 0 <= k < |r| && IsProtected(r[k]) ==> 0 < k && r[k - 1] == '\\'
  {
    if s == [] then [] else EscapeChar(s[0]) + EscapeText(s[1..])
  }

  /** Reads escaped text back: a backslash before a protected character is dropped. */
  function Unescape(s: string): (r: string)
    decreases |s|
  {
    if |s| >= 2 && s[0] == '\\' && IsProtected(s[1]) then [s[1]] + Unescape(s[2..])
    else if s == [] then []
    else [s[0]] + Unescape(s[1..])
  }

  /** Escaping loses nothing: the original text is recovered from the escaped one. */
  lemma {:induction false} UnescapeEscapeText(s: string)
    ensures Unescape(EscapeText(s)) == s
  {
    if s != [] {
      var rest := EscapeText(s[1..]);
      UnescapeEscapeText(s[1..]);
      if IsProtected(s[0]) {
        assert EscapeText(s) == ['\\', s[0]] + rest;
        assert (['\\', s[0]] + rest)[2..] == rest;
      } else {
        assert EscapeText(s) == [s[0]] + rest;
        assert ([s[0]] + rest)[1..] == rest;
        assert rest != [] ==> !IsProtected(rest[0]);
      }
    }
  }

  /** `escapeText` works character by character, so it distributes over concatenation. */
  lemma {:induction false} EscapeTextConcat(a: string, b: string)
    ensures EscapeText(a + b) == EscapeText(a) + EscapeText(b)
  {
    if a != [] {
      assert (a + b)[1..] == a[1..] + b;
      EscapeTextConcat(a[1..], b);
    } else {
      assert a + b == b;
    }
  }

  /** Text without protected characters. */
  ghost predicate Plain(s: string) {
    forall k :: 0 <= k < |s| ==> !IsProtected(s[k])
  }

  /** Text without protected characters passes through unchanged. */
  lemma {:induction false} EscapeTextPlain(s: string)
    requires Plain(s)
    ensures EscapeText(s) == s
  {
    if s != [] {
      EscapeTextPlain(s[1..]);
    }
  }

  /** A protected character on its own gets exactly one backslash. */
  lemma EscapeProtected(p: char)
    requires IsProtected(p)
    ensures EscapeText([p]) == ['\\', p]
  {
    assert [p][1..] == [];
  }

  // ---------------------------------------------------------------------
  // Splitting, used to take selector keys apart

  /**
    Splits `s` at every character in `seps`. There is always one more piece
    than there are separators, and no piece holds a separator.
  */
  function Split(s: string, seps: set<char>): (r: seq<string>)
    ensures |r| >= 1
    ensures forall i :: 0 <= i < |r| ==> forall c :: c in seps ==> c !in r[i]
    decreases |s|
  {
    if s == [] then [""]
    else
      var rest := Split(s[1..], seps);
      if s[0] in seps then [""] + rest
      else [[s[0]] + rest[0]] + rest[1..]
  }

  /** Glues pieces back together with `sep` between neighbours. */
  function Join(pieces: seq<string>, sep: char): (s: string)
    requires |pieces| >= 1
    decreases |pieces|
  {
    if |pieces| == 1 then pieces[0] else pieces[0] + [sep] + Join(pieces[1..], sep)
  }

  /** A string without separators is a single piece. */
  lemma {:induction false} SplitNoSeparator(s: string, seps: set<char>)
    requires forall k :: 0 <= k < |s| ==> s[k] !in seps
    ensures Split(s, seps) == [s]
    decreases |s|
  {
    if s != [] {
      SplitNoSeparator(s[1..], seps);
      assert [s[0]] + s[1..] == s;
    }
  }

  /** Splitting at a separator character splits the two halves independently. */
  lemma {:induction false} SplitConcat(a: string, c: char, b: string, seps: set<char>)
    requires c in seps
    ensures Split(a + [c] + b, seps) == Split(a, seps) + Split(b, seps)
    decreases |a|
  {
    if a == [] {
      assert a + [c] + b == [c] + b;
      assert ([c] + b)[1..] == b;
    } else {
      assert (a + [c] + b)[1..] == a[1..] + [c] + b;
      SplitConcat(a[1..], c, b, seps);
    }
  }
}
