/**
 * The handful of Python `str` operations the quiz code relies on:
 * `strip()`, `upper()`, `split(sep)` and `startswith` (the last one is
 * Dafny's prefix test `p <= s` on sequences).
 */
module Text {

  /** The characters for which Python's `str.isspace()` holds. */
  predicate IsSpace(c: char) {
    c == ' ' || ('\t' <= c <= '\r') || ('\U{1C}' <= c <= '\U{1F}') ||
    c == '\U{85}' || c == '\U{A0}' || c == '\U{1680}' ||
    ('\U{2000}' <= c <= '\U{200A}') || c == '\U{2028}' || c == '\U{2029}' ||
    c == '\U{202F}' || c == '\U{205F}' || c == '\U{3000}'
  }

  predicate AllSpace(s: string) {
    forall i :: 0 <= i < |s| ==> IsSpace(s[i])
  }

  /** Neither end of `s` is whitespace: what `strip()` leaves behind. */
  predicate Trimmed(s: string) {
    s == [] || (!IsSpace(s[0]) && !IsSpace(s[|s| - 1]))
  }

  /** Python's `s.lstrip()`: the suffix left after dropping leading whitespace. */
  function TrimStart(s: string): (r: string)
    ensures |r| <= |s|
    decreases |s|
  {
    if s != [] && IsSpace(s[0]) then TrimStart(s[1..]) else s
  }

  /** Python's `s.rstrip()`: the prefix left after dropping trailing whitespace. */
  function TrimEnd(s: string): (r: string)
    ensures |r| <= |s|
    decreases |s|
  {
    if s != [] && IsSpace(s[|s| - 1]) then TrimEnd(s[..|s| - 1]) else s
  }

  /** Python's `s.strip()` with no argument. */
  function Strip(s: string): string {
    TrimEnd(TrimStart(s))
  }

  /** `lstrip()` drops a run of whitespace and stops at the first other character. */
  lemma {:induction false} TrimStartShape(s: string)
    ensures var r := TrimStart(s);
      r == s[|s| - |r|..] && AllSpace(s[..|s| - |r|]) && (r == [] || !IsSpace(r[0]))
    decreases |s|
  {
    if s != [] && IsSpace(s[0]) {
      TrimStartShape(s[1..]);
      var r := TrimStart(s[1..]);
      assert s[..|s| - |r|] == [s[0]] + s[1..][..|s| - 1 - |r|];
    }
  }

  /** `rstrip()` drops a run of whitespace at the end and stops at the last other character. */
  lemma {:induction false} TrimEndShape(s: string)
    ensures var r := TrimEnd(s);
      r == s[..|r|] && AllSpace(s[|r|..]) && (r == [] || !IsSpace(r[|r| - 1]))
    decreases |s|
  {
    if s != [] && IsSpace(s[|s| - 1]) {
      TrimEndShape(s[..|s| - 1]);
      var r := TrimEnd(s[..|s| - 1]);
      assert s[|r|..] == s[..|s| - 1][|r|..] + [s[|s| - 1]];
    }
  }

  /**
   * `strip()` keeps a contiguous stretch of its input that starts and ends
   * with a non-whitespace character, and everything it drops is whitespace.
   */
  lemma StripShape(s: string)
    ensures var r := Strip(s);
      Trimmed(r) &&
      exists i {:trigger s[i..]} :: 0 <= i <= |s| - |r| && r == s[i..][..|r|] &&
        AllSpace(s[..i]) && AllSpace(s[i..][|r|..])
  {
    var m := TrimStart(s);
    TrimStartShape(s);
    TrimEndShape(m);
    var i := |s| - |m|;
    assert s[i..] == m;
  }

  lemma {:induction false} TrimStartOfSpaces(p: string, rest: string)
    requires AllSpace(p)
    requires rest == [] || !IsSpace(rest[0])
    ensures TrimStart(p + rest) == rest
  {
    if p != [] {
      assert (p + rest)[1..] == p[1..] + rest;
      TrimStartOfSpaces(p[1..], rest);
    }
  }

  lemma {:induction false} TrimEndOfSpaces(rest: string, q: string)
    requires AllSpace(q)
    requires rest == [] || !IsSpace(rest[|rest| - 1])
    ensures TrimEnd(rest + q) == rest
  {
    if q != [] {
      assert (rest + q)[..|rest + q| - 1] == rest + q[..|q| - 1];
      TrimEndOfSpaces(rest, q[..|q| - 1]);
    }
  }

  /**
   * `strip()` removes exactly the whitespace around the text: whatever
   * whitespace `p` and `q` surround a trimmed `m` with, stripping gives `m`
   * back.
   */
  lemma StripOf(p: string, m: string, q: string)
    requires AllSpace(p) && AllSpace(q) && Trimmed(m)
    ensures Strip(p + m + q) == m
  {
    if m == [] {
      assert p + m + q == (p + q) + [];
      TrimStartOfSpaces(p + q, []);
    } else {
      assert p + m + q == p + (m + q);
      TrimStartOfSpaces(p, m + q);
      TrimEndOfSpaces(m, q);
    }
  }

  /** A string with no whitespace at either end is its own `strip()`. */
  lemma StripTrimmed(s: string)
    requires Trimmed(s)
    ensures Strip(s) == s
  {
    assert s == [] + s + [];
    StripOf([], s, []);
  }

  /** One leading space is stripped off. */
  lemma StripLeadingSpace(s: string)
    requires Trimmed(s)
    ensures Strip(" " + s) == s
  {
    assert " " + s == " " + s + [];
    StripOf(" ", s, []);
  }

  /** Stripping twice is stripping once. */
  lemma StripIdempotent(s: string)
    ensures Strip(Strip(s)) == Strip(s)
  {
    StripShape(s);
    StripTrimmed(Strip(s));
  }

  /** Python's `upper()` on one character, for the ASCII letters. */
  function UpperChar(c: char): char {
    if 'a' <= c <= 'z' then (c as int - 32) as char else c
  }

  /** Python's `s.upper()`, restricted to the ASCII letters. */
  function Upper(s: string): (r: string)
    ensures |r| == |s|
  {
    seq(|s|, i requires 0 <= i < |s| => UpperChar(s[i]))
  }

  /**
   * Python's `s.split(sep)` with an explicit separator: the pieces between
   * consecutive separators, so there is always at least one piece.
   */
  function Split(s: string, sep: char): (r: seq<string>)
    ensures |r| >= 1
    ensures sep in s ==> |r| >= 2
    decreases |s|
  {
    if s == [] then
      [[]]
    else
      var rest := Split(s[1..], sep);
      if s[0] == sep then [[]] + rest
      else [[s[0]] + rest[0]] + rest[1..]
  }

  /** Python's `sep.join(parts)`. */
  function Join(parts: seq<string>, sep: char): string
    decreases |parts|
  {
    if |parts| == 0 then []
    else if |parts| == 1 then parts[0]
    else parts[0] + [sep] + Join(parts[1..], sep)
  }

  /** Splitting loses nothing: joining the pieces back gives the input. */
  lemma {:induction false} JoinSplit(s: string, sep: char)
    ensures Join(Split(s, sep), sep) == s
    decreases |s|
  {
    if s != [] {
      var rest := Split(s[1..], sep);
      JoinSplit(s[1..], sep);
      if s[0] == sep {
        assert Split(s, sep) == [[]] + rest;
        assert ([[]] + rest)[1..] == rest;
      } else {
        var r := Split(s, sep);
        assert r == [[s[0]] + rest[0]] + rest[1..];
        if |rest| == 1 {
          assert Join(r, sep) == [s[0]] + rest[0];
        } else {
          assert r[1..] == rest[1..];
          assert Join(r, sep) == ([s[0]] + rest[0]) + [sep] + Join(rest[1..], sep);
        }
      }
    }
  }

  /** A string with no separator splits into itself alone. */
  lemma {:induction false} SplitNoSep(q: string, sep: char)
    requires sep !in q
    ensures Split(q, sep) == [q]
    decreases |q|
  {
    if q != [] {
      SplitNoSep(q[1..], sep);
      assert Split(q, sep) == [[q[0]] + q[1..]] + [q[1..]][1..];
      assert [q[0]] + q[1..] == q;
    }
  }

  /** The first piece is the text before the first separator; the rest split on. */
  lemma {:induction false} SplitAtFirst(p: string, q: string, sep: char)
    requires sep !in p
    ensures Split(p + [sep] + q, sep) == [p] + Split(q, sep)
    decreases |p|
  {
    if p == [] {
      assert ([] + [sep] + q)[1..] == q;
    } else {
      var s := p + [sep] + q;
      assert s[1..] == p[1..] + [sep] + q;
      SplitAtFirst(p[1..], q, sep);
      var rest := Split(s[1..], sep);
      assert rest == [p[1..]] + Split(q, sep);
      assert Split(s, sep) == [[p[0]] + rest[0]] + rest[1..];
      assert [p[0]] + p[1..] == p;
    }
  }

  /**
   * The second piece of a split is the longest separator-free stretch that
   * follows the first separator: it stops at the second separator or at the
   * end of the string.
   */
  lemma SecondPiece(p: string, q: string, sep: char)
    requires sep !in p
    ensures var f := Split(p + [sep] + q, sep)[1];
      f <= q && sep !in f && (|f| == |q| || q[|f|] == sep)
  {
    SplitAtFirst(p, q, sep);
    FirstPiece(q, sep);
  }

  lemma {:induction false} FirstPiece(q: string, sep: char)
    ensures var f := Split(q, sep)[0];
      f <= q && sep !in f && (|f| == |q| || q[|f|] == sep)
    decreases |q|
  {
    if q != [] {
      FirstPiece(q[1..], sep);
    }
  }
}
