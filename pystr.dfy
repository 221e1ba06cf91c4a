/** Models of the Python built-ins the batch renamer relies on: `str.isspace`,
    `str.strip`, `str.splitlines`, `str.lower`, `str.endswith`, the ordering of
    `str` values used by `list.sort`, and `os.path.splitext` applied to a bare
    file name (one without a directory separator). */
module PyStr {

  // ---------------------------------------------------------------------------
  // Whitespace and str.strip
  // ---------------------------------------------------------------------------

  /** `c.isspace()`: the characters Python treats as whitespace. */
  predicate IsSpace(c: char) {
    var n := c as int;
    (9 <= n <= 13) || (28 <= n <= 32) || n == 0x85 || n == 0xA0 || n == 0x1680
    || (0x2000 <= n <= 0x200A) || n == 0x2028 || n == 0x2029 || n == 0x202F
    || n == 0x205F || n == 0x3000
  }

  /** `s.lstrip()`: the suffix of `s` left after dropping leading whitespace. */
  function LStrip(s: string): (r: string)
    ensures |r| <= |s| && r == s[|s| - |r|..]
    ensures r == [] || !IsSpace(r[0])
    ensures forall k :: 0 <= k < |s| - |r| ==> IsSpace(s[k])
  {
    if s != [] && IsSpace(s[0]) then LStrip(s[1..]) else s
  }

  /** `s.rstrip()`: the prefix of `s` left after dropping trailing whitespace. */
  function RStrip(s: string): (r: string)
    ensures |r| <= |s| && r == s[..|r|]
    ensures r == [] || !IsSpace(r[|r| - 1])
    ensures forall k :: |r| <= k < |s| ==> IsSpace(s[k])
  {
    if s != [] && IsSpace(s[|s| - 1]) then RStrip(s[..|s| - 1]) else s
  }

  /** `s.strip()`: whitespace removed from both ends. */
  function Strip(s: string): (r: string)
    ensures |r| <= |s|
    ensures r != [] ==> !IsSpace(r[0]) && !IsSpace(r[|r| - 1])
  {
    RStrip(LStrip(s))
  }

  /** `s.strip()` is a slice of `s`: the one that starts after the leading
      whitespace. */
  lemma StripSlice(s: string)
    ensures var r, i := Strip(s), |s| - |LStrip(s)|;
              i + |r| <= |s| && forall k :: 0 <= k < |r| ==> r[k] == s[i + k]
  {
    var l := LStrip(s);
    var r, i := RStrip(l), |s| - |l|;
    forall k | 0 <= k < |r| ensures r[k] == s[i + k] {
      assert r[k] == l[k] == s[i + k];
    }
  }

  /** Everything around that slice is whitespace, so with the contract of
      `Strip` the slice is the longest one with no whitespace at either end. */
  lemma StripSurround(s: string)
    ensures var r, i := Strip(s), |s| - |LStrip(s)|;
              && (forall k :: 0 <= k < i ==> IsSpace(s[k]))
              && (forall k :: i + |r| <= k < |s| ==> IsSpace(s[k]))
  {
    var l := LStrip(s);
    var r := RStrip(l);
    var i := |s| - |l|;
    assert r == Strip(s);
    assert l == s[i..];
    forall k | i + |r| <= k < |s| ensures IsSpace(s[k]) {
      var j := k - i;
      assert |r| <= j < |l| && IsSpace(l[j]);
      assert l[j] == s[k];
    }
  }

  /** Every character of the stripped text comes from the text. */
  lemma StripChars(s: string)
    ensures forall k :: 0 <= k < |Strip(s)| ==> Strip(s)[k] in s
  {
    var l := LStrip(s);
    var r, i := RStrip(l), |s| - |l|;
    forall k | 0 <= k < |r| ensures r[k] in s {
      assert r[k] == l[k] == s[i + k];
    }
  }

  /** Stripping text that is already stripped changes nothing. */
  lemma StripIdempotent(s: string)
    ensures Strip(Strip(s)) == Strip(s)
  {
    var r := Strip(s);
    assert LStrip(r) == r;
    assert RStrip(r) == r;
  }

  /** A text strips to "" exactly when it is all whitespace. */
  lemma StripEmptyIff(s: string)
    ensures Strip(s) == [] <==> forall k :: 0 <= k < |s| ==> IsSpace(s[k])
  {
  }

  // ---------------------------------------------------------------------------
  // str.splitlines
  // ---------------------------------------------------------------------------

  /** The line boundaries recognised by `str.splitlines()`; "\r\n" counts as one. */
  predicate IsLineBreak(c: char) {
    var n := c as int;
    (10 <= n <= 13) || (28 <= n <= 30) || n == 0x85 || n == 0x2028 || n == 0x2029
  }

  /** Index of the first line boundary in `s`, or `|s|` when there is none. */
  function LineEnd(s: string): (n: nat)
    ensures n <= |s|
    ensures forall k :: 0 <= k < n ==> !IsLineBreak(s[k])
    ensures n < |s| ==> IsLineBreak(s[n])
  {
    if s == [] || IsLineBreak(s[0]) then 0 else 1 + LineEnd(s[1..])
  }

  /** Where the line after the first boundary of `s` starts: the boundary is
      one character, or two when it is "\r\n". */
  function NextLine(s: string): (m: nat)
    requires LineEnd(s) < |s|
    ensures LineEnd(s) < m <= |s| && m <= LineEnd(s) + 2
    ensures forall k :: LineEnd(s) <= k < m ==> IsLineBreak(s[k])
    ensures m == LineEnd(s) + 2 <==> s[LineEnd(s)] == '\r' && LineEnd(s) + 1 < |s| && s[LineEnd(s) + 1] == '\n'
  {
    var n := LineEnd(s);
    if s[n] == '\r' && n + 1 < |s| && s[n + 1] == '\n' then n + 2 else n + 1
  }

  /** `s.splitlines()`: the lines of `s` without their boundaries; a final
      boundary does not open an extra empty line, and "" has no lines. */
  function SplitLines(s: string): (lines: seq<string>)
    ensures lines == [] <==> s == []
    ensures forall i, k :: 0 <= i < |lines| && 0 <= k < |lines[i]| ==> !IsLineBreak(lines[i][k])
    decreases |s|
  {
    if s == [] then []
    else if LineEnd(s) == |s| then [s]
    else [s[..LineEnd(s)]] + SplitLines(s[NextLine(s)..])
  }

  /** A text without boundaries, in front of a boundary or of nothing, is
      exactly the first line. */
  lemma LineEndAfter(l: string, t: string)
    requires forall k :: 0 <= k < |l| ==> !IsLineBreak(l[k])
    requires t == [] || IsLineBreak(t[0])
    ensures LineEnd(l + t) == |l|
  {
    var s := l + t;
    assert forall k :: 0 <= k < |l| ==> s[k] == l[k];
    assert t != [] ==> s[|l|] == t[0];
  }

  /** A non-empty text without boundaries is a single line. */
  lemma SplitLinesOne(l: string)
    requires l != [] && forall k :: 0 <= k < |l| ==> !IsLineBreak(l[k])
    ensures SplitLines(l) == [l]
  {
    LineEndAfter(l, []);
    assert l + [] == l;
  }

  /** The separators `splitlines` cuts at, given what follows them: one
      boundary character other than '\r', "\r\n", or a '\r' that is
      not followed by '\n'. */
  predicate Separator(b: string, rest: string) {
    || (|b| == 1 && IsLineBreak(b[0]) && b[0] != '\r')
    || b == "\r\n"
    || (b == "\r" && (rest == [] || rest[0] != '\n'))
  }

  /** Every separator ends a line: a line and a separator in front of `rest`
      give that line followed by the lines of `rest`. With `SplitLinesOne`
      and `SplitLines("") == []` this determines `splitlines` on every text. */
  lemma SplitLinesCons(l: string, b: string, rest: string)
    requires forall k :: 0 <= k < |l| ==> !IsLineBreak(l[k])
    requires Separator(b, rest)
    ensures SplitLines(l + b + rest) == [l] + SplitLines(rest)
  {
    var s := l + b + rest;
    assert s == l + (b + rest);
    LineEndAfter(l, b + rest);
    assert s[|l|] == b[0];
    assert |b| == 2 ==> s[|l| + 1] == b[1];
    assert NextLine(s) == |l| + |b|;
    assert s[..|l|] == l;
    assert s[|l| + |b|..] == rest;
  }

  function Concat(ls: seq<string>): string {
    if ls == [] then [] else ls[0] + Concat(ls[1..])
  }

  /** `s` with every line-boundary character removed. */
  function DropBreaks(s: string): string {
    if s == [] then [] else (if IsLineBreak(s[0]) then [] else [s[0]]) + DropBreaks(s[1..])
  }

  lemma {:induction false} DropBreaksAppend(a: string, b: string)
    ensures DropBreaks(a + b) == DropBreaks(a) + DropBreaks(b)
  {
    if a != [] {
      var head := if IsLineBreak(a[0]) then [] else [a[0]];
      assert (a + b)[0] == a[0];
      assert (a + b)[1..] == a[1..] + b;
      DropBreaksAppend(a[1..], b);
      calc {
        DropBreaks(a + b);
        head + DropBreaks(a[1..] + b);
        head + (DropBreaks(a[1..]) + DropBreaks(b));
        (head + DropBreaks(a[1..])) + DropBreaks(b);
      }
    } else {
      assert a + b == b;
    }
  }

  lemma {:induction false} DropBreaksKeeps(a: string)
    requires forall k :: 0 <= k < |a| ==> !IsLineBreak(a[k])
    ensures DropBreaks(a) == a
  {
    if a != [] {
      DropBreaksKeeps(a[1..]);
    }
  }

  lemma {:induction false} DropBreaksRemoves(a: string)
    requires forall k :: 0 <= k < |a| ==> IsLineBreak(a[k])
    ensures DropBreaks(a) == []
  {
    if a != [] {
      DropBreaksRemoves(a[1..]);
    }
  }

  lemma ConcatCons(x: string, ls: seq<string>)
    ensures Concat([x] + ls) == x + Concat(ls)
  {
    assert ([x] + ls)[1..] == ls;
  }

  /** One step of the split: the first line, then the lines of the rest. */
  lemma SplitLinesStep(s: string)
    requires s != [] && LineEnd(s) < |s|
    ensures Concat(SplitLines(s)) == s[..LineEnd(s)] + Concat(SplitLines(s[NextLine(s)..]))
  {
    var rest := s[NextLine(s)..];
    assert SplitLines(s) == [s[..LineEnd(s)]] + SplitLines(rest);
    ConcatCons(s[..LineEnd(s)], SplitLines(rest));
  }

  /** A line followed by boundaries contributes just the line to DropBreaks. */
  lemma DropBreaksLine(line: string, gap: string, rest: string)
    requires forall k :: 0 <= k < |line| ==> !IsLineBreak(line[k])
    requires forall k :: 0 <= k < |gap| ==> IsLineBreak(gap[k])
    ensures DropBreaks(line + gap + rest) == line + DropBreaks(rest)
  {
    DropBreaksKeeps(line);
    DropBreaksRemoves(gap);
    DropBreaksAppend(line + gap, rest);
    DropBreaksAppend(line, gap);
    assert line + [] == line;
  }

  /** The boundary after the first line contributes nothing to DropBreaks. */
  lemma DropBreaksStep(s: string)
    requires LineEnd(s) < |s|
    ensures DropBreaks(s) == s[..LineEnd(s)] + DropBreaks(s[NextLine(s)..])
  {
    var n, m := LineEnd(s), NextLine(s);
    var line, gap, rest := s[..n], s[n..m], s[m..];
    FirstLineHasNoBreak(s);
    GapIsBreaks(s);
    DropBreaksLine(line, gap, rest);
    SliceSplit(s, n, m);
  }

  lemma FirstLineHasNoBreak(s: string)
    ensures var line := s[..LineEnd(s)];
            forall k :: 0 <= k < |line| ==> !IsLineBreak(line[k])
  {
    var n := LineEnd(s);
    var line := s[..n];
    forall k | 0 <= k < |line| ensures !IsLineBreak(line[k]) {
      assert line[k] == s[k];
    }
  }

  lemma GapIsBreaks(s: string)
    requires LineEnd(s) < |s|
    ensures var gap := s[LineEnd(s)..NextLine(s)];
            forall k :: 0 <= k < |gap| ==> IsLineBreak(gap[k])
  {
    var n, m := LineEnd(s), NextLine(s);
    var gap := s[n..m];
    forall k | 0 <= k < |gap| ensures IsLineBreak(gap[k]) {
      assert gap[k] == s[n + k];
    }
  }

  lemma SliceSplit(s: string, n: nat, m: nat)
    requires n <= m <= |s|
    ensures s == s[..n] + s[n..m] + s[m..]
  {
  }

  /** Splitting into lines loses exactly the line boundaries: the lines put back
      together are the text with its boundary characters removed, in order. */
  lemma {:induction false} SplitLinesKeepsText(s: string)
    ensures Concat(SplitLines(s)) == DropBreaks(s)
    decreases |s|
  {
    if s != [] {
      if LineEnd(s) == |s| {
        DropBreaksKeeps(s);
        ConcatCons(s, []);
      } else {
        SplitLinesStep(s);
        DropBreaksStep(s);
        SplitLinesKeepsText(s[NextLine(s)..]);
      }
    }
  }

  // ---------------------------------------------------------------------------
  // str.lower and str.endswith
  // ---------------------------------------------------------------------------

  function LowerChar(c: char): char {
    if 'A' <= c <= 'Z' then (c as int + 32) as char else c
  }

  /** `s.lower()` on the ASCII letters. */
  function Lower(s: string): string {
    seq(|s|, k requires 0 <= k < |s| => LowerChar(s[k]))
  }

  /** `s.endswith(suffix)`. */
  predicate EndsWith(s: string, suffix: string) {
    |suffix| <= |s| && s[|s| - |suffix|..] == suffix
  }

  // ---------------------------------------------------------------------------
  // Ordering of str values (code point by code point, a prefix first)
  // ---------------------------------------------------------------------------

  /** `a <= b` on Python strings. */
  predicate StrLe(a: string, b: string) {
    a == [] || (b != [] && (a[0] < b[0] || (a[0] == b[0] && StrLe(a[1..], b[1..]))))
  }

  lemma {:induction false} StrLeTotal(a: string, b: string)
    ensures StrLe(a, b) || StrLe(b, a)
  {
    if a != [] && b != [] && a[0] == b[0] {
      StrLeTotal(a[1..], b[1..]);
    }
  }

  lemma {:induction false} StrLeAntisymmetric(a: string, b: string)
    requires StrLe(a, b) && StrLe(b, a)
    ensures a == b
  {
    if a != [] && b != [] {
      StrLeAntisymmetric(a[1..], b[1..]);
      assert a == [a[0]] + a[1..] && b == [b[0]] + b[1..];
    }
  }

  lemma {:induction false} StrLeTransitive(a: string, b: string, c: string)
    requires StrLe(a, b) && StrLe(b, c)
    ensures StrLe(a, c)
  {
    if a != [] && b != [] && c != [] && a[0] == b[0] && b[0] == c[0] {
      StrLeTransitive(a[1..], b[1..], c[1..]);
    }
  }

  // ---------------------------------------------------------------------------
  // os.path.splitext on a bare file name
  // ---------------------------------------------------------------------------

  /** Index of the last '.', or -1. */
  function LastDot(s: string): (d: int)
    ensures -1 <= d < |s|
    ensures d >= 0 ==> s[d] == '.'
    ensures forall k :: d < k < |s| ==> s[k] != '.'
  {
    if s == [] then -1 else if s[|s| - 1] == '.' then |s| - 1 else LastDot(s[..|s| - 1])
  }

  predicate AllDots(s: string) {
    forall k :: 0 <= k < |s| ==> s[k] == '.'
  }

  /** `os.path.splitext(name)`: the extension runs from the last dot, unless
      only dots precede that dot (".png", "..png"), in which case it is empty. */
  function SplitExt(name: string): (r: (string, string))
    ensures r.0 + r.1 == name
    ensures r.1 != [] ==> r.1[0] == '.' && !AllDots(r.0)
                          && forall k :: 0 < k < |r.1| ==> r.1[k] != '.'
    ensures r.1 == [] ==> forall k :: 0 <= k < |name| && name[k] == '.' ==> AllDots(name[..k])
  {
    var d := LastDot(name);
    if d < 0 || AllDots(name[..d]) then
      assert forall k :: 0 <= k < |name| && name[k] == '.' ==> k <= d;
      (name, [])
    else
      (name[..d], name[d..])
  }

  /** Appending an extension to a base that is not made of dots alone gives a
      name whose extension is that same extension. */
  lemma ExtensionKept(base: string, ext: string)
    requires !AllDots(base)
    requires ext != [] && ext[0] == '.' && forall k :: 0 < k < |ext| ==> ext[k] != '.'
    ensures SplitExt(base + ext).1 == ext
  {
    var s := base + ext;
    var d := LastDot(s);
    assert s[|base|] == '.';
    assert d == |base|;
    assert s[..d] == base;
  }
}
