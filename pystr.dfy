/**
 * The parts of Python's `str` behaviour that the scanner relies on: `strip()`,
 * `startswith`/`endswith`, ASCII `lower()`, `sep.join(...)`, the line-by-line
 * iteration of a text file, and decimal digits.
 */
module PyStr {

  /** `c.isspace()` in Python 3: the ASCII controls TAB..CR and FS..US, the space,
      NEL, NO-BREAK SPACE and the Unicode space separators and line/paragraph separators. */
  predicate IsSpace(c: char) {
    || c == ' '
    || ('\t' <= c <= '\r')
    || ('\U{1c}' <= c <= '\U{1f}')
    || c == '\U{85}' || c == '\U{a0}' || c == '\U{1680}'
    || ('\U{2000}' <= c <= '\U{200a}')
    || c == '\U{2028}' || c == '\U{2029}' || c == '\U{202f}' || c == '\U{205f}' || c == '\U{3000}'
  }

  /** Neither end of `s` is whitespace: what `strip()` leaves behind. */
  predicate IsStripped(s: string) {
    s == [] || (!IsSpace(s[0]) && !IsSpace(s[|s| - 1]))
  }

  /** `s.rstrip()`: the longest prefix of `s` that does not end in whitespace. */
  function TrimEnd(s: string): (r: string)
    ensures r <= s
    ensures r == [] || !IsSpace(r[|r| - 1])
    ensures forall k :: |r| <= k < |s| ==> IsSpace(s[k])
    decreases |s|
  {
    if |s| > 0 && IsSpace(s[|s| - 1]) then TrimEnd(s[..|s| - 1]) else s
  }

  /** `s.lstrip()`: the longest suffix of `s` that does not start with whitespace. */
  function TrimStart(s: string): (r: string)
    ensures |r| <= |s| && r == s[|s| - |r|..]
    ensures r == [] || !IsSpace(r[0])
    ensures forall k :: 0 <= k < |s| - |r| ==> IsSpace(s[k])
    decreases |s|
  {
    if |s| > 0 && IsSpace(s[0]) then TrimStart(s[1..]) else s
  }

  /** `s.strip()` with no argument. */
  function Strip(s: string): (r: string)
    ensures IsStripped(r)
    ensures IsStripped(s) ==> r == s
  {
    var t := TrimEnd(s);
    var r := TrimStart(t);
    assert r != [] ==> r[|r| - 1] == t[|t| - 1];
    r
  }

  /** A text whose first character is not whitespace is not blank: stripping keeps that character. */
  lemma StripKeepsVisibleStart(s: string)
    requires s != [] && !IsSpace(s[0])
    ensures Strip(s) != [] && Strip(s)[0] == s[0]
  {
    var t := TrimEnd(s);
    assert t != [] && t[0] == s[0];
  }

  /** Stripping twice is stripping once. */
  lemma StripIdempotent(s: string)
    ensures Strip(Strip(s)) == Strip(s)
  {
  }

  /** A trailing whitespace character (such as the `'\n'` that ends a line) does not survive `strip()`. */
  lemma StripDropsTrailingSpace(s: string, c: char)
    requires IsSpace(c)
    ensures Strip(s + [c]) == Strip(s)
  {
    TrimEndDropsSpace(s, c);
  }

  lemma TrimEndDropsSpace(s: string, c: char)
    requires IsSpace(c)
    ensures TrimEnd(s + [c]) == TrimEnd(s)
  {
    var sc := s + [c];
    assert sc[|sc| - 1] == c && sc[..|sc| - 1] == s;
  }

  /** When a line holds a newline only as its last character, its stripped form holds none. */
  lemma StripNoNewline(s: string)
    requires forall k :: 0 <= k < |s| - 1 ==> s[k] != '\n'
    ensures '\n' !in Strip(s)
  {
    TrimEndNoNewline(s);
    TrimStartKeepsNoNewline(TrimEnd(s));
  }

  lemma TrimEndNoNewline(s: string)
    requires forall k :: 0 <= k < |s| - 1 ==> s[k] != '\n'
    ensures '\n' !in TrimEnd(s)
  {
    var t := TrimEnd(s);
    forall k | 0 <= k < |t| ensures t[k] != '\n' {
      assert t[k] == s[k];
      if k == |t| - 1 {
        assert !IsSpace(t[k]);
      } else {
        assert k < |s| - 1;
      }
    }
  }

  lemma TrimStartKeepsNoNewline(t: string)
    requires '\n' !in t
    ensures '\n' !in TrimStart(t)
  {
    var r := TrimStart(t);
    forall k | 0 <= k < |r| ensures r[k] != '\n' {
      assert r[k] == t[|t| - |r| + k];
    }
  }

  /** `[line.strip() for line in ls]`. */
  function StripAll(ls: seq<string>): (r: seq<string>)
    ensures |r| == |ls|
    ensures forall k :: 0 <= k < |ls| ==> r[k] == Strip(ls[k])
    decreases |ls|
  {
    if ls == [] then [] else [Strip(ls[0])] + StripAll(ls[1..])
  }

  /** The stripped lines, as a set, are the lines' stripped forms. */
  lemma StripAllMembers(ls: seq<string>)
    ensures (set x | x in StripAll(ls)) == set l | l in ls :: Strip(l)
  {
    var r := StripAll(ls);
    forall x | x in r ensures x in set l | l in ls :: Strip(l) {
      var k :| 0 <= k < |r| && r[k] == x;
      assert ls[k] in ls;
    }
    forall l | l in ls ensures Strip(l) in r {
      var k :| 0 <= k < |ls| && ls[k] == l;
      assert r[k] == Strip(l);
    }
  }

  /** `s.startswith(p)`. */
  predicate StartsWith(s: string, p: string) {
    |p| <= |s| && s[..|p|] == p
  }

  /** Concatenation is associative. */
  lemma AppendAssoc(a: string, b: string, c: string)
    ensures (a + b) + c == a + (b + c)
  {
  }

  /** The first character of a concatenation comes from its first, non-empty part. */
  lemma FirstOfConcat(a: string, b: string)
    requires a != []
    ensures (a + b)[0] == a[0]
  {
  }

  /** A non-empty text is its first character followed by the rest. */
  lemma FirstThenRest(s: string)
    requires s != []
    ensures s == [s[0]] + s[1..]
  {
  }

  /** The empty text is a unit of concatenation. */
  lemma AppendEmpty(a: string)
    ensures "" + a == a && a + "" == a
  {
  }

  /** A text starts with whatever is put in front of it. */
  lemma StartsWithConcat(a: string, b: string)
    ensures StartsWith(a + b, a)
  {
    assert (a + b)[..|a|] == a;
  }

  /** `s.endswith(p)`. */
  predicate EndsWith(s: string, p: string) {
    |p| <= |s| && s[|s| - |p|..] == p
  }

  /** `c.lower()` restricted to ASCII letters. */
  function LowerChar(c: char): char {
    if 'A' <= c <= 'Z' then (c as int - 'A' as int + 'a' as int) as char else c
  }

  /** `s.lower()` restricted to ASCII letters. */
  function Lower(s: string): string
  {
    seq(|s|, k requires 0 <= k < |s| => LowerChar(s[k]))
  }

  /** `sep.join(xs)`. */
  function Join(xs: seq<string>, sep: string): string
  {
    if xs == [] then [] else if |xs| == 1 then xs[0] else xs[0] + sep + Join(xs[1..], sep)
  }

  /** Length of the first line of a non-empty text: up to and including the first
      `'\n'`, or the whole text when it holds none. */
  function FirstLineLength(s: string): (n: nat)
    requires s != []
    ensures 0 < n <= |s|
    ensures forall k :: 0 <= k < n - 1 ==> s[k] != '\n'
    ensures n < |s| ==> s[n - 1] == '\n'
    ensures '\n' !in s ==> n == |s|
    decreases |s|
  {
    if s[0] == '\n' || |s| == 1 then 1 else 1 + FirstLineLength(s[1..])
  }

  /** `for line in f` on a text file holding `s`: the pieces of `s` cut after every
      `'\n'`, each keeping its terminator; the last one may lack it. */
  function Lines(s: string): seq<string>
    decreases |s|
  {
    if s == [] then [] else
      var n := FirstLineLength(s);
      [s[..n]] + Lines(s[n..])
  }

  /** No line is empty; every line holds a newline at most as its last character and
      every line but the last ends with one; and the lines put back together are the
      text. These fix the cut uniquely. */
  lemma {:induction false} LinesShape(s: string)
    ensures forall l :: l in Lines(s) ==> forall k :: 0 <= k < |l| - 1 ==> l[k] != '\n'
    ensures forall k :: 0 <= k < |Lines(s)| ==> Lines(s)[k] != []
    ensures forall k :: 0 <= k < |Lines(s)| - 1 ==> EndsInNewline(Lines(s)[k])
    ensures Concat(Lines(s)) == s
    decreases |s|
  {
    LinesCut(s);
    if s != [] {
      var n := FirstLineLength(s);
      LinesShape(s[n..]);
      assert s == s[..n] + s[n..];
    }
  }

  /** The last character is `'\n'`. */
  predicate EndsInNewline(l: string) {
    l != [] && l[|l| - 1] == '\n'
  }

  /** A line is never empty, and only the last line may lack its terminator. */
  lemma {:induction false} LinesCut(s: string)
    ensures forall k :: 0 <= k < |Lines(s)| ==> Lines(s)[k] != []
    ensures forall k :: 0 <= k < |Lines(s)| - 1 ==> EndsInNewline(Lines(s)[k])
    decreases |s|
  {
    if s != [] {
      var n := FirstLineLength(s);
      var first, tail := s[..n], Lines(s[n..]);
      LinesCut(s[n..]);
      assert Lines(s) == [first] + tail;
      assert tail != [] ==> EndsInNewline(first);
      forall k | 0 < k < |Lines(s)|
        ensures Lines(s)[k] == tail[k - 1]
      {
      }
    }
  }

  /** The concatenation of a sequence of strings. */
  function Concat(xs: seq<string>): string
  {
    if xs == [] then [] else xs[0] + Concat(xs[1..])
  }

  /** A text made of a newline-free line, a newline and a rest iterates as that line followed by the rest's lines. */
  lemma {:induction false} LinesCons(x: string, t: string)
    requires '\n' !in x
    ensures Lines(x + "\n" + t) == [x + "\n"] + Lines(t)
  {
    var s := x + "\n" + t;
    FirstLineLengthOf(x, t);
    assert s[..|x| + 1] == x + "\n";
    assert s[|x| + 1..] == t;
  }

  lemma {:induction false} FirstLineLengthOf(x: string, t: string)
    requires '\n' !in x
    ensures FirstLineLength(x + "\n" + t) == |x| + 1
    decreases |x|
  {
    if x != [] {
      assert (x + "\n" + t)[1..] == x[1..] + "\n" + t;
      FirstLineLengthOf(x[1..], t);
    }
  }

  /** A newline-free text is one line, or none when empty. */
  lemma LinesSingle(x: string)
    requires '\n' !in x
    ensures Lines(x) == if x == [] then [] else [x]
  {
    if x != [] {
      var n := FirstLineLength(x);
      assert x[..n] == x;
      assert x[n..] == [];
      assert Lines(x) == [x[..n]] + Lines(x[n..]);
    }
  }

  /** The set of non-empty stripped lines: the filter `line.strip()` / `if line.strip()`. */
  function NonBlankStripped(ls: seq<string>): set<string>
  {
    set l | l in ls && Strip(l) != [] :: Strip(l)
  }

  lemma NonBlankStrippedAppend(a: seq<string>, b: seq<string>)
    ensures NonBlankStripped(a + b) == NonBlankStripped(a) + NonBlankStripped(b)
  {
    forall x | x in NonBlankStripped(a + b) ensures x in NonBlankStripped(a) + NonBlankStripped(b) {
      var l :| l in a + b && Strip(l) != [] && Strip(l) == x;
      if l in a { assert x in NonBlankStripped(a); } else { assert x in NonBlankStripped(b); }
    }
  }

  /** Writing newline-free entries joined by `'\n'` and reading the text back line by
      line, stripping and dropping blanks, gives the non-blank stripped entries. */
  lemma {:induction false} NonBlankOfJoin(xs: seq<string>)
    requires forall x :: x in xs ==> '\n' !in x
    ensures NonBlankStripped(Lines(Join(xs, "\n"))) == NonBlankStripped(xs)
    decreases |xs|
  {
    if xs == [] {
      assert Lines([]) == [];
    } else if |xs| == 1 {
      LinesSingle(xs[0]);
      if xs[0] == [] {
        assert Strip(xs[0]) == [];
        assert NonBlankStripped(xs) == {};
      } else {
        assert Lines(Join(xs, "\n")) == xs;
      }
    } else {
      var x, rest := xs[0], xs[1..];
      assert xs == [x] + rest;
      var jr := Join(rest, "\n");
      assert Join(xs, "\n") == x + "\n" + jr;
      LinesCons(x, jr);
      NonBlankOfJoin(rest);
      NonBlankStrippedAppend([x + "\n"], Lines(jr));
      NonBlankStrippedAppend([x], rest);
      SingleLineNewline(x);
    }
  }

  lemma NonBlankStrippedSingle(y: string)
    ensures NonBlankStripped([y]) == if Strip(y) == [] then {} else {Strip(y)}
  {
    assert forall l :: l in [y] <==> l == y;
  }

  lemma SingleLineNewline(x: string)
    ensures NonBlankStripped([x + "\n"]) == NonBlankStripped([x])
  {
    StripDropsTrailingSpace(x, '\n');
    NonBlankStrippedSingle(x + "\n");
    NonBlankStrippedSingle(x);
  }

  /** Joining a list of two or more entries: the first, the separator, the join of the rest. */
  lemma JoinCons(x: string, rest: seq<string>, sep: string)
    requires rest != []
    ensures Join([x] + rest, sep) == x + sep + Join(rest, sep)
  {
    assert ([x] + rest)[0] == x && ([x] + rest)[1..] == rest;
  }

  /** The last character of a join is the last character of its last entry, when that entry is non-empty. */
  lemma {:induction false} JoinLast(xs: seq<string>, sep: string)
    requires xs != [] && xs[|xs| - 1] != []
    ensures var j := Join(xs, sep); j != [] && j[|j| - 1] == xs[|xs| - 1][|xs[|xs| - 1]| - 1]
    decreases |xs|
  {
    if |xs| > 1 {
      JoinLast(xs[1..], sep);
    }
  }

  // Decimal digits ---------------------------------------------------------

  predicate IsDigit(c: char) {
    '0' <= c <= '9'
  }

  function DigitValue(c: char): (v: nat)
    requires IsDigit(c)
    ensures v < 10
  {
    c as int - '0' as int
  }

  function DigitChar(v: nat): (c: char)
    requires v < 10
    ensures IsDigit(c) && DigitValue(c) == v
  {
    ('0' as int + v) as char
  }

  predicate AllDigits(s: string) {
    forall k :: 0 <= k < |s| ==> IsDigit(s[k])
  }

  /** `int(s)` for a string of ASCII digits. */
  function DigitsValue(s: string): nat
    requires AllDigits(s)
    decreases |s|
  {
    if s == [] then 0 else 10 * DigitsValue(s[..|s| - 1]) + DigitValue(s[|s| - 1])
  }

  /** `str(n)` for a natural number. */
  function NatToString(n: nat): (r: string)
    ensures r != [] && AllDigits(r)
    ensures DigitsValue(r) == n
    ensures |r| > 1 ==> r[0] != '0'
    decreases n
  {
    if n < 10 then [DigitChar(n)] else
      var p := NatToString(n / 10);
      var r := p + [DigitChar(n % 10)];
      assert r[..|r| - 1] == p;
      r
  }

}
