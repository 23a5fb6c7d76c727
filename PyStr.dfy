/**
 * The Python `str` built-ins that the core uses, over `seq<char>`:
 * `sub in s` and `s.find(sub)`, `s.split(sep)`, `s.split()`, `sep.join(parts)`,
 * `s.strip(chars)`, the slice `s[:m]` and the decimal rendering of an `int`
 * inside an f-string.
 */
module PyStr {
  import opened Wrappers

  function Min(a: int, b: int): int { if a <= b then a else b }

  function Max(a: int, b: int): int { if a >= b then a else b }

  // ---------------------------------------------------------------- search

  /** `sub` occurs in `s` at index `i`. */
  predicate OccursAt(s: string, sub: string, i: nat)
  {
    i + |sub| <= |s| && s[i..i + |sub|] == sub
  }

  /** Python's `sub in s`. */
  predicate Contains(s: string, sub: string)
  {
    exists i: nat :: i <= |s| && OccursAt(s, sub, i)
  }

  /** The first occurrence of `sub` in `s` at or after index `from`. */
  function FindFrom(s: string, sub: string, from: nat): (r: Option<nat>)
    ensures r.Some? ==> from <= r.value && OccursAt(s, sub, r.value)
    ensures forall j: nat :: from <= j && (r.None? || j < r.value) ==> !OccursAt(s, sub, j)
    decreases |s| - from
  {
    if from + |sub| > |s| then None
    else if s[from..from + |sub|] == sub then Some(from)
    else FindFrom(s, sub, from + 1)
  }

  /** Python's `s.find(sub)`, with `None` for -1. */
  function Find(s: string, sub: string): (r: Option<nat>)
    ensures r.None? <==> !Contains(s, sub)
    ensures r.Some? ==> OccursAt(s, sub, r.value)
    ensures r.Some? ==> forall j: nat :: j < r.value ==> !OccursAt(s, sub, j)
  {
    FindFrom(s, sub, 0)
  }

  /** A part of an occurrence of `sub` is an occurrence of that part. */
  lemma OccursWithin(s: string, sub: string, i: nat, j: nat, part: string)
    requires OccursAt(s, sub, i)
    requires j + |part| <= |sub| && sub[j..j + |part|] == part
    ensures OccursAt(s, part, i + j)
  {
    forall t | 0 <= t < |part|
      ensures s[i + j + t] == part[t]
    {
      assert s[i..i + |sub|][j + t] == s[i + j + t];
      assert sub[j..j + |part|][t] == sub[j + t];
    }
    assert s[i + j..i + j + |part|] == part;
  }

  /** An occurrence in a suffix `s[p..]` is an occurrence in `s`. */
  lemma OccursInSuffix(s: string, sub: string, p: nat, i: nat)
    requires p <= |s| && OccursAt(s[p..], sub, i)
    ensures OccursAt(s, sub, p + i)
  {
    assert s[p..][i..i + |sub|] == s[p + i..p + i + |sub|];
  }

  /** What a string does not contain, no prefix of it contains. */
  lemma NotContainsPrefix(a: string, b: string, sub: string)
    requires a <= b && !Contains(b, sub)
    ensures !Contains(a, sub)
  {
    if Contains(a, sub) {
      var i: nat :| i <= |a| && OccursAt(a, sub, i);
      assert b[i..i + |sub|] == a[i..i + |sub|];
      assert OccursAt(b, sub, i);
    }
  }

  /** `bool(v)` for an optional string such as an `os.getenv` result: set and not empty. */
  predicate Truthy(v: Option<string>)
  {
    v.Some? && v.value != ""
  }

  // ------------------------------------------------------- split and join

  /** Python's `s.split(sep)` for a non-empty separator: the pieces between non-overlapping occurrences, left to right. */
  function Split(s: string, sep: string): (parts: seq<string>)
    requires sep != []
    ensures |parts| >= 1
    ensures |parts| >= 2 <==> Contains(s, sep)
    decreases |s|
  {
    match Find(s, sep)
    case None => [s]
    case Some(i) => [s[..i]] + Split(s[i + |sep|..], sep)
  }

  /** Python's `sep.join(parts)`. */
  function Join(parts: seq<string>, sep: string): string
  {
    if |parts| == 0 then ""
    else if |parts| == 1 then parts[0]
    else parts[0] + sep + Join(parts[1..], sep)
  }

  /** Joining the pieces of a split with the same separator gives the string back. */
  lemma {:induction false} JoinOfSplit(s: string, sep: string)
    requires sep != []
    ensures Join(Split(s, sep), sep) == s
    decreases |s|
  {
    match Find(s, sep)
    case None =>
    case Some(i) =>
      var rest := s[i + |sep|..];
      JoinOfSplit(rest, sep);
      var parts := Split(s, sep);
      assert parts == [s[..i]] + Split(rest, sep);
      assert parts[1..] == Split(rest, sep);
      assert s == s[..i] + sep + rest;
  }

  /** No piece of a split contains the separator. */
  lemma {:induction false} SplitPartsAvoidSep(s: string, sep: string)
    requires sep != []
    ensures forall k :: 0 <= k < |Split(s, sep)| ==> !Contains(Split(s, sep)[k], sep)
    decreases |s|
  {
    match Find(s, sep)
    case None =>
    case Some(i) =>
      var rest := s[i + |sep|..];
      SplitPartsAvoidSep(rest, sep);
      forall j: nat
        ensures !OccursAt(s[..i], sep, j)
      {
        if j + |sep| <= i {
          assert s[..i][j..j + |sep|] == s[j..j + |sep|];
          assert !OccursAt(s, sep, j);
        }
      }
      var parts := Split(s, sep);
      assert parts == [s[..i]] + Split(rest, sep);
      forall k | 0 <= k < |parts|
        ensures !Contains(parts[k], sep)
      {
        if k > 0 {
          assert parts[k] == Split(rest, sep)[k - 1];
        }
      }
  }

  /** The first piece of a split: a prefix of `s` without the separator, followed by the separator unless it is all of `s`. */
  lemma SplitHead(s: string, sep: string)
    requires sep != []
    ensures Split(s, sep)[0] <= s
    ensures !Contains(Split(s, sep)[0], sep)
    ensures |Split(s, sep)[0]| < |s| ==> OccursAt(s, sep, |Split(s, sep)[0]|)
  {
    SplitPartsAvoidSep(s, sep);
  }

  /** `t` ends `s`, and is either all of `s` or preceded in `s` by `sep`. */
  predicate EndsAfter(s: string, sep: string, t: string)
  {
    && |t| <= |s| && t == s[|s| - |t|..]
    && (|t| < |s| ==> |t| + |sep| <= |s| && s[|s| - |t| - |sep|..|s| - |t|] == sep)
  }

  /** The last piece of a split is a suffix of `s`, preceded by the separator unless it is all of `s`. */
  lemma SplitLast(s: string, sep: string)
    requires sep != []
    ensures EndsAfter(s, sep, Split(s, sep)[|Split(s, sep)| - 1])
  {
    JoinOfSplit(s, sep);
    JoinLastPart(s, sep, Split(s, sep));
  }

  /** The last part of `sep.join(parts)` is its suffix, preceded by the separator when there are two parts or more. */
  lemma JoinLastPart(s: string, sep: string, parts: seq<string>)
    requires |parts| >= 1 && Join(parts, sep) == s
    ensures EndsAfter(s, sep, parts[|parts| - 1])
  {
    if |parts| >= 2 {
      JoinLast(parts, sep);
      var front := Join(parts[..|parts| - 1], sep);
      var t := parts[|parts| - 1];
      assert (front + sep + t)[|s| - |t|..] == t;
      assert (front + sep + t)[|s| - |t| - |sep|..|s| - |t|] == sep;
    }
  }

  /** `sep.join(parts)` ends with the separator and the last part when there are at least two parts. */
  lemma {:induction false} JoinLast(parts: seq<string>, sep: string)
    requires |parts| >= 2
    ensures Join(parts, sep) == Join(parts[..|parts| - 1], sep) + sep + parts[|parts| - 1]
  {
    if |parts| > 2 {
      JoinLast(parts[1..], sep);
      assert parts[1..][..|parts| - 2] == parts[..|parts| - 1][1..];
    }
  }

  /** `sub` occurs in `a + sub + b` right after `a`. */
  lemma OccursAfter(a: string, sub: string, b: string)
    ensures OccursAt(a + sub + b, sub, |a|)
  {
    assert (a + sub + b)[|a|..|a| + |sub|] == sub;
  }

  /** `sub` is found right after a prefix `x` in which its first character does not occur. */
  lemma FindAfterFree(x: string, sub: string, rest: string)
    requires sub != []
    requires forall k :: 0 <= k < |x| ==> x[k] != sub[0]
    ensures Find(x + sub + rest, sub) == Some(|x|)
  {
    var s := x + sub + rest;
    assert s[|x|..|x| + |sub|] == sub;
    assert OccursAt(s, sub, |x|);
    forall j: nat | j < |x|
      ensures !OccursAt(s, sub, j)
    {
      if j + |sub| <= |s| {
        assert s[j..j + |sub|][0] == x[j];
      }
    }
  }

  /** Splitting on a character undoes joining with it, when no part contains that character. */
  lemma {:induction false} SplitOfJoinChar(parts: seq<string>, c: char)
    requires |parts| >= 1
    requires forall k :: 0 <= k < |parts| ==> c !in parts[k]
    ensures Split(Join(parts, [c]), [c]) == parts
  {
    var s := Join(parts, [c]);
    if |parts| == 1 {
      forall i: nat | i <= |s|
        ensures !OccursAt(s, [c], i)
      {
        if i + 1 <= |s| {
          assert s[i..i + 1][0] == s[i];
        }
      }
    } else {
      var rest := Join(parts[1..], [c]);
      assert s == parts[0] + [c] + rest;
      FindAfterFree(parts[0], [c], rest);
      SplitOfJoinChar(parts[1..], c);
      assert s[..|parts[0]|] == parts[0];
      assert s[|parts[0]| + 1..] == rest;
    }
  }

  /** Joining a prefix of the parts gives a prefix of the joined string. */
  lemma {:induction false} JoinPrefix(a: seq<string>, b: seq<string>, sep: string)
    requires a <= b
    ensures Join(a, sep) <= Join(b, sep)
  {
    if |a| >= 2 {
      assert a[1..] <= b[1..];
      JoinPrefix(a[1..], b[1..], sep);
    } else if |a| == 1 && |b| >= 2 {
      assert Join(b, sep) == b[0] + (sep + Join(b[1..], sep));
    }
  }

  /** Each line followed by a newline, as text built by appending `line + "\n"` repeatedly. */
  function Terminated(lines: seq<string>): string
  {
    if lines == [] then "" else Terminated(lines[..|lines| - 1]) + lines[|lines| - 1] + "\n"
  }

  lemma TerminatedAppend(lines: seq<string>, line: string)
    ensures Terminated(lines + [line]) == Terminated(lines) + line + "\n"
  {
    assert (lines + [line])[..|lines|] == lines;
  }

  /** Newline-terminated lines are the lines joined by newlines, plus one final newline. */
  lemma {:induction false} TerminatedAsJoin(lines: seq<string>)
    requires |lines| >= 1
    ensures Terminated(lines) == Join(lines + [""], "\n")
  {
    var n := |lines|;
    var init := lines[..n - 1];
    JoinLast(lines + [""], "\n");
    assert (lines + [""])[..n] == lines;
    if n == 1 {
      assert init == [];
    } else {
      TerminatedAsJoin(init);
      JoinLast(init + [""], "\n");
      assert (init + [""])[..n - 1] == init;
      JoinLast(lines, "\n");
    }
  }

  /** `text.split("\n")` of newline-terminated lines gives the lines back, then an empty last piece. */
  lemma SplitTerminated(lines: seq<string>)
    requires |lines| >= 1
    requires forall k :: 0 <= k < |lines| ==> '\n' !in lines[k]
    ensures Split(Terminated(lines), "\n") == lines + [""]
  {
    TerminatedAsJoin(lines);
    SplitOfJoinChar(lines + [""], '\n');
  }

  // ------------------------------------------------- whitespace splitting

  /** The characters for which Python's `str.isspace()` holds (these are also what `\s` matches in a `str` regex). */
  const Whitespace: set<char> := {
    '\t', '\n', '\U{000B}', '\U{000C}', '\r', '\U{001C}', '\U{001D}', '\U{001E}', '\U{001F}', ' ',
    '\U{0085}', '\U{00A0}', '\U{1680}',
    '\U{2000}', '\U{2001}', '\U{2002}', '\U{2003}', '\U{2004}', '\U{2005}', '\U{2006}', '\U{2007}',
    '\U{2008}', '\U{2009}', '\U{200A}',
    '\U{2028}', '\U{2029}', '\U{202F}', '\U{205F}', '\U{3000}'
  }

  predicate IsSpace(c: char) { c in Whitespace }

  predicate NoSpace(s: string) { forall i :: 0 <= i < |s| ==> !IsSpace(s[i]) }

  /** The length of the longest prefix of `s` without whitespace. */
  function WordLen(s: string): (n: nat)
    ensures n <= |s|
    ensures NoSpace(s[..n])
    ensures n == |s| || IsSpace(s[n])
  {
    if s == [] || IsSpace(s[0]) then 0 else 1 + WordLen(s[1..])
  }

  /** A word followed by whitespace or the end of the string is the longest prefix without whitespace. */
  lemma {:induction false} WordLenOfWord(s: string, w: string)
    requires w <= s && NoSpace(w)
    requires |w| == |s| || IsSpace(s[|w|])
    ensures WordLen(s) == |w|
  {
    if w != [] {
      assert s[0] == w[0];
      WordLenOfWord(s[1..], w[1..]);
    }
  }

  /** Python's `s.split()`: the maximal runs of non-whitespace, left to right. */
  function SplitWs(s: string): (words: seq<string>)
    ensures forall k :: 0 <= k < |words| ==> words[k] != [] && NoSpace(words[k])
    decreases |s|
  {
    if s == [] then []
    else if IsSpace(s[0]) then SplitWs(s[1..])
    else
      var n := WordLen(s);
      [s[..n]] + SplitWs(s[n..])
  }

  /** `s.split()` undoes `' '.join(words)` when every word is non-empty and has no whitespace. */
  lemma {:induction false} SplitWsOfJoin(words: seq<string>)
    requires forall k :: 0 <= k < |words| ==> words[k] != [] && NoSpace(words[k])
    ensures SplitWs(Join(words, " ")) == words
  {
    if |words| == 0 {
    } else {
      var w := words[0];
      var s := Join(words, " ");
      var tail := if |words| == 1 then "" else " " + Join(words[1..], " ");
      assert s == w + tail;
      assert s[..|w|] == w;
      WordLenOfWord(s, w);
      assert s[|w|..] == tail;
      if |words| > 1 {
        SplitWsOfJoin(words[1..]);
        assert tail[1..] == Join(words[1..], " ");
      }
    }
  }

  // ------------------------------------------------------------ stripping

  /** Python's `s.lstrip(chars)`. */
  function LStrip(s: string, cs: set<char>): (r: string)
    ensures r == [] || r[0] !in cs
    decreases |s|
  {
    if s != [] && s[0] in cs then LStrip(s[1..], cs) else s
  }

  /** `s.lstrip(chars)` is a suffix of `s`, and what it drops is made of characters of `cs`. */
  lemma {:induction false} LStripSpec(s: string, cs: set<char>)
    ensures var r := LStrip(s, cs);
      && |r| <= |s| && r == s[|s| - |r|..]
      && (forall i :: 0 <= i < |s| - |r| ==> s[i] in cs)
    decreases |s|
  {
    if s != [] && s[0] in cs {
      var t := s[1..];
      LStripSpec(t, cs);
      var r := LStrip(t, cs);
      assert LStrip(s, cs) == r;
      assert s[|s| - |r|..] == t[|t| - |r|..];
      assert forall i :: 1 <= i < |s| - |r| ==> s[i] == t[i - 1];
    }
  }

  /** Python's `s.rstrip(chars)`. */
  function RStrip(s: string, cs: set<char>): (r: string)
    ensures r == [] || r[|r| - 1] !in cs
    decreases |s|
  {
    if s != [] && s[|s| - 1] in cs then RStrip(s[..|s| - 1], cs) else s
  }

  /** `s.rstrip(chars)` is a prefix of `s`, and what it drops is made of characters of `cs`. */
  lemma {:induction false} RStripSpec(s: string, cs: set<char>)
    ensures var r := RStrip(s, cs);
      && |r| <= |s| && r == s[..|r|]
      && (forall i :: |r| <= i < |s| ==> s[i] in cs)
    decreases |s|
  {
    if s != [] && s[|s| - 1] in cs {
      var t := s[..|s| - 1];
      RStripSpec(t, cs);
      var r := RStrip(t, cs);
      assert RStrip(s, cs) == r;
      assert s[..|r|] == t[..|r|];
      assert forall i :: |r| <= i < |t| ==> s[i] == t[i];
    }
  }

  /**
   * Python's `s.strip(chars)`: `s` without its longest prefix and longest
   * suffix made of characters of `cs`.
   */
  function Strip(s: string, cs: set<char>): (r: string)
    ensures r == [] || (r[0] !in cs && r[|r| - 1] !in cs)
  {
    var l := LStrip(s, cs);
    RStripSpec(l, cs);
    RStrip(l, cs)
  }

  /** What `strip` removes: a prefix and a suffix made only of characters of `cs`; the rest is kept as it is. */
  lemma StripSlice(s: string, cs: set<char>)
    ensures var r := Strip(s, cs); var i := |s| - |LStrip(s, cs)|;
      && 0 <= i && i + |r| <= |s|
      && r == s[i..i + |r|]
      && (forall k :: 0 <= k < i ==> s[k] in cs)
      && (forall k :: i + |r| <= k < |s| ==> s[k] in cs)
  {
    var l := LStrip(s, cs);
    LStripSpec(s, cs);
    RStripSpec(l, cs);
    var r := RStrip(l, cs);
    var i := |s| - |l|;
    assert l == s[i..];
    assert forall k :: i + |r| <= k < |s| ==> s[k] == l[k - i];
  }

  /** Stripping twice strips nothing more. */
  lemma StripIdempotent(s: string, cs: set<char>)
    ensures Strip(Strip(s, cs), cs) == Strip(s, cs)
  {
    var r := Strip(s, cs);
    assert LStrip(r, cs) == r;
    assert RStrip(r, cs) == r;
  }

  /** Python's `s.strip()` with no argument. */
  function StripSpace(s: string): string
  {
    Strip(s, Whitespace)
  }

  // -------------------------------------------------------------- slicing

  /** Python's `s[:m]` for any integer `m`; a negative `m` counts back from the end. */
  function SliceTo<T>(s: seq<T>, m: int): (r: seq<T>)
    ensures r <= s
    ensures 0 <= m ==> |r| == Min(m, |s|)
    ensures m < 0 ==> |r| == Max(0, |s| + m)
  {
    if m >= 0 then (if m <= |s| then s[..m] else s)
    else if |s| + m >= 0 then s[..|s| + m]
    else []
  }

  // ---------------------------------------------------- numbers as text

  function DigitChar(d: nat): (c: char)
    requires d < 10
    ensures '0' <= c <= '9'
    ensures (c == '0') == (d == 0)
  {
    "0123456789"[d]
  }

  function DigitValue(c: char): nat
  {
    if '0' <= c <= '9' then c as int - '0' as int else 0
  }

  predicate AllDigits(s: string) { forall k :: 0 <= k < |s| ==> '0' <= s[k] <= '9' }

  /** How an `int` that is not negative is rendered by `f"{n}"`: decimal digits, no leading zero. */
  function NatToString(n: nat): (s: string)
    ensures |s| >= 1 && AllDigits(s)
    ensures s[0] == '0' ==> n == 0
    decreases n
  {
    if n < 10 then [DigitChar(n)] else NatToString(n / 10) + [DigitChar(n % 10)]
  }

  /** Reads a string of decimal digits back as a number. */
  function ParseNat(s: string): nat
  {
    if s == [] then 0 else ParseNat(s[..|s| - 1]) * 10 + DigitValue(s[|s| - 1])
  }

  /** The decimal rendering loses nothing: reading it back gives the number. */
  lemma {:induction false} ParseNatOfNatToString(n: nat)
    ensures ParseNat(NatToString(n)) == n
    decreases n
  {
    assert DigitValue(DigitChar(n % 10)) == n % 10 by {
      assert "0123456789"[n % 10] as int - '0' as int == n % 10;
    }
    if n >= 10 {
      var s := NatToString(n);
      ParseNatOfNatToString(n / 10);
      assert s[..|s| - 1] == NatToString(n / 10);
    }
  }
}
