/** The few Python string operations the core relies on: `strip`, `split`,
    `join`, `int(...)` of a digit run, `f"{n:02d}"` and `lower()`, over ASCII. */
module Text {
  import opened Outcomes

  /** `str.isspace` restricted to the ASCII range: space, \t \n \v \f \r and
      the separators \x1c-\x1f. */
  predicate IsSpace(c: char) {
    c == ' ' || ('\t' <= c <= '\r') || ('\U{001C}' <= c <= '\U{001F}')
  }

  /** Number of leading whitespace characters. */
  function LeadCount(s: string): (n: nat)
    ensures n <= |s|
    ensures forall k :: 0 <= k < n ==> IsSpace(s[k])
    ensures n < |s| ==> !IsSpace(s[n])
  {
    if s == [] || !IsSpace(s[0]) then 0 else 1 + LeadCount(s[1..])
  }

  /** Number of trailing whitespace characters. */
  function TrailCount(s: string): (n: nat)
    ensures n <= |s|
    ensures forall k :: |s| - n <= k < |s| ==> IsSpace(s[k])
    ensures n < |s| ==> !IsSpace(s[|s| - 1 - n])
  {
    if s == [] || !IsSpace(s[|s| - 1]) then 0 else 1 + TrailCount(s[..|s| - 1])
  }

  /** `s.strip()`: the infix of `s` left after removing whitespace at both ends. */
  function Strip(s: string): string
  {
    var t := s[LeadCount(s)..];
    t[..|t| - TrailCount(t)]
  }

  /** The stripped text is an infix of `s`, everything around it is
      whitespace, and it neither starts nor ends with whitespace. */
  lemma StripTrims(s: string)
    ensures var r := Strip(s);
      && LeadCount(s) + |r| <= |s| && r == s[LeadCount(s)..LeadCount(s) + |r|]
      && (forall k :: 0 <= k < |s| && !(LeadCount(s) <= k < LeadCount(s) + |r|) ==> IsSpace(s[k]))
      && (r != [] ==> !IsSpace(r[0]) && !IsSpace(r[|r| - 1]))
  {
    StripInfix(s);
    StripTrailingSpace(s);
    StripEnds(s);
  }

  lemma StripInfix(s: string)
    ensures LeadCount(s) + |Strip(s)| <= |s|
    ensures forall k :: 0 <= k < |Strip(s)| ==> Strip(s)[k] == s[LeadCount(s) + k]
  {
    var t := s[LeadCount(s)..];
    assert Strip(s) == t[..|t| - TrailCount(t)];
  }

  lemma StripTrailingSpace(s: string)
    ensures forall k :: LeadCount(s) + |Strip(s)| <= k < |s| ==> IsSpace(s[k])
  {
    var lead := LeadCount(s);
    var t := s[lead..];
    assert |Strip(s)| == |t| - TrailCount(t);
    forall k | lead + |Strip(s)| <= k < |s| ensures IsSpace(s[k]) {
      assert t[k - lead] == s[k];
    }
  }

  lemma StripEnds(s: string)
    ensures Strip(s) != [] ==> !IsSpace(Strip(s)[0]) && !IsSpace(Strip(s)[|Strip(s)| - 1])
  {
    var lead := LeadCount(s);
    var t := s[lead..];
    var trail := TrailCount(t);
    var r := Strip(s);
    assert r == t[..|t| - trail];
    if r != [] {
      assert r[0] == t[0] == s[lead];
      assert r[|r| - 1] == t[|t| - 1 - trail];
    }
  }

  /** `sep` occurs in `s` starting at index `i`. */
  predicate OccursAt(s: string, sep: string, i: int) {
    0 <= i && i + |sep| <= |s| && s[i..i + |sep|] == sep
  }

  /** `s.find(sep)`, with `None` for -1. */
  function FindFirst(s: string, sep: string): (r: Option<nat>)
    ensures r.Some? ==> OccursAt(s, sep, r.value)
    ensures r.Some? ==> forall j :: 0 <= j < r.value ==> !OccursAt(s, sep, j)
    ensures r.None? ==> forall j :: !OccursAt(s, sep, j)
    decreases |s|
  {
    if |s| < |sep| then None
    else if s[..|sep|] == sep then Some(0)
    else
      var rest := FindFirst(s[1..], sep);
      forall j | 1 <= j ensures OccursAt(s, sep, j) <==> OccursAt(s[1..], sep, j - 1) {
        if j + |sep| <= |s| {
          assert s[1..][j - 1..j - 1 + |sep|] == s[j..j + |sep|];
        }
      }
      match rest
      case None => None
      case Some(j) => Some(j + 1)
  }

  /** `s.split(sep)` for a non-empty separator: pieces between the
      leftmost non-overlapping occurrences of `sep`. */
  function Split(s: string, sep: string): (parts: seq<string>)
    requires |sep| > 0
    ensures |parts| >= 1
    decreases |s|
  {
    match FindFirst(s, sep)
    case None => [s]
    case Some(i) => [s[..i]] + Split(s[i + |sep|..], sep)
  }

  /** `FindFirst` returns an occurrence that has no earlier one. */
  lemma FindFirstIs(s: string, sep: string, i: nat)
    requires OccursAt(s, sep, i)
    requires forall j :: 0 <= j < i ==> !OccursAt(s, sep, j)
    ensures FindFirst(s, sep) == Some(i)
  {
  }

  /** Every cut of `Split` is at the leftmost occurrence: each piece but the
      last, followed by the separator, holds its first occurrence of the
      separator right after the piece. With `SplitJoin` and `SplitPiecesFree`
      this determines the pieces, also for a separator such as `\n\n` that
      can overlap itself. */
  lemma {:induction false} SplitCutsLeftmost(s: string, sep: string, k: nat)
    requires |sep| > 0 && k + 1 < |Split(s, sep)|
    ensures FindFirst(Split(s, sep)[k] + sep, sep) == Some(|Split(s, sep)[k]|)
    decreases |s|
  {
    SplitHasCut(s, sep);
    var i := FindFirst(s, sep).value;
    var rest := s[i + |sep|..];
    var tail := Split(rest, sep);
    SplitAtFirst(s, sep, i);
    if k == 0 {
      assert Split(s, sep)[0] == s[..i];
      FirstCutLeftmost(s, sep, i);
    } else {
      assert Split(s, sep)[k] == tail[k - 1];
      SplitCutsLeftmost(rest, sep, k - 1);
    }
  }

  /** Text that splits into several pieces holds the separator. */
  lemma SplitHasCut(s: string, sep: string)
    requires |sep| > 0 && |Split(s, sep)| > 1
    ensures FindFirst(s, sep).Some?
  {
  }

  /** The first piece is the text before the first occurrence; the others
      are the pieces of the rest. */
  lemma SplitAtFirst(s: string, sep: string, i: nat)
    requires |sep| > 0 && FindFirst(s, sep) == Some(i)
    ensures Split(s, sep) == [s[..i]] + Split(s[i + |sep|..], sep)
  {
  }



  /** The text before the first occurrence, followed by the separator, has
      its first occurrence at the same place. */
  lemma {:induction false} FirstCutLeftmost(s: string, sep: string, i: nat)
    requires |sep| > 0 && FindFirst(s, sep) == Some(i)
    ensures FindFirst(s[..i] + sep, sep) == Some(i)
  {
    var p := s[..i] + sep;
    PrefixOccurrences(s, sep, i, p);
    FindFirstIs(p, sep, i);
  }

  /** Cutting the text right after an occurrence with no earlier one keeps
      that occurrence and creates no earlier one. */
  lemma {:induction false} PrefixOccurrences(s: string, sep: string, i: nat, p: string)
    requires OccursAt(s, sep, i)
    requires forall j :: 0 <= j < i ==> !OccursAt(s, sep, j)
    requires p == s[..i] + sep
    ensures OccursAt(p, sep, i)
    ensures forall j :: 0 <= j < i ==> !OccursAt(p, sep, j)
  {
    assert p == s[..i + |sep|];
    forall j | 0 <= j < i ensures !OccursAt(p, sep, j) {
      assert !OccursAt(s, sep, j);
      assert p[j..j + |sep|] == s[j..j + |sep|];
    }
  }

  /** `sep.join(parts)`. */
  function Join(sep: string, parts: seq<string>): string
  {
    if |parts| == 0 then ""
    else if |parts| == 1 then parts[0]
    else parts[0] + sep + Join(sep, parts[1..])
  }

  /** Splitting and re-joining on the same separator gives back the text. */
  lemma {:induction false} SplitJoin(s: string, sep: string)
    requires |sep| > 0
    ensures Join(sep, Split(s, sep)) == s
    decreases |s|
  {
    match FindFirst(s, sep)
    case None =>
    case Some(i) =>
      var rest := s[i + |sep|..];
      var tail := Split(rest, sep);
      SplitJoin(rest, sep);
      JoinCons(sep, s[..i], tail);
      assert s[i..i + |sep|] == sep;
      assert s == s[..i] + s[i..i + |sep|] + rest;
  }

  lemma JoinCons(sep: string, p: string, tail: seq<string>)
    requires |tail| >= 1
    ensures Join(sep, [p] + tail) == p + sep + Join(sep, tail)
  {
    assert ([p] + tail)[1..] == tail;
  }

  /** An occurrence inside a prefix is an occurrence in the whole string. */
  lemma OccursInPrefix(s: string, i: nat, sep: string, j: int)
    requires i <= |s| && OccursAt(s[..i], sep, j)
    ensures OccursAt(s, sep, j)
  {
    assert s[..i][j..j + |sep|] == s[j..j + |sep|];
  }

  /** No piece of a split contains the separator. */
  lemma {:induction false} SplitPiecesFree(s: string, sep: string, k: nat)
    requires |sep| > 0 && k < |Split(s, sep)|
    ensures FindFirst(Split(s, sep)[k], sep).None?
    decreases |s|
  {
    match FindFirst(s, sep)
    case None =>
    case Some(i) =>
      if k == 0 {
        var p := s[..i];
        forall j | OccursAt(p, sep, j) ensures false {
          OccursInPrefix(s, i, sep, j);
        }
      } else {
        SplitPiecesFree(s[i + |sep|..], sep, k - 1);
      }
  }

  predicate IsDigit(c: char) { '0' <= c <= '9' }

  predicate AllDigits(s: string) { forall k :: 0 <= k < |s| ==> IsDigit(s[k]) }

  function DigitValue(c: char): (d: nat)
    requires IsDigit(c)
    ensures d < 10
  {
    (c as int) - ('0' as int)
  }

  function DigitChar(d: nat): (c: char)
    requires d < 10
    ensures IsDigit(c) && DigitValue(c) == d
  {
    (('0' as int) + d) as char
  }

  /** `int(s)` for a string of decimal digits (leading zeros allowed). */
  function ParseDecimal(s: string): nat
    requires AllDigits(s)
  {
    if s == [] then 0 else ParseDecimal(s[..|s| - 1]) * 10 + DigitValue(s[|s| - 1])
  }

  /** `str(n)` for a natural number. */
  function NatToDecimal(n: nat): (r: string)
    ensures |r| >= 1 && AllDigits(r)
    ensures r[0] == '0' ==> n == 0 && |r| == 1
    ensures n < 10 <==> |r| == 1
  {
    if n < 10 then [DigitChar(n)] else NatToDecimal(n / 10) + [DigitChar(n % 10)]
  }

  /** Reading back the decimal form of `n` gives `n`. */
  lemma {:induction false} DecimalRoundTrip(n: nat)
    ensures ParseDecimal(NatToDecimal(n)) == n
  {
    if n >= 10 {
      var r := NatToDecimal(n);
      assert r[..|r| - 1] == NatToDecimal(n / 10);
      DecimalRoundTrip(n / 10);
    }
  }

  /** `f"{n:02d}"`: at least two digits, zero-padded on the left. */
  function ZeroPad2(n: nat): (r: string)
    ensures |r| >= 2 && AllDigits(r)
    ensures ParseDecimal(r) == n
  {
    var d := NatToDecimal(n);
    DecimalRoundTrip(n);
    if |d| < 2 then
      var r := "0" + d;
      assert r[..1] == "0";
      r
    else d
  }

  /** `c.lower()` on ASCII letters. */
  function LowerChar(c: char): (l: char)
    ensures ('A' <= c <= 'Z') ==> l as int == c as int + 32
    ensures !('A' <= c <= 'Z') ==> l == c
  {
    if 'A' <= c <= 'Z' then ((c as int) + 32) as char else c
  }

  /** `s.lower().endswith(".pdf")`. */
  predicate EndsWithPdf(s: string) {
    |s| >= 4 && forall k :: 0 <= k < 4 ==> LowerChar(s[|s| - 4 + k]) == ".pdf"[k]
  }

  /** `\w` restricted to ASCII: letters, digits and the underscore. */
  predicate IsWordChar(c: char) {
    ('a' <= c <= 'z') || ('A' <= c <= 'Z') || IsDigit(c) || c == '_'
  }

  /** `os.path.join(dir, name)` on POSIX: an absolute `name` replaces `dir`,
      otherwise a `/` separates them unless `dir` is empty or already ends in one. */
  function JoinPath(dir: string, name: string): (path: string)
    ensures |name| > 0 && name[0] == '/' ==> path == name
    ensures !(|name| > 0 && name[0] == '/') ==> |path| >= |name| && path[|path| - |name|..] == name
    ensures !(|name| > 0 && name[0] == '/') ==> |path| >= |dir| && path[..|dir|] == dir
  {
    if |name| > 0 && name[0] == '/' then name
    else if dir == [] || dir[|dir| - 1] == '/' then dir + name
    else dir + "/" + name
  }

  /** `find` of a separator placed right after a run of digits. */
  lemma FindAfterDigits(d: string, rest: string)
    requires AllDigits(d) && |rest| > 0 && rest[0] == '_'
    ensures FindFirst(d + rest, "_") == Some(|d|)
  {
    var s := d + rest;
    assert s[|d|..|d| + 1] == "_";
    assert OccursAt(s, "_", |d|);
    forall j | 0 <= j < |d| ensures !OccursAt(s, "_", j) {
      assert s[j..j + 1] == [d[j]];
    }
    var r := FindFirst(s, "_");
    assert r.Some?;
    assert r.value <= |d|;
  }
  /** The characters at which `str.splitlines` breaks a line. */
  predicate IsLineBoundary(c: char) {
    c == '\n' || c == '\r' || c == '\U{000B}' || c == '\U{000C}' || ('\U{001C}' <= c <= '\U{001E}')
    || c == '\U{0085}' || c == '\U{2028}' || c == '\U{2029}'
  }

  /** Index of the first line boundary of `s`. */
  function FirstBoundary(s: string): (r: Option<nat>)
    ensures r.Some? ==> r.value < |s| && IsLineBoundary(s[r.value])
    ensures r.Some? ==> forall k :: 0 <= k < r.value ==> !IsLineBoundary(s[k])
    ensures r.None? ==> forall k :: 0 <= k < |s| ==> !IsLineBoundary(s[k])
  {
    if s == [] then None
    else if IsLineBoundary(s[0]) then Some(0)
    else match FirstBoundary(s[1..])
      case None => None
      case Some(i) => Some(i + 1)
  }

  /** `s.splitlines()`: the lines between boundaries, `\r\n` counting as one
      boundary, with no final empty line after a trailing boundary. */
  function SplitLines(s: string): (lines: seq<string>)
    ensures forall k, j :: 0 <= k < |lines| && 0 <= j < |lines[k]| ==> !IsLineBoundary(lines[k][j])
    ensures s == [] <==> lines == []
    decreases |s|
  {
    match FirstBoundary(s)
    case None => if s == [] then [] else [s]
    case Some(i) =>
      var width := if s[i] == '\r' && i + 1 < |s| && s[i + 1] == '\n' then 2 else 1;
      [s[..i]] + SplitLines(s[i + width..])
  }

  /** The text with its line-boundary characters removed. */
  function WithoutBoundaries(s: string): string
    decreases |s|
  {
    if s == [] then [] else (if IsLineBoundary(s[0]) then [] else [s[0]]) + WithoutBoundaries(s[1..])
  }

  lemma {:induction false} WithoutBoundariesAppend(a: string, b: string)
    ensures WithoutBoundaries(a + b) == WithoutBoundaries(a) + WithoutBoundaries(b)
    decreases |a|
  {
    if a != [] {
      var head := if IsLineBoundary(a[0]) then [] else [a[0]];
      assert (a + b)[0] == a[0];
      assert (a + b)[1..] == a[1..] + b;
      WithoutBoundariesAppend(a[1..], b);
      assert WithoutBoundaries(a + b) == head + (WithoutBoundaries(a[1..]) + WithoutBoundaries(b));
      assert head + (WithoutBoundaries(a[1..]) + WithoutBoundaries(b)) == (head + WithoutBoundaries(a[1..])) + WithoutBoundaries(b);
    } else {
      assert a + b == b;
    }
  }

  lemma {:induction false} WithoutBoundariesKeeps(s: string)
    requires forall k :: 0 <= k < |s| ==> !IsLineBoundary(s[k])
    ensures WithoutBoundaries(s) == s
    decreases |s|
  {
    if s != [] {
      WithoutBoundariesKeeps(s[1..]);
    }
  }

  /** Removing boundaries across a cut of one or two boundary characters
      leaves the text on either side of it. */
  lemma {:induction false} BoundaryCutDropped(a: string, cut: string, b: string)
    requires 1 <= |cut| <= 2
    requires forall k :: 0 <= k < |cut| ==> IsLineBoundary(cut[k])
    ensures WithoutBoundaries(a + cut + b) == WithoutBoundaries(a) + WithoutBoundaries(b)
  {
    CutDropped(cut);
    assert a + cut + b == a + (cut + b);
    WithoutBoundariesAppend(a, cut + b);
    WithoutBoundariesAppend(cut, b);
  }

  lemma CutDropped(cut: string)
    requires 1 <= |cut| <= 2
    requires forall k :: 0 <= k < |cut| ==> IsLineBoundary(cut[k])
    ensures WithoutBoundaries(cut) == []
  {
    BoundaryDropped(cut[0]);
    if |cut| == 2 {
      assert cut == [cut[0]] + [cut[1]];
      BoundaryDropped(cut[1]);
      WithoutBoundariesAppend([cut[0]], [cut[1]]);
    } else {
      assert cut == [cut[0]];
    }
  }

  lemma BoundaryDropped(c: char)
    requires IsLineBoundary(c)
    ensures WithoutBoundaries([c]) == []
  {
    assert [c][1..] == [];
  }

  /** The lines of `splitlines()`, put back together, are the text without
      its line boundaries: no character is lost, moved or invented. */
  lemma {:induction false} SplitLinesContent(s: string)
    ensures Join("", SplitLines(s)) == WithoutBoundaries(s)
    decreases |s|
  {
    match FirstBoundary(s)
    case None =>
      WithoutBoundariesKeeps(s);
    case Some(i) =>
      var width := if s[i] == '\r' && i + 1 < |s| && s[i + 1] == '\n' then 2 else 1;
      var rest := s[i + width..];
      SplitLinesContent(rest);
      LineCutContent(s, i, width);
      JoinLineThen(s[..i], SplitLines(rest));
  }

  /** Removing boundaries from a text whose first boundary starts at `i`
      keeps the first line and drops the `width` boundary characters. */
  lemma {:induction false} LineCutContent(s: string, i: nat, width: nat)
    requires i < |s| && IsLineBoundary(s[i])
    requires forall k :: 0 <= k < i ==> !IsLineBoundary(s[k])
    requires width == 1 || (width == 2 && i + 1 < |s| && s[i + 1] == '\n')
    ensures WithoutBoundaries(s) == s[..i] + WithoutBoundaries(s[i + width..])
  {
    var line, cut, rest := s[..i], s[i..i + width], s[i + width..];
    assert s == line + cut + rest;
    if width == 1 {
      assert cut == [s[i]];
    } else {
      assert cut == [s[i], '\n'];
    }
    BoundaryCutDropped(line, cut, rest);
    WithoutBoundariesKeeps(line);
  }


  /** Joining with no separator puts the first line in front of the rest. */
  lemma {:induction false} JoinLineThen(line: string, lines: seq<string>)
    ensures Join("", [line] + lines) == line + Join("", lines)
  {
    if lines != [] {
      JoinCons("", line, lines);
      assert line + "" == line;
    } else {
      assert [line] + lines == [line];
      assert line + Join("", lines) == line;
    }
  }


  /** On non-empty text whose only line boundary is `\n` and which does not
      end with one, `splitlines()` gives the same lines as `split("\n")`. */
  lemma {:induction false} SplitLinesIsSplit(s: string)
    requires s != [] && s[|s| - 1] != '\n'
    requires forall k :: 0 <= k < |s| && IsLineBoundary(s[k]) ==> s[k] == '\n'
    ensures SplitLines(s) == Split(s, "\n")
    decreases |s|
  {
    match FirstBoundary(s)
    case None =>
    case Some(i) =>
      assert s[i..i + 1] == "\n";
      forall j | 0 <= j < i ensures !OccursAt(s, "\n", j) {
        assert s[j..j + 1][0] == s[j] != '\n';
      }
      FindFirstIs(s, "\n", i);
      SplitLinesIsSplit(s[i + 1..]);
  }

  /** `os.path.basename(path)`: what follows the last `/`. */
  function Basename(path: string): (b: string)
    ensures |b| <= |path| && b == path[|path| - |b|..]
    ensures '/' !in b
    ensures |b| < |path| ==> path[|path| - |b| - 1] == '/'
  {
    if path == [] || path[|path| - 1] == '/' then ""
    else Basename(path[..|path| - 1]) + [path[|path| - 1]]
  }
}
