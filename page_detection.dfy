/** Stage 1 of the chapter splitter: reading the printed ("visible") page
    number of every physical page from its text. A PDF is its sequence of
    page texts. */
module PageDetection {
  import opened Outcomes
  import opened Text

  function Min(a: int, b: int): int { if a <= b then a else b }

  /** `[line.strip() for line in parts if line.strip()]` */
  function NonEmptyStripped(parts: seq<string>): (lines: seq<string>)
    ensures forall k :: 0 <= k < |lines| ==> lines[k] != []
    ensures |lines| <= |parts|
  {
    if parts == [] then []
    else (if Strip(parts[0]) != [] then [Strip(parts[0])] else []) + NonEmptyStripped(parts[1..])
  }

  /** The stripped, non-empty lines of a page's text. */
  function PageLines(text: string): seq<string>
  {
    NonEmptyStripped(Split(text, "\n"))
  }

  /** `lines[:3] + lines[-3:]`: the first three and the last three lines
      (the same lines twice when the page has fewer than six). */
  function Candidates(lines: seq<string>): (c: seq<string>)
    ensures |c| == 2 * Min(3, |lines|)
  {
    lines[..Min(3, |lines|)] + lines[|lines| - Min(3, |lines|)..]
  }

  /** Index of the first decimal digit of `s`. */
  function FirstDigitIndex(s: string): (r: Option<nat>)
    ensures r.Some? ==> r.value < |s| && IsDigit(s[r.value])
    ensures r.Some? ==> forall k :: 0 <= k < r.value ==> !IsDigit(s[k])
    ensures r.None? ==> forall k :: 0 <= k < |s| ==> !IsDigit(s[k])
  {
    if s == [] then None
    else if IsDigit(s[0]) then Some(0)
    else match FirstDigitIndex(s[1..])
      case None => None
      case Some(i) => Some(i + 1)
  }

  /** End of the maximal run of digits that starts at `i`. */
  function RunEnd(s: string, i: nat): (e: nat)
    requires i <= |s|
    ensures i <= e <= |s|
    ensures forall k :: i <= k < e ==> IsDigit(s[k])
    ensures e < |s| ==> !IsDigit(s[e])
    decreases |s| - i
  {
    if i < |s| && IsDigit(s[i]) then RunEnd(s, i + 1) else i
  }

  /** `re.search(r"(\d+)", line)` followed by `int(match.group(1))`. */
  function SearchNumber(line: string): Option<nat>
  {
    match FirstDigitIndex(line)
    case None => None
    case Some(i) =>
      var e := RunEnd(line, i);
      assert AllDigits(line[i..e]);
      Some(ParseDecimal(line[i..e]))
  }

  /** The number found in the first candidate line that has one. */
  function FirstNumber(candidates: seq<string>): Option<nat>
  {
    if candidates == [] then None
    else if SearchNumber(candidates[0]).Some? then SearchNumber(candidates[0])
    else FirstNumber(candidates[1..])
  }

  /** The visible page number a page declares, if any: decided by the first
      of its candidate lines that contains a digit. */
  function Declared(text: string): Option<nat>
  {
    FirstNumber(Candidates(PageLines(text)))
  }

  /** The number each page declares, page by page. */
  function Declarations(pages: seq<string>): (d: seq<Option<nat>>)
    ensures |d| == |pages| && forall j :: 0 <= j < |pages| ==> d[j] == Declared(pages[j])
  {
    seq(|pages|, j requires 0 <= j < |pages| => Declared(pages[j]))
  }

  /** `p` is the first page whose declaration is `v`. */
  ghost predicate FirstDeclaring(decl: seq<Option<nat>>, v: int, p: int)
  {
    0 <= p < |decl| && decl[p] == Some(v) && forall j :: 0 <= j < p ==> decl[j] != Some(v)
  }

  /** `m` is the visible-to-physical map of the first `i` pages: its keys are
      exactly the numbers they declare, each mapped to the FIRST page
      declaring it. */
  ghost predicate VisiblePrefixMap(decl: seq<Option<nat>>, i: int, m: map<int, int>)
  {
    && (forall v :: v in m ==> v >= 0 && m[v] < i && FirstDeclaring(decl, v, m[v]))
    && (forall j :: 0 <= j < i && j < |decl| && decl[j].Some? ==> decl[j].value in m)
  }

  /** `m` is the visible-to-physical map of the whole document. */
  ghost predicate IsVisibleMapOf(pages: seq<string>, m: map<int, int>)
  {
    VisiblePrefixMap(Declarations(pages), |pages|, m)
  }

  /** Looking at page `i` extends the map of the first `i` pages to the first
      `i + 1`: a number seen for the first time is recorded, otherwise the
      map is unchanged. */
  lemma VisibleStep(decl: seq<Option<nat>>, i: int, m: map<int, int>)
    requires 0 <= i < |decl| && VisiblePrefixMap(decl, i, m)
    ensures VisiblePrefixMap(decl, i + 1, if decl[i].Some? && decl[i].value !in m then m[decl[i].value := i] else m)
  {
    var d := decl[i];
    if d.Some? && d.value !in m {
      var m' := m[d.value := i];
      forall v | v in m' ensures v >= 0 && m'[v] < i + 1 && FirstDeclaring(decl, v, m'[v]) {
      }
    }
  }

  /** The inner loop of `get_visible_page_numbers`: scan the candidate lines
      and stop at the first one holding a digit run. */
  method FindNumber(candidates: seq<string>) returns (found: Option<nat>)
    ensures found == FirstNumber(candidates)
  {
    found := None;
    var k := 0;
    while k < |candidates|
      invariant 0 <= k <= |candidates|
      invariant found.None? ==> FirstNumber(candidates[k..]) == FirstNumber(candidates)
      invariant found.Some? ==> found == FirstNumber(candidates)
    {
      var number := SearchNumber(candidates[k]);
      if number.Some? {
        found := number;
        break;
      }
      assert candidates[k..][1..] == candidates[k + 1..];
      k := k + 1;
    }
  }

  /** `get_visible_page_numbers`. */
  method GetVisiblePageNumbers(pages: seq<string>) returns (m: map<int, int>)
    ensures IsVisibleMapOf(pages, m)
  {
    m := map[];
    for i := 0 to |pages|
      invariant VisiblePrefixMap(Declarations(pages), i, m)
    {
      var found := FindNumber(Candidates(PageLines(pages[i])));
      VisibleStep(Declarations(pages), i, m);
      if found.Some? && found.value !in m {
        m := m[found.value := i];
      }
    }
  }

  /** No two visible numbers share a physical page. */
  lemma VisibleMapInjective(pages: seq<string>, m: map<int, int>, v: int, w: int)
    requires IsVisibleMapOf(pages, m)
    requires v in m && w in m && v != w
    ensures m[v] != m[w]
  {
  }

  /** The specification leaves no freedom: at most one map satisfies it. */
  lemma {:induction false} VisibleMapUnique(pages: seq<string>, m1: map<int, int>, m2: map<int, int>)
    requires IsVisibleMapOf(pages, m1) && IsVisibleMapOf(pages, m2)
    ensures m1 == m2
  {
    var decl := Declarations(pages);
    forall v | v in m1 ensures v in m2 && m2[v] == m1[v] {
      assert decl[m1[v]].value in m2;
    }
    forall v | v in m2 ensures v in m1 {
      assert decl[m2[v]].value in m1;
    }
  }

  /** Every value is a physical page index of the document. */
  lemma VisibleMapValues(pages: seq<string>, m: map<int, int>)
    requires IsVisibleMapOf(pages, m)
    ensures forall v :: v in m ==> 0 <= m[v] <= |pages| - 1
  {
  }

  /** The map is empty exactly when no page declares a number. */
  lemma VisibleMapEmpty(pages: seq<string>, m: map<int, int>)
    requires IsVisibleMapOf(pages, m)
    ensures m == map[] <==> forall j :: 0 <= j < |pages| ==> Declared(pages[j]).None?
  {
    var decl := Declarations(pages);
    if m != map[] {
      if forall v :: v !in m { assert false; }
      var v :| v in m;
      assert decl[m[v]].Some?;
    }
    if exists j :: 0 <= j < |pages| && Declared(pages[j]).Some? {
      var j :| 0 <= j < |pages| && Declared(pages[j]).Some?;
      assert decl[j].value in m;
    }
  }
}
