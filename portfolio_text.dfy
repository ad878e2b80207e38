/**
 * Small pure computations of the portfolio page
 * (components/portfolio-client.jsx): the theme toggle, the two-digit
 * project index label and the " at " split of the current-work line.
 */
module PortfolioText {
  import opened Wrappers

  // ---------------------------------------------------------------- theme

  /**
   * `toggleTheme`: the theme to set given the resolved theme (`None` while
   * it is still unresolved). "dark" becomes "light"; anything else "dark".
   */
  function ToggleTheme(resolvedTheme: Option<string>): (next: string)
    ensures next == "light" || next == "dark"
    ensures next == "light" <==> resolvedTheme == Some("dark")
    ensures resolvedTheme.Some? ==> next != resolvedTheme.value
  {
    if resolvedTheme == Some("dark") then "light" else "dark"
  }

  /** On the two resolved themes, toggling twice is the identity. */
  lemma ToggleThemeInvolution(theme: string)
    requires theme == "light" || theme == "dark"
    ensures ToggleTheme(Some(ToggleTheme(Some(theme)))) == theme
  {
  }

  // ------------------------------------------------- project index label

  predicate IsDigit(c: char) { '0' <= c <= '9' }

  predicate AllDigits(s: string) { forall i :: 0 <= i < |s| ==> IsDigit(s[i]) }

  function DigitChar(d: nat): (c: char)
    requires d < 10
    ensures IsDigit(c) && c as int - '0' as int == d
  {
    ('0' as int + d) as char
  }

  /** `String(n)` for a natural number: its decimal digits, no leading zero. */
  function Decimal(n: nat): (s: string)
    ensures |s| >= 1 && AllDigits(s)
    ensures n < 10 <==> |s| == 1
    ensures n >= 1 ==> s[0] != '0'
    decreases n
  {
    if n < 10 then [DigitChar(n)] else Decimal(n / 10) + [DigitChar(n % 10)]
  }

  /** The number a string of decimal digits denotes (leading zeros allowed). */
  function DecimalValue(s: string): nat
    requires AllDigits(s)
    decreases |s|
  {
    if s == [] then 0 else DecimalValue(s[..|s| - 1]) * 10 + (s[|s| - 1] as int - '0' as int)
  }

  /** Reading back the digits of `String(n)` gives `n`. */
  lemma {:induction false} DecimalRoundTrip(n: nat)
    ensures DecimalValue(Decimal(n)) == n
    decreases n
  {
    if n >= 10 {
      var s := Decimal(n);
      assert s[..|s| - 1] == Decimal(n / 10);
      DecimalRoundTrip(n / 10);
    }
  }

  /**
   * `s.padStart(width, [fill])`: `s` unchanged when already `width` long,
   * otherwise preceded by as many `fill` characters as make it `width` long.
   */
  function PadStart(s: string, width: nat, fill: char): (r: string)
    ensures |r| == if |s| >= width then |s| else width
    ensures r[|r| - |s|..] == s
    ensures forall i :: 0 <= i < |r| - |s| ==> r[i] == fill
    decreases width - |s|
  {
    if |s| >= width then s else PadStart([fill] + s, width, fill)
  }

  /** `String(index + 1).padStart(2, "0")`, the label in front of a project. */
  function ProjectLabel(index: nat): (caption: string)
    ensures |caption| >= 2 && AllDigits(caption)
    ensures index + 1 >= 10 ==> caption == Decimal(index + 1)
    ensures index + 1 < 10 ==> caption == ['0', DigitChar(index + 1)]
  {
    PadStart(Decimal(index + 1), 2, '0')
  }

  /** The label denotes the one-based position of the project. */
  lemma ProjectLabelValue(index: nat)
    ensures DecimalValue(ProjectLabel(index)) == index + 1
  {
    var caption := ProjectLabel(index);
    if index + 1 >= 10 {
      DecimalRoundTrip(index + 1);
    } else {
      assert caption[..1] == ['0'];
      assert DecimalValue(caption[..1]) == 0;
    }
  }

  /** Distinct projects get distinct labels. */
  lemma ProjectLabelInjective(i: nat, j: nat)
    requires i != j
    ensures ProjectLabel(i) != ProjectLabel(j)
  {
    ProjectLabelValue(i);
    ProjectLabelValue(j);
  }

  // --------------------------------------------------- current-work split

  /** The separator of the current-work line. */
  const At: string := " at "

  predicate OccursAt(s: string, sep: string, p: nat)
  {
    p + |sep| <= |s| && s[p..p + |sep|] == sep
  }

  /** The first occurrence of `sep` in `s` at or after `from`. */
  function FindFrom(s: string, sep: string, from: nat): (r: Option<nat>)
    requires |sep| > 0
    ensures r.Some? ==> from <= r.value && OccursAt(s, sep, r.value)
    ensures r.Some? ==> forall q: nat :: from <= q < r.value ==> !OccursAt(s, sep, q)
    ensures r.None? ==> forall q: nat :: from <= q ==> !OccursAt(s, sep, q)
    decreases |s| - from
  {
    if from + |sep| > |s| then None
    else if OccursAt(s, sep, from) then Some(from)
    else FindFrom(s, sep, from + 1)
  }

  /** An occurrence inside a slice is an occurrence in the whole string, shifted by where the slice starts. */
  lemma OccursInSlice(s: string, sep: string, lo: nat, hi: nat, q: nat)
    requires lo <= hi <= |s|
    requires OccursAt(s[lo..hi], sep, q)
    ensures OccursAt(s, sep, lo + q)
  {
    assert q + |sep| <= hi - lo;
    forall j | 0 <= j < |sep| ensures s[lo + q + j] == sep[j] {
      assert s[lo..hi][q..q + |sep|][j] == sep[j];
    }
    assert s[lo + q..lo + q + |sep|] == sep;
  }

  /** A window of `s` free of occurrences leaves a slice free of them over the same window. */
  lemma NoneInSlice(s: string, sep: string, lo: nat, hi: nat, bound: nat)
    requires lo <= hi <= |s|
    requires forall q: nat :: lo <= q < bound ==> !OccursAt(s, sep, q)
    ensures forall q: nat :: lo + q < bound ==> !OccursAt(s[lo..hi], sep, q)
  {
    forall q: nat | lo + q < bound ensures !OccursAt(s[lo..hi], sep, q) {
      assert !OccursAt(s, sep, lo + q);
      if OccursAt(s[lo..hi], sep, q) {
        OccursInSlice(s, sep, lo, hi, q);
      }
    }
  }

  /**
   * The piece cut at the first occurrence `p` at or after `from` holds no
   * occurrence, and followed by the separator holds none starting inside it.
   */
  lemma PieceBeforeFirst(s: string, sep: string, from: nat, p: nat)
    requires |sep| > 0 && from <= |s|
    requires FindFrom(s, sep, from) == Some(p)
    ensures forall q: nat :: !OccursAt(s[from..p], sep, q)
    ensures forall q: nat :: q < p - from ==> !OccursAt(s[from..p] + sep, sep, q)
  {
    assert s[from..p + |sep|] == s[from..p] + sep by {
      assert s[p..p + |sep|] == sep;
      assert s[from..p + |sep|] == s[from..p] + s[p..p + |sep|];
    }
    NoneInSlice(s, sep, from, p + |sep|, p);
    NoneInSlice(s, sep, from, p, p);
  }

  /**
   * The pieces of `s.split(sep)` from position `from` on: scanning left to
   * right, each piece ends at the first occurrence at or after its start,
   * and the next piece starts just after that occurrence. No piece holds the
   * separator, and no piece but the last, followed by the separator, holds
   * an occurrence starting inside the piece: occurrences are taken leftmost
   * first and do not overlap.
   */
  function SplitFrom(s: string, sep: string, from: nat): (parts: seq<string>)
    requires |sep| > 0 && from <= |s|
    ensures |parts| >= 1
    ensures forall i: nat, q: nat :: i < |parts| ==> !OccursAt(parts[i], sep, q)
    ensures forall i: nat, q: nat :: i < |parts| - 1 && q < |parts[i]| ==> !OccursAt(parts[i] + sep, sep, q)
    decreases |s| - from
  {
    match FindFrom(s, sep, from)
    case None =>
      assert forall q: nat :: !OccursAt(s[from..], sep, q) by {
        forall q: nat | OccursAt(s[from..], sep, q) ensures false {
          assert s[from..] == s[from..|s|];
          OccursInSlice(s, sep, from, |s|, q);
        }
      }
      [s[from..]]
    case Some(p) =>
      var head := s[from..p];
      PieceBeforeFirst(s, sep, from, p);
      [head] + SplitFrom(s, sep, p + |sep|)
  }

  /** `s.split(sep)` for a non-empty separator. */
  function Split(s: string, sep: string): (parts: seq<string>)
    requires |sep| > 0
    ensures |parts| >= 1
    ensures forall i: nat, q: nat :: i < |parts| ==> !OccursAt(parts[i], sep, q)
    ensures forall i: nat, q: nat :: i < |parts| - 1 && q < |parts[i]| ==> !OccursAt(parts[i] + sep, sep, q)
  {
    SplitFrom(s, sep, 0)
  }

  /** `parts.join(sep)`. */
  function Join(parts: seq<string>, sep: string): string
    decreases |parts|
  {
    if parts == [] then ""
    else if |parts| == 1 then parts[0]
    else parts[0] + sep + Join(parts[1..], sep)
  }

  /** Joining the pieces from `from` on with the separator restores the rest of the string. */
  lemma {:induction false} SplitFromJoin(s: string, sep: string, from: nat)
    requires |sep| > 0 && from <= |s|
    ensures Join(SplitFrom(s, sep, from), sep) == s[from..]
    decreases |s| - from
  {
    match FindFrom(s, sep, from)
    case None =>
    case Some(p) =>
      var parts := SplitFrom(s, sep, from);
      var rest := SplitFrom(s, sep, p + |sep|);
      assert parts == [s[from..p]] + rest;
      assert parts[1..] == rest;
      SplitFromJoin(s, sep, p + |sep|);
      assert s[from..] == s[from..p] + sep + s[p + |sep|..];
  }

  /** Splitting loses nothing: joining the pieces with the separator restores the string. */
  lemma SplitJoin(s: string, sep: string)
    requires |sep| > 0
    ensures Join(Split(s, sep), sep) == s
  {
    SplitFromJoin(s, sep, 0);
  }

  /** The paragraph `{split[0]} at <link>{split[1]}</link>`: role and, when present, employer. */
  datatype WorkLine = WorkLine(role: string, employer: Option<string>)

  /**
   * The two pieces the paragraph uses: the role is the text before the first
   * " at " (all of it when there is none); the employer is the text after
   * that occurrence up to the next " at ", or to the end.
   */
  function SplitCurrentWork(currentWork: string): (line: WorkLine)
    ensures line.employer.None? <==> forall q: nat :: !OccursAt(currentWork, At, q)
    ensures match FindFrom(currentWork, At, 0)
            case None => line == WorkLine(currentWork, None)
            case Some(p) =>
              && line.role == currentWork[..p]
              && line.employer == Some(match FindFrom(currentWork, At, p + |At|)
                                       case None => currentWork[p + |At|..]
                                       case Some(e) => currentWork[p + |At|..e])
  {
    var parts := Split(currentWork, At);
    match FindFrom(currentWork, At, 0)
    case None => WorkLine(parts[0], None)
    case Some(p) =>
      assert parts == [currentWork[..p]] + SplitFrom(currentWork, At, p + |At|);
      WorkLine(parts[0], Some(parts[1]))
  }

  /** The text the paragraph shows: role, the literal " at ", then the employer or nothing. */
  function RenderWorkLine(line: WorkLine): (shown: string)
    ensures |shown| >= |line.role| + |At|
    ensures shown[..|line.role|] == line.role
    ensures shown[|line.role|..|line.role| + |At|] == At
    ensures shown[|line.role| + |At|..] == if line.employer.Some? then line.employer.value else ""
  {
    line.role + At + (if line.employer.Some? then line.employer.value else "")
  }

  /**
   * A current-work value with exactly one " at " (two pieces) is shown
   * verbatim; one without any is shown with " at " appended.
   */
  lemma RenderWorkLineFaithful(currentWork: string)
    ensures |Split(currentWork, At)| == 2 ==> RenderWorkLine(SplitCurrentWork(currentWork)) == currentWork
    ensures (forall q: nat :: !OccursAt(currentWork, At, q)) ==>
            RenderWorkLine(SplitCurrentWork(currentWork)) == currentWork + At
  {
    var parts := Split(currentWork, At);
    if |parts| == 2 {
      SplitJoin(currentWork, At);
      assert Join(parts, At) == parts[0] + At + Join(parts[1..], At);
    }
  }

  /**
   * With a second " at " (three or more pieces) the paragraph shows the
   * value only up to that second occurrence; the rest is dropped.
   */
  lemma RenderWorkLineTruncates(currentWork: string, p: nat, e: nat)
    requires FindFrom(currentWork, At, 0) == Some(p)
    requires FindFrom(currentWork, At, p + |At|) == Some(e)
    ensures |Split(currentWork, At)| >= 3
    ensures RenderWorkLine(SplitCurrentWork(currentWork)) == currentWork[..e]
  {
    assert Split(currentWork, At) == [currentWork[..p]] + SplitFrom(currentWork, At, p + |At|);
    assert currentWork[..e] == currentWork[..p] + At + currentWork[p + |At|..e];
  }
}
