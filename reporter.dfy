/**
  The display of pipe.py, `display_top_ten`: it takes at most the first ten
  ranked pairs, prints each as the domain, four spaces and the count in
  decimal, and then prints `"\n"`. The model returns the printed arguments,
  in order, instead of writing them to standard output.
 */
module Reporter {
  import opened Wrappers
  import Parser

  /** At most this many pairs are shown. */
  const TopN: nat := 10

  /** What `"{0}    {1}".format` puts between the domain and its count. */
  const Separator: string := "    "

  /** The argument of the final `print("\n")`. */
  const Trailer: string := "\n"

  /** How many pairs of a ranking of length `n` are shown. */
  function Shown(n: nat): (r: nat)
    ensures r <= TopN && r <= n && (r == TopN || r == n)
  {
    if n < TopN then n else TopN
  }

  /** A decimal digit character. */
  predicate IsDigit(c: char)
  {
    '0' <= c <= '9'
  }

  /** The character of the decimal digit `d`. */
  function DigitChar(d: nat): (c: char)
    requires d < 10
    ensures IsDigit(c) && c as int - '0' as int == d
  {
    ('0' as int + d) as char
  }

  /** `str(n)`: the decimal digits of `n`, without leading zeros. */
  function NatToString(n: nat): (r: string)
    ensures |r| >= 1 && (forall i :: 0 <= i < |r| ==> IsDigit(r[i]))
    ensures r[0] == '0' ==> n == 0
    decreases n
  {
    if n < 10 then [DigitChar(n)] else NatToString(n / 10) + [DigitChar(n % 10)]
  }

  /** The value of a string of decimal digits. */
  function ParseDigits(s: string): nat
    requires forall i :: 0 <= i < |s| ==> IsDigit(s[i])
    decreases |s|
  {
    if s == [] then 0
    else
      assert IsDigit(s[|s| - 1]);
      ParseDigits(s[..|s| - 1]) * 10 + (s[|s| - 1] as int - '0' as int)
  }

  /** Reading the decimal digits back gives the number. */
  lemma {:induction false} ParseNatToString(n: nat)
    ensures ParseDigits(NatToString(n)) == n
    decreases n
  {
    var r := NatToString(n);
    if n >= 10 {
      ParseNatToString(n / 10);
      assert r[..|r| - 1] == NatToString(n / 10);
    } else {
      assert r[..0] == [];
    }
  }

  /** One table line: the domain, four spaces and its count. */
  function FormatEntry(entry: (string, nat)): (line: string)
    ensures |line| > |entry.0| + |Separator| && line[..|entry.0|] == entry.0
  {
    entry.0 + Separator + NatToString(entry.1)
  }

  /**
    Reads a table line back: the text before the first four spaces and the
    number that the digits after them spell; `None` for any other text.
   */
  function ParseEntry(line: string): (r: Option<(string, nat)>)
  {
    match Parser.Find(line, Separator)
    case None => None
    case Some(i) =>
      var digits := line[i + |Separator|..];
      if digits != [] && forall j :: 0 <= j < |digits| ==> IsDigit(digits[j])
      then Some((line[..i], ParseDigits(digits)))
      else None
  }

  /** An occurrence of the column separator starts with a space. */
  lemma SeparatorStartsWithSpace(line: string, j: nat)
    ensures Parser.OccursAt(line, Separator, j) ==> j < |line| && line[j] == ' '
  {
    if Parser.OccursAt(line, Separator, j) {
      assert line[j..j + |Separator|][0] == line[j];
    }
  }

  /** A line of a domain without spaces reads back as the domain and its count. */
  lemma ParseFormatEntry(entry: (string, nat))
    requires ' ' !in entry.0
    ensures ParseEntry(FormatEntry(entry)) == Some(entry)
  {
    var line := FormatEntry(entry);
    var k := |entry.0|;
    assert line[k..k + |Separator|] == Separator;
    forall j: nat | j < k ensures !Parser.OccursAt(line, Separator, j) {
      assert line[j] == entry.0[j] && entry.0[j] in entry.0;
      SeparatorStartsWithSpace(line, j);
    }
    Parser.FindFirstOccurrence(line, Separator, k);
    assert line[k + |Separator|..] == NatToString(entry.1);
    assert line[..k] == entry.0;
    ParseNatToString(entry.1);
  }

  /**
    `lines` is what `display_top_ten` prints for `ranked`: one formatted line
    for each of the first pairs, at most ten, then the trailer.
   */
  predicate IsReport(ranked: seq<(string, nat)>, lines: seq<string>)
  {
    && |lines| == Shown(|ranked|) + 1
    && (forall i :: 0 <= i < Shown(|ranked|) ==> lines[i] == FormatEntry(ranked[i]))
    && lines[|lines| - 1] == Trailer
  }

  /** `display_top_ten`: the arguments of its `print` calls, in order. */
  method DisplayTopTen(ranked: seq<(string, nat)>) returns (lines: seq<string>)
    ensures IsReport(ranked, lines)
  {
    var pairs: seq<(string, nat)> := [];
    var n := 0;
    while n < TopN && n < |ranked|
      invariant n <= Shown(|ranked|)
      invariant pairs == ranked[..n]
    {
      pairs := pairs + [ranked[n]];
      n := n + 1;
    }
    lines := [];
    for i := 0 to |pairs|
      invariant |lines| == i
      invariant forall j :: 0 <= j < i ==> lines[j] == FormatEntry(pairs[j])
    {
      lines := lines + [FormatEntry(pairs[i])];
    }
    lines := lines + [Trailer];
  }

  /** A ranking determines its report. */
  lemma ReportUnique(ranked: seq<(string, nat)>, a: seq<string>, b: seq<string>)
    requires IsReport(ranked, a) && IsReport(ranked, b)
    ensures a == b
  {
    assert forall i :: 0 <= i < |a| ==> a[i] == b[i];
  }

  /**
    When no domain holds a space, each table line reads back as the pair it
    shows, so the table lists the first pairs of the ranking, in order.
   */
  lemma ReportReadsBack(ranked: seq<(string, nat)>, lines: seq<string>)
    requires IsReport(ranked, lines)
    requires forall i :: 0 <= i < |ranked| ==> ' ' !in ranked[i].0
    ensures forall i :: 0 <= i < Shown(|ranked|) ==> ParseEntry(lines[i]) == Some(ranked[i])
  {
    forall i | 0 <= i < Shown(|ranked|) ensures ParseEntry(lines[i]) == Some(ranked[i]) {
      ParseFormatEntry(ranked[i]);
    }
  }
}
