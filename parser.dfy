/**
  The line parser of pipe.py: `filter_top_domain_name` cuts the full domain
  out of a certstream line with `line.split(" - ")[1]` and keeps its last
  dot-separated label with `.split(".")[-1]`. Python's `str.split` is
  modelled here once, for any non-empty separator.
 */
module Parser {
  import opened Wrappers

  /** The literal delimiter between the log prefix and the domain. */
  const Delimiter: string := " - "

  /** The separator between the labels of a domain name. */
  const Dot: string := "."

  /** `sep` occurs in `s` starting at index `i`. */
  predicate OccursAt(s: string, sep: string, i: nat)
  {
    i + |sep| <= |s| && s[i..i + |sep|] == sep
  }

  /** Python's `sep in s`. */
  predicate Contains(s: string, sep: string)
  {
    exists i: nat | i <= |s| :: OccursAt(s, sep, i)
  }

  /** Index of the leftmost occurrence of `sep` in `s` at or after `from`. */
  function FindFrom(s: string, sep: string, from: nat): (r: Option<nat>)
    requires |sep| > 0
    ensures r.Some? ==> from <= r.value && OccursAt(s, sep, r.value)
    decreases |s| - from
  {
    if |s| < from + |sep| then None
    else if OccursAt(s, sep, from) then Some(from)
    else FindFrom(s, sep, from + 1)
  }

  /** Index of the leftmost occurrence of `sep` in `s` (Python's `s.find(sep)`). */
  function Find(s: string, sep: string): (r: Option<nat>)
    requires |sep| > 0
    ensures r.Some? ==> OccursAt(s, sep, r.value)
  {
    FindFrom(s, sep, 0)
  }

  /** `FindFrom` returns the leftmost occurrence, and none when there is no occurrence. */
  lemma {:induction false} FindFromLeftmost(s: string, sep: string, from: nat)
    requires |sep| > 0
    ensures FindFrom(s, sep, from).Some? ==>
      forall j: nat :: from <= j < FindFrom(s, sep, from).value ==> !OccursAt(s, sep, j)
    ensures FindFrom(s, sep, from).None? ==> forall j: nat :: from <= j ==> !OccursAt(s, sep, j)
    decreases |s| - from
  {
    if |s| < from + |sep| {
    } else if OccursAt(s, sep, from) {
    } else {
      FindFromLeftmost(s, sep, from + 1);
    }
  }

  /** `Find` returns the leftmost occurrence, and none when there is no occurrence. */
  lemma FindLeftmost(s: string, sep: string)
    requires |sep| > 0
    ensures Find(s, sep).Some? ==> forall j: nat :: j < Find(s, sep).value ==> !OccursAt(s, sep, j)
    ensures Find(s, sep).None? ==> forall j: nat :: !OccursAt(s, sep, j)
  {
    FindFromLeftmost(s, sep, 0);
  }

  /** The search fails exactly when the separator does not occur. */
  lemma FindNone(s: string, sep: string)
    requires |sep| > 0
    ensures Find(s, sep).None? <==> !Contains(s, sep)
  {
    FindLeftmost(s, sep);
  }

  /**
    Python's `s.split(sep)`: the pieces between the non-overlapping
    occurrences of `sep`, found from left to right.
   */
  function Split(s: string, sep: string): (r: seq<string>)
    requires |sep| > 0
    ensures |r| >= 1
    decreases |s|
  {
    match Find(s, sep)
    case None => [s]
    case Some(i) => [s[..i]] + Split(s[i + |sep|..], sep)
  }

  /** The split has a single piece, the string itself, exactly when the separator does not occur. */
  lemma SplitSingle(s: string, sep: string)
    requires |sep| > 0
    ensures |Split(s, sep)| == 1 <==> !Contains(s, sep)
    ensures !Contains(s, sep) ==> Split(s, sep) == [s]
  {
    FindNone(s, sep);
  }

  /** The last element of a non-empty sequence (Python's `xs[-1]`). */
  function Last(xs: seq<string>): (r: string)
    requires |xs| > 0
    ensures r in xs
  {
    xs[|xs| - 1]
  }

  /** Python's `sep.join(parts)`. */
  function Join(parts: seq<string>, sep: string): string
  {
    if |parts| == 0 then ""
    else if |parts| == 1 then parts[0]
    else parts[0] + sep + Join(parts[1..], sep)
  }

  /** A string is the text before an occurrence, the separator, and the text after it. */
  lemma SplitAround(s: string, sep: string, i: nat)
    requires OccursAt(s, sep, i)
    ensures s == s[..i] + sep + s[i + |sep|..]
  {
    assert s == s[..i] + s[i..i + |sep|] + s[i + |sep|..];
  }

  /** Joining the pieces of a split with the same separator restores the string. */
  lemma {:induction false} JoinSplit(s: string, sep: string)
    requires |sep| > 0
    ensures Join(Split(s, sep), sep) == s
    decreases |s|
  {
    match Find(s, sep)
    case None =>
    case Some(i) =>
      var rest := s[i + |sep|..];
      var tail := Split(rest, sep);
      JoinSplit(rest, sep);
      assert Split(s, sep) == [s[..i]] + tail;
      assert ([s[..i]] + tail)[1..] == tail;
      assert Join([s[..i]] + tail, sep) == s[..i] + sep + Join(tail, sep);
      SplitAround(s, sep, i);
  }

  /** No piece of a split contains the separator. */
  lemma {:induction false} SplitPiecesFree(s: string, sep: string)
    requires |sep| > 0
    ensures forall k :: 0 <= k < |Split(s, sep)| ==> !Contains(Split(s, sep)[k], sep)
    decreases |s|
  {
    FindLeftmost(s, sep);
    match Find(s, sep)
    case None =>
    case Some(i) =>
      var head := s[..i];
      forall j: nat | OccursAt(head, sep, j) ensures j < i && OccursAt(s, sep, j) {
      }
      SplitPiecesFree(s[i + |sep|..], sep);
      assert Split(s, sep) == [head] + Split(s[i + |sep|..], sep);
  }

  /** An occurrence in a prefix of `s` is an occurrence in `s` that ends within the prefix. */
  lemma OccursInPrefix(s: string, sep: string, n: nat, j: nat)
    ensures n <= |s| && OccursAt(s[..n], sep, j) ==> OccursAt(s, sep, j) && j + |sep| <= n
  {
    if n <= |s| && OccursAt(s[..n], sep, j) {
      assert s[..n][j..j + |sep|] == s[j..j + |sep|];
    }
  }

  /**
    Each cut is made at the leftmost occurrence of the separator: no piece
    but the last, followed by all of the separator except its last character,
    contains the separator. This fixes the cuts also for a separator that
    can overlap itself, such as `" - "`.
   */
  lemma {:induction false} SplitLeftmost(s: string, sep: string)
    requires |sep| > 0
    ensures forall k :: 0 <= k < |Split(s, sep)| - 1 ==> !Contains(Split(s, sep)[k] + sep[..|sep| - 1], sep)
    decreases |s|
  {
    FindLeftmost(s, sep);
    match Find(s, sep)
    case None =>
    case Some(i) =>
      var head, rest := s[..i], s[i + |sep|..];
      var cut := s[..i + |sep| - 1];
      assert head + sep[..|sep| - 1] == cut by {
        assert s[i..i + |sep|] == sep;
      }
      forall j: nat | j <= |cut| ensures !OccursAt(cut, sep, j) {
        OccursInPrefix(s, sep, i + |sep| - 1, j);
      }
      SplitLeftmost(rest, sep);
      assert Split(s, sep) == [head] + Split(rest, sep);
  }

  /** A suffix of a suffix of `s` is a suffix of `s`. */
  lemma SuffixOfSuffix(s: string, j: nat, q: nat)
    requires j + q <= |s|
    ensures s[j..][q..] == s[j + q..]
  {
  }

  /** An occurrence in the suffix `s[j..]` is an occurrence in `s`, `j` positions further on. */
  lemma OccursInSuffix(s: string, j: nat, sep: string, p: nat)
    requires j <= |s| && OccursAt(s[j..], sep, p)
    ensures OccursAt(s, sep, j + p)
  {
    assert s[j + p..j + p + |sep|] == s[j..][p..p + |sep|];
  }

  /** When the separator occurs, the last piece is that of the text after its first occurrence. */
  lemma LastOfSplit(s: string, sep: string, i: nat)
    requires |sep| > 0 && Find(s, sep) == Some(i)
    ensures Last(Split(s, sep)) == Last(Split(s[i + |sep|..], sep))
  {
    var parts := Split(s, sep);
    var tail := Split(s[i + |sep|..], sep);
    assert parts == [s[..i]] + tail;
    assert parts[|parts| - 1] == tail[|tail| - 1];
    assert Last(parts) == Last(tail);
  }

  /** Where the last piece of `Split(s, sep)` starts: just after the last occurrence found. */
  function LastPieceStart(s: string, sep: string): (p: nat)
    requires |sep| > 0
    ensures p <= |s|
    decreases |s|
  {
    match Find(s, sep)
    case None => 0
    case Some(i) => i + |sep| + LastPieceStart(s[i + |sep|..], sep)
  }

  /** The last piece of a split is the suffix of the string from `LastPieceStart`. */
  lemma {:induction false} LastPieceIsSuffix(s: string, sep: string)
    requires |sep| > 0
    ensures Last(Split(s, sep)) == s[LastPieceStart(s, sep)..]
    decreases |s|
  {
    match Find(s, sep)
    case None =>
    case Some(i) =>
      var rest := s[i + |sep|..];
      LastPieceIsSuffix(rest, sep);
      LastOfSplit(s, sep, i);
      var q := LastPieceStart(rest, sep);
      assert LastPieceStart(s, sep) == i + |sep| + q;
      SuffixOfSuffix(s, i + |sep|, q);
  }

  /** The last piece starts at the beginning of the string or just after an occurrence of the separator. */
  lemma {:induction false} LastPieceAfterSeparator(s: string, sep: string)
    requires |sep| > 0
    ensures AfterSeparator(s, sep, LastPieceStart(s, sep))
    decreases |s|
  {
    match Find(s, sep)
    case None =>
    case Some(i) =>
      LastPieceAfterSeparator(s[i + |sep|..], sep);
      LastPieceStep(s, sep, i);
  }

  /** Position `p` of `s` is its start or directly follows an occurrence of `sep`. */
  predicate AfterSeparator(s: string, sep: string, p: nat)
  {
    p == 0 || (|sep| <= p && OccursAt(s, sep, p - |sep|))
  }

  /** One step of `LastPieceAfterSeparator`: from the text after the first occurrence to the whole string. */
  lemma LastPieceStep(s: string, sep: string, i: nat)
    requires |sep| > 0 && Find(s, sep) == Some(i)
    requires AfterSeparator(s[i + |sep|..], sep, LastPieceStart(s[i + |sep|..], sep))
    ensures AfterSeparator(s, sep, LastPieceStart(s, sep))
  {
    var rest := s[i + |sep|..];
    var q := LastPieceStart(rest, sep);
    var p := LastPieceStart(s, sep);
    assert p == i + |sep| + q;
    if q > 0 {
      OccursInSuffix(s, i + |sep|, sep, q - |sep|);
      assert p - |sep| == i + |sep| + (q - |sep|);
    } else {
      assert p - |sep| == i;
    }
  }

  /** A string that does not contain the one-character string `[c]` has no `c`. */
  lemma NotContainsChar(s: string, c: char)
    requires !Contains(s, [c])
    ensures c !in s
  {
    if c in s {
      var i :| 0 <= i < |s| && s[i] == c;
      assert OccursAt(s, [c], i);
    }
  }

  /** A string without `c` does not contain the one-character string `[c]`. */
  lemma CharNotContained(s: string, c: char)
    ensures c !in s ==> !Contains(s, [c])
  {
    forall i: nat | OccursAt(s, [c], i) ensures s[i] == c {
    }
  }

  /** The last dot-separated label has no dot, ends the domain, and follows its last dot. */
  lemma LastLabelFacts(domain: string)
    ensures var r := Last(Split(domain, Dot));
      && '.' !in r
      && |r| <= |domain| && domain[|domain| - |r|..] == r
      && (r == domain || domain[|domain| - |r| - 1] == '.')
      && ('.' !in domain ==> r == domain)
  {
    var labels := Split(domain, Dot);
    SplitPiecesFree(domain, Dot);
    NotContainsChar(Last(labels), '.');
    LastPieceIsSuffix(domain, Dot);
    LastPieceAfterSeparator(domain, Dot);
    var p := LastPieceStart(domain, Dot);
    assert AfterSeparator(domain, Dot, p);
    assert p > 0 ==> domain[p - 1] == domain[p - 1..p][0];
    CharNotContained(domain, '.');
    SplitSingle(domain, Dot);
  }

  /**
    `domain.split(".")[-1]`: the text after the last dot of `domain`, or
    all of `domain` when it has no dot.
   */
  function LastLabel(domain: string): (r: string)
    ensures '.' !in r
    ensures |r| <= |domain| && domain[|domain| - |r|..] == r
    ensures r == domain || domain[|domain| - |r| - 1] == '.'
    ensures '.' !in domain ==> r == domain
  {
    LastLabelFacts(domain);
    Last(Split(domain, Dot))
  }

  /** Python's IndexError from `line.split(" - ")[1]` on a line without the delimiter. */
  datatype ParseError = MissingDelimiter

  /**
    `filter_top_domain_name`: the last label of the second `" - "`-separated
    field of the line, or the error raised when the line has no delimiter.
   */
  function FilterTopDomainName(line: string): (r: Result<string, ParseError>)
    ensures r.Failure? <==> !Contains(line, Delimiter)
    ensures r.Success? ==> '.' !in r.value
  {
    var fields := Split(line, Delimiter);
    SplitSingle(line, Delimiter);
    if |fields| < 2 then Failure(MissingDelimiter)
    else Success(LastLabel(fields[1]))
  }

  /** An occurrence with none before it is the one `Find` returns. */
  lemma FindFirstOccurrence(s: string, sep: string, k: nat)
    requires |sep| > 0 && OccursAt(s, sep, k)
    requires forall j: nat :: j < k ==> !OccursAt(s, sep, j)
    ensures Find(s, sep) == Some(k)
  {
    FindLeftmost(s, sep);
  }

  /**
    When the delimiter after `prefix` is the first one in the line, the split
    of the line is `prefix` followed by the split of what comes after it.
   */
  lemma SplitAtFirstDelimiter(prefix: string, after: string)
    requires !Contains(prefix + " -", Delimiter)
    ensures Split(prefix + Delimiter + after, Delimiter) == [prefix] + Split(after, Delimiter)
  {
    var line := prefix + Delimiter + after;
    var head := prefix + " -";
    assert OccursAt(line, Delimiter, |prefix|) by {
      assert line[|prefix|..|prefix| + 3] == Delimiter;
    }
    forall j: nat | j < |prefix| ensures !OccursAt(line, Delimiter, j) {
      if OccursAt(line, Delimiter, j) {
        assert line[j..j + 3] == head[j..j + 3];
        assert OccursAt(head, Delimiter, j);
      }
    }
    FindFirstOccurrence(line, Delimiter, |prefix|);
    assert line[|prefix| + 3..] == after;
    assert line[..|prefix|] == prefix;
  }

  /**
    A line made of a prefix, the delimiter and a domain, where the delimiter
    shown is the first one and the domain holds none, yields the last label
    of the domain.
   */
  lemma FilterWellFormed(prefix: string, domain: string)
    requires !Contains(prefix + " -", Delimiter)
    requires !Contains(domain, Delimiter)
    ensures FilterTopDomainName(prefix + Delimiter + domain) == Success(LastLabel(domain))
  {
    SplitAtFirstDelimiter(prefix, domain);
    SplitSingle(domain, Delimiter);
  }

  /**
    A line with two or more delimiters yields the last label of the field
    between the first and the second one, whatever follows the second.
   */
  lemma FilterSecondField(prefix: string, field: string, rest: string)
    requires !Contains(prefix + " -", Delimiter)
    requires !Contains(field + " -", Delimiter)
    ensures FilterTopDomainName(prefix + Delimiter + field + Delimiter + rest) == Success(LastLabel(field))
  {
    SplitAtFirstDelimiter(prefix, field + Delimiter + rest);
    SplitAtFirstDelimiter(field, rest);
    assert prefix + Delimiter + field + Delimiter + rest == prefix + Delimiter + (field + Delimiter + rest);
  }

  /** A string that contains the delimiter has a space and a hyphen and at least three characters. */
  lemma DelimiterChars(s: string)
    ensures Contains(s, Delimiter) ==> ' ' in s && '-' in s && |s| >= 3
  {
    if Contains(s, Delimiter) {
      var i: nat :| i <= |s| && OccursAt(s, Delimiter, i);
      assert s[i..i + 3] == Delimiter && Delimiter[0] == ' ' && Delimiter[1] == '-';
      assert s[i] == ' ' && s[i + 1] == '-';
      assert s[i] in s && s[i + 1] in s;
    }
  }

  /** A string without a space, or without a hyphen, or shorter than the delimiter, does not contain it. */
  lemma NoDelimiterWithout(s: string)
    requires ' ' !in s || '-' !in s || |s| < 3
    ensures !Contains(s, Delimiter)
  {
    DelimiterChars(s);
  }

  /**
    Two strings without the delimiter, the first not ending in a space or
    a hyphen, do not contain it when joined.
   */
  lemma NoDelimiterConcat(a: string, b: string)
    requires !Contains(a, Delimiter) && !Contains(b, Delimiter)
    requires |a| > 0 && a[|a| - 1] != ' ' && a[|a| - 1] != '-'
    ensures !Contains(a + b, Delimiter)
  {
    var s := a + b;
    forall i: nat | OccursAt(s, Delimiter, i) ensures false {
      assert s[i..i + 3] == Delimiter && Delimiter[0] == ' ' && Delimiter[1] == '-';
      assert s[i] == ' ' && s[i + 1] == '-';
      if i + 3 <= |a| {
        assert s[i..i + 3] == a[i..i + 3];
        assert OccursAt(a, Delimiter, i);
      } else if i >= |a| {
        assert s[i..i + 3] == b[i - |a|..i - |a| + 3];
        assert OccursAt(b, Delimiter, i - |a|);
      }
    }
  }

  /** A character at or after position `k` belongs to the suffix from `k`. */
  lemma CharOfSuffix(s: string, k: int, j: int)
    ensures 0 <= k <= j < |s| ==> s[j] in s[k..]
  {
    if 0 <= k <= j < |s| {
      assert s[k..][j - k] == s[j];
    }
  }

  /** The last label of `a + "." + b` is `b` when `b` has no dot. */
  lemma LastLabelAfterDot(a: string, b: string)
    requires '.' !in b
    ensures LastLabel(a + "." + b) == b
  {
    var d := a + "." + b;
    var r := LastLabel(d);
    var k := |d| - |r|;
    assert d[|a|] == '.';
    CharOfSuffix(d, k, |a|);
    CharOfSuffix(d, |a| + 1, k - 1);
    assert d[|a| + 1..] == b;
  }

  /** The first certstream line of the project's tests gives "com". */
  lemma FilterExampleCom()
    ensures FilterTopDomainName(
      ("[2018-04-01T14:11:38.783874]" + " ct.googleapis.com/logs/argon2018/") + " - " + ("docs-beta.monetizesocial" + "." + "com"))
      == Success("com")
  {
    ExampleLine("[2018-04-01T14:11:38.783874]", " ct.googleapis.com/logs/argon2018/", "docs-beta.monetizesocial", "com");
  }

  /** The second certstream line of the project's tests gives "de". */
  lemma FilterExampleDe()
    ensures FilterTopDomainName(
      ("[2018-04-01T14:11:40.243578]" + " ct.googleapis.com/icarus/") + " - " + ("www.witze-dschungel.lima-city" + "." + "de"))
      == Success("de")
  {
    ExampleLine("[2018-04-01T14:11:40.243578]", " ct.googleapis.com/icarus/", "www.witze-dschungel.lima-city", "de");
  }

  /** The third certstream line of the project's tests gives "fr". */
  lemma FilterExampleFr()
    ensures FilterTopDomainName(
      ("[2018-04-01T14:11:40.184876]" + " ct.googleapis.com/icarus/") + " - " + ("sallesdevillefagnan" + "." + "fr"))
      == Success("fr")
  {
    ExampleLine("[2018-04-01T14:11:40.184876]", " ct.googleapis.com/icarus/", "sallesdevillefagnan", "fr");
  }

  /** A timestamp and a log URL hold no delimiter, not even with the first two characters of one. */
  lemma ExamplePrefix(stamp: string, log: string)
    requires |stamp| > 0 && ' ' !in stamp && stamp[|stamp| - 1] == ']'
    requires '-' !in log && |log| > 0 && log[|log| - 1] == '/'
    ensures !Contains(stamp + log + " -", Delimiter)
  {
    NoDelimiterWithout(stamp);
    NoDelimiterWithout(log);
    NoDelimiterWithout(" -");
    NoDelimiterConcat(stamp, log);
    NoDelimiterConcat(stamp + log, " -");
  }

  /** A domain without spaces holds no delimiter, and its last label follows its last dot. */
  lemma ExampleDomain(name: string, tld: string)
    requires ' ' !in name && ' ' !in tld && '.' !in tld
    ensures !Contains(name + "." + tld, Delimiter)
    ensures LastLabel(name + "." + tld) == tld
  {
    NoDelimiterWithout(name + "." + tld);
    LastLabelAfterDot(name, tld);
  }

  /** A certstream line: a timestamp, a log URL, the delimiter and a domain ending in `tld`. */
  lemma ExampleLine(stamp: string, log: string, name: string, tld: string)
    requires |stamp| > 0 && ' ' !in stamp && stamp[|stamp| - 1] == ']'
    requires '-' !in log && |log| > 0 && log[|log| - 1] == '/'
    requires ' ' !in name && ' ' !in tld && '.' !in tld
    ensures FilterTopDomainName((stamp + log) + Delimiter + (name + "." + tld)) == Success(tld)
  {
    ExamplePrefix(stamp, log);
    ExampleDomain(name, tld);
    FilterWellFormed(stamp + log, name + "." + tld);
  }
}
