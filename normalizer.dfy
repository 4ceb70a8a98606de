/**
  The normalizer of pipe.py, `clean_string`: it deletes the matches of the
  regular expression `\x1b\[.*?[@-~]` (an ANSI control sequence: ESC, `[`,
  the fewest characters other than a newline, then one final character in
  `@`..`~`), found left to right without overlap, and then deletes every
  newline and every space.
 */
module Normalizer {
  import opened Wrappers

  /** The escape character, `\x1b`. */
  const Esc: char := '\U{1B}'

  /** The character class `[@-~]` that ends a control sequence. */
  predicate IsFinal(c: char)
  {
    '@' <= c <= '~'
  }

  /**
    `s[0..k + 1]` is a match of the pattern at the start of `s`: ESC, `[`,
    characters without a newline, and a final character at `k`.
   */
  predicate EscapeMatch(s: string, k: nat)
  {
    2 <= k < |s| && s[0] == Esc && s[1] == '[' && IsFinal(s[k])
    && forall j :: 2 <= j < k ==> s[j] != '\n'
  }

  /**
    The first final character at or after `from`, provided no newline comes
    before it: where the lazy `.*?` stops.
   */
  function FinalFrom(s: string, from: nat): (r: Option<nat>)
    requires from <= |s|
    ensures r.Some? ==> from <= r.value < |s| && IsFinal(s[r.value])
    ensures r.Some? ==> forall j :: from <= j < r.value ==> s[j] != '\n' && !IsFinal(s[j])
    ensures r.None? ==> forall k :: from <= k < |s| && IsFinal(s[k]) ==>
      exists j :: from <= j < k && s[j] == '\n'
    decreases |s| - from
  {
    if from == |s| then None
    else if IsFinal(s[from]) then Some(from)
    else if s[from] == '\n' then None
    else FinalFrom(s, from + 1)
  }

  /**
    Where the lazy match of the pattern at the start of `s` ends: the
    shortest match, or none when the pattern does not match there.
   */
  function MatchEnd(s: string): (r: Option<nat>)
    ensures r.Some? ==> EscapeMatch(s, r.value)
    ensures r.Some? ==> forall k: nat :: k < r.value ==> !EscapeMatch(s, k)
    ensures r.None? ==> forall k: nat :: !EscapeMatch(s, k)
  {
    if 2 <= |s| && s[0] == Esc && s[1] == '[' then FinalFrom(s, 2) else None
  }

  /** `re.sub(u"\u001b\[.*?[@-~]", "", s)`: every match, scanned left to right, removed. */
  function StripEscapes(s: string): (r: string)
    ensures |r| <= |s|
    decreases |s|
  {
    if s == [] then []
    else match MatchEnd(s)
      case Some(k) => StripEscapes(s[k + 1..])
      case None => [s[0]] + StripEscapes(s[1..])
  }

  /** `s.replace(c, "")`: every `c` removed. */
  function Remove(s: string, c: char): (r: string)
    ensures c !in r
    decreases |s|
  {
    if s == [] then []
    else (if s[0] == c then [] else [s[0]]) + Remove(s[1..], c)
  }

  /** Every `c` is gone and every other character keeps its number of occurrences. */
  lemma {:induction false} RemoveCounts(s: string, c: char)
    ensures multiset(Remove(s, c)) == multiset(s)[c := 0]
    decreases |s|
  {
    if s != [] {
      RemoveCounts(s[1..], c);
      assert s == [s[0]] + s[1..];
    }
  }

  /** `clean_string`: control sequences removed, then newlines, then spaces. */
  function CleanString(s: string): (r: string)
    ensures '\n' !in r && ' ' !in r
  {
    var noNewline := Remove(StripEscapes(s), '\n');
    RemoveCounts(noNewline, ' ');
    assert '\n' !in multiset(noNewline);
    var r := Remove(noNewline, ' ');
    assert '\n' !in multiset(r);
    r
  }

  /** `a` is `b` with some of its characters deleted, the rest kept in order. */
  predicate IsSubsequence(a: string, b: string)
    decreases |b|
  {
    if b == [] then a == []
    else (a != [] && a[0] == b[0] && IsSubsequence(a[1..], b[1..])) || IsSubsequence(a, b[1..])
  }

  /** A subsequence is never longer than the sequence it is taken from. */
  lemma {:induction false} SubsequenceShorter(a: string, b: string)
    requires IsSubsequence(a, b)
    ensures |a| <= |b|
    decreases |b|
  {
    if b != [] {
      if a != [] && a[0] == b[0] && IsSubsequence(a[1..], b[1..]) {
        SubsequenceShorter(a[1..], b[1..]);
      } else {
        SubsequenceShorter(a, b[1..]);
      }
    }
  }

  /** A subsequence of a subsequence is a subsequence. */
  lemma {:induction false} SubsequenceTransitive(a: string, b: string, c: string)
    requires IsSubsequence(a, b) && IsSubsequence(b, c)
    ensures IsSubsequence(a, c)
    decreases |c|
  {
    if c != [] {
      if b != [] && b[0] == c[0] && IsSubsequence(b[1..], c[1..]) {
        if a != [] && a[0] == b[0] && IsSubsequence(a[1..], b[1..]) {
          SubsequenceTransitive(a[1..], b[1..], c[1..]);
        } else {
          SubsequenceTransitive(a, b[1..], c[1..]);
        }
      } else {
        SubsequenceTransitive(a, b, c[1..]);
      }
    }
  }

  /** A subsequence of a suffix is a subsequence of the whole. */
  lemma {:induction false} SubsequenceOfSuffix(a: string, b: string, k: nat)
    requires k <= |b| && IsSubsequence(a, b[k..])
    ensures IsSubsequence(a, b)
    decreases k
  {
    if k > 0 {
      assert b[k - 1..][1..] == b[k..];
      SubsequenceOfSuffix(a, b, k - 1);
    }
  }

  /** Putting the same character in front of both keeps a subsequence. */
  lemma {:induction false} SubsequenceCons(c: char, a: string, b: string)
    requires IsSubsequence(a, b)
    ensures IsSubsequence([c] + a, [c] + b)
  {
    assert ([c] + a)[1..] == a;
    assert ([c] + b)[1..] == b;
  }

  /** Stripping control sequences only deletes characters. */
  lemma {:induction false} StripEscapesSubsequence(s: string)
    ensures IsSubsequence(StripEscapes(s), s)
    decreases |s|
  {
    if s != [] {
      match MatchEnd(s)
      case Some(k) =>
        StripEscapesSubsequence(s[k + 1..]);
        SubsequenceOfSuffix(StripEscapes(s), s, k + 1);
      case None =>
        StripEscapesSubsequence(s[1..]);
        SubsequenceCons(s[0], StripEscapes(s[1..]), s[1..]);
        assert [s[0]] + s[1..] == s;
    }
  }

  /** Removing one character only deletes characters. */
  lemma {:induction false} RemoveSubsequence(s: string, c: char)
    ensures IsSubsequence(Remove(s, c), s)
    decreases |s|
  {
    if s != [] {
      RemoveSubsequence(s[1..], c);
      if s[0] == c {
        assert Remove(s, c) == Remove(s[1..], c);
        SubsequenceOfSuffix(Remove(s, c), s, 1);
      } else {
        SubsequenceCons(s[0], Remove(s[1..], c), s[1..]);
        assert [s[0]] + s[1..] == s;
      }
    }
  }

  /** Removal distributes over concatenation. */
  lemma {:induction false} RemoveConcat(a: string, b: string, c: char)
    ensures Remove(a + b, c) == Remove(a, c) + Remove(b, c)
    decreases |a|
  {
    if a != [] {
      assert (a + b)[0] == a[0] && (a + b)[1..] == a[1..] + b;
      RemoveConcat(a[1..], b, c);
    } else {
      assert a + b == b;
    }
  }

  /** A string without `c` is left as it is. */
  lemma {:induction false} RemoveAbsent(s: string, c: char)
    requires c !in s
    ensures Remove(s, c) == s
    decreases |s|
  {
    if s != [] {
      RemoveAbsent(s[1..], c);
      assert [s[0]] + s[1..] == s;
    }
  }

  /** A string without ESC holds no control sequence and is left as it is. */
  lemma {:induction false} StripEscapesAbsent(s: string)
    requires Esc !in s
    ensures StripEscapes(s) == s
    decreases |s|
  {
    if s != [] {
      StripEscapesAbsent(s[1..]);
      assert [s[0]] + s[1..] == s;
    }
  }

  /** Text before the first ESC is copied through unchanged. */
  lemma {:induction false} StripEscapesPlainPrefix(p: string, rest: string)
    requires Esc !in p
    ensures StripEscapes(p + rest) == p + StripEscapes(rest)
    decreases |p|
  {
    if p != [] {
      var s := p + rest;
      assert s[0] == p[0] && p[0] in p;
      assert MatchEnd(s).None?;
      assert s[1..] == p[1..] + rest;
      assert StripEscapes(s) == [p[0]] + StripEscapes(p[1..] + rest);
      StripEscapesPlainPrefix(p[1..], rest);
      assert [p[0]] + (p[1..] + StripEscapes(rest)) == p + StripEscapes(rest);
    } else {
      assert p + rest == rest;
    }
  }

  /**
    A control sequence, ESC `[` body final, with no newline and no final
    character in its body, is deleted whole, and scanning resumes after it.
   */
  lemma ControlSequenceRemoved(body: string, f: char, rest: string)
    requires IsFinal(f)
    requires forall j :: 0 <= j < |body| ==> body[j] != '\n' && !IsFinal(body[j])
    ensures StripEscapes([Esc, '['] + body + [f] + rest) == StripEscapes(rest)
  {
    var s := [Esc, '['] + body + [f] + rest;
    var k := |body| + 2;
    assert s[k] == f;
    assert forall j :: 2 <= j < k ==> s[j] == body[j - 2];
    assert MatchEnd(s) == Some(k);
    assert s[k + 1..] == rest;
  }

  /**
    An ESC at which the pattern matches at no length is kept, and scanning
    goes on from the next character.
   */
  lemma UnmatchedEscKept(rest: string)
    requires forall k: nat :: !EscapeMatch([Esc] + rest, k)
    ensures StripEscapes([Esc] + rest) == [Esc] + StripEscapes(rest)
  {
    assert MatchEnd([Esc] + rest).None?;
    assert ([Esc] + rest)[1..] == rest;
  }

  /** `clean_string` only deletes characters; in particular it never lengthens. */
  lemma CleanStringSubsequence(s: string)
    ensures IsSubsequence(CleanString(s), s)
    ensures |CleanString(s)| <= |s|
  {
    var a := StripEscapes(s);
    var b := Remove(a, '\n');
    StripEscapesSubsequence(s);
    RemoveSubsequence(a, '\n');
    RemoveSubsequence(b, ' ');
    SubsequenceTransitive(b, a, s);
    SubsequenceTransitive(CleanString(s), b, s);
    SubsequenceShorter(CleanString(s), s);
  }

  /** A string with no ESC, newline or space is already clean. */
  lemma CleanStringIdentity(s: string)
    requires Esc !in s && '\n' !in s && ' ' !in s
    ensures CleanString(s) == s
  {
    StripEscapesAbsent(s);
    RemoveAbsent(s, '\n');
    RemoveAbsent(s, ' ');
  }

  /** The colour sequence of a coloured label is deleted, the blanks after it stay. */
  lemma StripColouredLabel()
    ensures StripEscapes("ca" + [Esc] + "[0m \n") == "ca \n"
  {
    var rest := " \n";
    var csi := [Esc, '['] + "0" + ['m'] + rest;
    assert "ca" + [Esc] + "[0m \n" == "ca" + csi;
    ControlSequenceRemoved("0", 'm', rest);
    StripEscapesPlainPrefix("ca", csi);
    StripEscapesAbsent(rest);
  }

  /** Deleting the newline, then the space, from the label and its blanks. */
  lemma RemoveBlanksOfLabel()
    ensures Remove(Remove("ca \n", '\n'), ' ') == "ca"
  {
    assert "ca \n" == "ca" + " \n";
    RemoveConcat("ca", " \n", '\n');
    RemoveAbsent("ca", '\n');
    assert Remove(" \n", '\n') == " ";
    assert Remove("ca \n", '\n') == "ca" + " ";
    RemoveConcat("ca", " ", ' ');
    RemoveAbsent("ca", ' ');
    assert Remove(" ", ' ') == "";
  }

  /** A coloured label followed by a space and a newline is reduced to the label. */
  lemma CleanStringColouredLabel()
    ensures CleanString("ca" + [Esc] + "[0m \n") == "ca"
  {
    StripColouredLabel();
    RemoveBlanksOfLabel();
  }

  /** An ESC followed by a space starts no control sequence. */
  lemma StripSplitSequence()
    ensures StripEscapes([Esc] + " [0m") == [Esc] + " [0m"
  {
    var s := [Esc] + " [0m";
    assert s[1] == ' ' && MatchEnd(s).None?;
    assert s[1..] == " [0m";
    StripEscapesAbsent(" [0m");
  }

  /** Deleting the space joins the ESC to its `[`. */
  lemma RemoveBlanksOfSplitSequence()
    ensures Remove(Remove([Esc] + " [0m", '\n'), ' ') == [Esc] + "[0m"
  {
    var s := [Esc] + " [0m";
    RemoveAbsent(s, '\n');
    assert s == [Esc] + " " + "[0m";
    RemoveConcat([Esc] + " ", "[0m", ' ');
    RemoveConcat([Esc], " ", ' ');
    RemoveAbsent([Esc], ' ');
    RemoveAbsent("[0m", ' ');
    assert Remove(" ", ' ') == "";
  }

  /** An ESC separated from its `[` by a space survives the first pass. */
  lemma CleanStringSplitSequence()
    ensures CleanString([Esc] + " [0m") == [Esc] + "[0m"
  {
    StripSplitSequence();
    RemoveBlanksOfSplitSequence();
  }

  /**
    Cleaning is not idempotent: what the first pass leaves is a control
    sequence that a second pass deletes.
   */
  lemma CleanStringNotIdempotent()
    ensures CleanString(CleanString([Esc] + " [0m")) == ""
    ensures CleanString([Esc] + " [0m") != ""
  {
    CleanStringSplitSequence();
    assert [Esc] + "[0m" == [Esc, '['] + "0" + ['m'] + "";
    ControlSequenceRemoved("0", 'm', "");
  }
}
