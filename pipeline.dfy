/**
  `main` of pipe.py: one certstream line goes through the four stages.
  Its top-level domain is cut out, cleaned and counted in the occurrence
  table, the table is ranked, and the top ten are displayed. A line without
  the delimiter makes `filter_top_domain_name` raise before anything is
  counted; the model returns that failure instead.
 */
module Pipeline {
  import opened Wrappers
  import opened Parser
  import opened Normalizer
  import opened Counter
  import opened Ranker
  import opened Reporter

  /** Names that went through `clean_string` hold no space. */
  predicate SpaceFree(h: seq<string>)
  {
    forall i :: 0 <= i < |h| ==> ' ' !in h[i]
  }

  /** Appending a name without spaces keeps the names space-free. */
  lemma AppendSpaceFree(h: seq<string>, d: string)
    requires ' ' !in d
    ensures SpaceFree(h) ==> SpaceFree(h + [d])
  {
  }

  /** `main(line)`: the printed lines, or the failure of the filter stage. */
  method ProcessLine(stats: DomainStats, line: string) returns (out: Result<seq<string>, ParseError>)
    requires stats.Valid()
    modifies stats
    ensures stats.Valid()
    ensures SpaceFree(old(stats.recorded)) ==> SpaceFree(stats.recorded)
    ensures out.Failure? <==> !Contains(line, Delimiter)
    ensures out.Failure? ==>
      stats.recorded == old(stats.recorded) && stats.keys == old(stats.keys) && stats.counts == old(stats.counts)
    ensures out.Success? ==>
      && FilterTopDomainName(line).Success?
      && stats.recorded == old(stats.recorded) + [CleanString(FilterTopDomainName(line).value)]
      && IsReport(SortDomains(Tally(stats.recorded)), out.value)
  {
    var filtered := FilterTopDomainName(line);
    if filtered.Failure? {
      return Failure(filtered.error);
    }
    var domain := CleanString(filtered.value);
    ghost var before := stats.recorded;
    var table := stats.CreateStatistics(domain, false);
    AppendSpaceFree(before, domain);
    var ranked := SortDomains(table);
    var lines := DisplayTopTen(ranked);
    out := Success(lines);
  }

  /** The ranked names of space-free counted names are space-free. */
  lemma RankedSpaceFree(h: seq<string>)
    requires SpaceFree(h)
    ensures forall i :: 0 <= i < |SortDomains(Tally(h))| ==> ' ' !in SortDomains(Tally(h))[i].0
  {
    TallyCounts(h);
    var ranked := SortDomains(Tally(h));
    forall i | 0 <= i < |ranked| ensures ' ' !in ranked[i].0 {
      var k := ranked[i].0;
      assert k in h;
      var j :| 0 <= j < |h| && h[j] == k;
    }
  }

  /** The ranked counts of counted names are their numbers of occurrences. */
  lemma RankedCounts(h: seq<string>)
    ensures forall i :: 0 <= i < |SortDomains(Tally(h))| ==>
      SortDomains(Tally(h))[i].1 == multiset(h)[SortDomains(Tally(h))[i].0]
  {
    TallyCounts(h);
  }

  /**
    When every counted name is space-free, as every name `ProcessLine`
    counts is, each displayed line reads back as a domain and the number of
    times it has been counted so far.
   */
  lemma ReportShowsCounts(h: seq<string>, lines: seq<string>)
    requires SpaceFree(h)
    requires IsReport(SortDomains(Tally(h)), lines)
    ensures forall i :: 0 <= i < |lines| - 1 ==>
      && ParseEntry(lines[i]).Some?
      && ParseEntry(lines[i]).value.1 == multiset(h)[ParseEntry(lines[i]).value.0]
  {
    var ranked := SortDomains(Tally(h));
    RankedSpaceFree(h);
    RankedCounts(h);
    ReportReadsBack(ranked, lines);
  }
}
