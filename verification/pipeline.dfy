/**
 * The whole of `geoip_until_date` after the registry has been read: filter
 * the release list into a catalog, sample it, classify every target against
 * each sampled snapshot, and turn each target's observations into a sorted,
 * compacted timeline.
 *
 * The conversion tool that turns a snapshot URL into an output directory is
 * a parameter: a function from the URL to the directory's entries.
 */
module Pipeline {
  import opened Catalog
  import opened Sampler
  import opened Networks
  import opened Classifier
  import opened Timeline

  /**
   * One address's history before sorting: one record per sampled snapshot,
   * in sample order, carrying that snapshot's date and the label the pass
   * over it gave the address.
   */
  function Observations(targets: set<Address>, samples: seq<Snapshot>, tool: string -> seq<DirEntry>, a: Address)
    : (r: seq<Record>)
    requires a in targets
    ensures |r| == |samples|
    ensures forall k :: 0 <= k < |r| ==> r[k] == Record(samples[k].date, Expected(tool(samples[k].url), a))
  {
    seq(|samples|, k requires 0 <= k < |samples| => Record(samples[k].date, Classify(targets, tool(samples[k].url))[a]))
  }

  /** Sorting and compacting every target's observations. */
  function Timelines(targets: set<Address>, samples: seq<Snapshot>, tool: string -> seq<DirEntry>)
    : (r: map<Address, seq<Record>>)
    ensures r.Keys == targets
  {
    map a | a in targets :: Compact(SortByDate(Observations(targets, samples, tool, a)))
  }

  /** The run: catalog, sample, classify, assemble. */
  function GeoipUntilDate(releases: seq<Release>, floor: int, filename: string, amount: Amount,
                          targets: set<Address>, tool: string -> seq<DirEntry>): (r: map<Address, seq<Record>>)
    ensures r.Keys == targets
  {
    Timelines(targets, Sample(CatalogFilter(releases, floor, filename), amount), tool)
  }

  lemma {:induction false} SubseqMembers<T>(a: seq<T>, b: seq<T>)
    requires Subseq(a, b)
    ensures forall x :: x in a ==> x in b
    decreases |b|
  {
    if |a| > 0 {
      if a[0] == b[0] {
        SubseqMembers(a[1..], b[1..]);
        assert a == [a[0]] + a[1..];
      } else {
        SubseqMembers(a, b[1..]);
      }
    }
  }

  /**
   * Each target's timeline: its observations sorted stably by date, then
   * compacted. The timeline is date-sorted, has no two adjacent records with
   * the same country, starts with the earliest observation, is a
   * subsequence of the sorted observations, and every record in it is the
   * observation of some sampled snapshot.
   */
  lemma {:induction false} TimelineSpec(targets: set<Address>, samples: seq<Snapshot>, tool: string -> seq<DirEntry>, a: Address)
    requires a in targets
    ensures var obs := Observations(targets, samples, tool, a);
      var sorted := SortByDate(obs);
      var t := Timelines(targets, samples, tool)[a];
      && |sorted| == |samples|
      && multiset(sorted) == multiset(obs)
      && (forall d :: WithDate(sorted, d) == WithDate(obs, d))
      && Subseq(t, sorted)
      && Sorted(t)
      && NoRepeats(t)
      && (|samples| > 0 ==> |t| > 0 && t[0] == sorted[0])
      && (|samples| == 0 ==> t == [])
      && (forall r :: r in t ==>
            exists k :: 0 <= k < |samples| && r == Record(samples[k].date, Expected(tool(samples[k].url), a)))
  {
    var obs := Observations(targets, samples, tool, a);
    var sorted := SortByDate(obs);
    var t := Timelines(targets, samples, tool)[a];
    assert |sorted| == |obs| by {
      assert |multiset(sorted)| == |multiset(obs)|;
    }
    forall d
      ensures WithDate(sorted, d) == WithDate(obs, d)
    {
      SortByDateStable(obs, d);
    }
    CompactSpec(sorted);
    SubseqMembers(t, sorted);
    forall r | r in t
      ensures exists k :: 0 <= k < |samples| && r == Record(samples[k].date, Expected(tool(samples[k].url), a))
    {
      assert r in multiset(obs);
      var k :| 0 <= k < |obs| && obs[k] == r;
    }
  }

  /**
   * A target whose every pass gave the same label has a one-record
   * timeline: that label, at the earliest sampled date.
   */
  lemma {:induction false} StableTarget(targets: set<Address>, samples: seq<Snapshot>, tool: string -> seq<DirEntry>, a: Address, c: string)
    requires a in targets && |samples| > 0
    requires forall k :: 0 <= k < |samples| ==> Expected(tool(samples[k].url), a) == c
    ensures var t := Timelines(targets, samples, tool)[a];
      && |t| == 1
      && t[0].country == c
      && (forall k :: 0 <= k < |samples| ==> t[0].date <= samples[k].date)
      && (exists k :: 0 <= k < |samples| && t[0].date == samples[k].date)
  {
    TimelineAt(targets, samples, tool, a);
    StableObservations(targets, samples, tool, a, c);
  }

  /** Observations that all carry `c` sort and compact to one record: `c`, at the earliest sampled date. */
  lemma StableObservations(targets: set<Address>, samples: seq<Snapshot>, tool: string -> seq<DirEntry>, a: Address, c: string)
    requires a in targets && |samples| > 0
    requires forall k :: 0 <= k < |samples| ==> Expected(tool(samples[k].url), a) == c
    ensures var t := Compact(SortByDate(Observations(targets, samples, tool, a)));
      && |t| == 1
      && t[0].country == c
      && (forall k :: 0 <= k < |samples| ==> t[0].date <= samples[k].date)
      && (exists k :: 0 <= k < |samples| && t[0].date == samples[k].date)
  {
    var obs := Observations(targets, samples, tool, a);
    ObservationsAgree(targets, samples, tool, a, c);
    SingleCountryTimeline(obs, c);
    var w :| 0 <= w < |obs| && Compact(SortByDate(obs))[0] == obs[w];
    assert obs[w].date == samples[w].date;
  }

  /** A target's timeline is its observations, sorted and compacted. */
  lemma TimelineAt(targets: set<Address>, samples: seq<Snapshot>, tool: string -> seq<DirEntry>, a: Address)
    requires a in targets
    ensures Timelines(targets, samples, tool)[a] == Compact(SortByDate(Observations(targets, samples, tool, a)))
  {
  }

  /** When every pass labels `a` with `c`, every observation does, at its snapshot's date. */
  lemma ObservationsAgree(targets: set<Address>, samples: seq<Snapshot>, tool: string -> seq<DirEntry>, a: Address, c: string)
    requires a in targets
    requires forall k :: 0 <= k < |samples| ==> Expected(tool(samples[k].url), a) == c
    ensures |Observations(targets, samples, tool, a)| == |samples|
    ensures forall k :: 0 <= k < |samples| ==>
      Observations(targets, samples, tool, a)[k] == Record(samples[k].date, c)
  {
  }

  /**
   * When no release passes the filter nothing is sampled and every target's
   * timeline is empty; the run does not fail.
   */
  lemma {:induction false} EmptyCatalogGivesEmptyTimelines(releases: seq<Release>, floor: int, filename: string, amount: Amount,
                                        targets: set<Address>, tool: string -> seq<DirEntry>)
    requires CatalogFilter(releases, floor, filename) == []
    ensures forall a :: a in targets ==> GeoipUntilDate(releases, floor, filename, amount, targets, tool)[a] == []
  {
    var samples := Sample(CatalogFilter(releases, floor, filename), amount);
    SampleEmpty(CatalogFilter(releases, floor, filename), amount);
    forall a | a in targets
      ensures GeoipUntilDate(releases, floor, filename, amount, targets, tool)[a] == []
    {
      TimelineSpec(targets, samples, tool, a);
    }
  }
}
