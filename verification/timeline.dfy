/**
 * Per-address history handling in `geoip_until_date`: the records gathered
 * for one address are sorted by date with a stable sort, then compacted by
 * keeping a record only when the kept list is empty or the record's country
 * differs from the last kept record's country.
 */
module Timeline {

  /** One observation: a snapshot date and the country label found then ("" for unknown). */
  datatype Record = Record(date: int, country: string)

  // ---------------------------------------------------------------------
  // Sorting by date.

  predicate Sorted(xs: seq<Record>) {
    forall i, j :: 0 <= i < j < |xs| ==> xs[i].date <= xs[j].date
  }

  /** The records dated `d`, in their order in `xs`. */
  function WithDate(xs: seq<Record>, d: int): seq<Record> {
    if |xs| == 0 then []
    else (if xs[0].date == d then [xs[0]] else []) + WithDate(xs[1..], d)
  }

  /** Puts `x` in front of the first record not dated before it. */
  function Insert(x: Record, s: seq<Record>): (r: seq<Record>)
    requires Sorted(s)
    ensures Sorted(r)
    ensures multiset(r) == multiset(s) + multiset{x}
    ensures |r| == |s| + 1
    ensures r[0] == if |s| == 0 || x.date <= s[0].date then x else s[0]
    decreases |s|
  {
    if |s| == 0 || x.date <= s[0].date then [x] + s
    else
      assert s == [s[0]] + s[1..];
      [s[0]] + Insert(x, s[1..])
  }

  /**
   * Sorting by date, as `list.sort(key=date)` does: the result is ordered by
   * date and is a permutation of the input.
   */
  function SortByDate(xs: seq<Record>): (r: seq<Record>)
    ensures Sorted(r)
    ensures multiset(r) == multiset(xs)
  {
    if |xs| == 0 then []
    else
      assert xs == [xs[0]] + xs[1..];
      Insert(xs[0], SortByDate(xs[1..]))
  }

  lemma {:induction false} InsertKeepsDateOrder(x: Record, s: seq<Record>, d: int)
    requires Sorted(s)
    ensures WithDate(Insert(x, s), d) == (if x.date == d then [x] else []) + WithDate(s, d)
  {
    if |s| == 0 || x.date <= s[0].date {
      assert ([x] + s)[1..] == s;
    } else {
      var t := s[1..];
      var r := Insert(x, t);
      assert Insert(x, s) == [s[0]] + r;
      InsertKeepsDateOrder(x, t, d);
      assert ([s[0]] + r)[1..] == r;
      var rest := WithDate(t, d);
      assert WithDate(r, d) == (if x.date == d then [x] else []) + rest;
      assert WithDate([s[0]] + r, d) == (if s[0].date == d then [s[0]] else []) + WithDate(r, d);
      assert WithDate(s, d) == (if s[0].date == d then [s[0]] else []) + rest;
      if s[0].date == d {
        assert WithDate(r, d) == rest;
      } else if x.date != d {
        assert WithDate(r, d) == rest;
      }
    }
  }

  /**
   * The sort is stable: for every date, the records with that date keep the
   * order they had in the input.
   */
  lemma {:induction false} SortByDateStable(xs: seq<Record>, d: int)
    ensures WithDate(SortByDate(xs), d) == WithDate(xs, d)
  {
    if |xs| > 0 {
      SortByDateStable(xs[1..], d);
      InsertKeepsDateOrder(xs[0], SortByDate(xs[1..]), d);
    }
  }

  /**
   * A sorted sequence is fixed by its per-date subsequences: any stable
   * sort by date (Python's included) returns what `SortByDate` returns.
   */
  lemma {:induction false} StableSortIsUnique(xs: seq<Record>, ys: seq<Record>)
    requires Sorted(xs) && Sorted(ys)
    requires forall d :: WithDate(xs, d) == WithDate(ys, d)
    ensures xs == ys
  {
    if |xs| == 0 {
      assert WithDate(xs, 0) == [];
    } else {
      assert |ys| > 0 by {
        assert WithDate(xs, xs[0].date) != [];
      }
      var a, b := xs[0], ys[0];
      assert a.date == b.date by {
        FirstOfDate(xs, b.date);
        FirstOfDate(ys, a.date);
      }
      assert WithDate(xs, a.date)[0] == a;
      assert WithDate(ys, a.date)[0] == b;
      forall d
        ensures WithDate(xs[1..], d) == WithDate(ys[1..], d)
      {
        assert WithDate(xs, d) == WithDate(ys, d);
        if d == a.date {
          assert ([a] + WithDate(xs[1..], d))[1..] == WithDate(xs[1..], d);
          assert ([b] + WithDate(ys[1..], d))[1..] == WithDate(ys[1..], d);
        } else {
          assert [] + WithDate(xs[1..], d) == WithDate(xs[1..], d);
          assert [] + WithDate(ys[1..], d) == WithDate(ys[1..], d);
        }
      }
      StableSortIsUnique(xs[1..], ys[1..]);
      assert xs == [a] + xs[1..] && ys == [b] + ys[1..];
    }
  }

  /** In a sorted sequence, a record of date `d` exists only if `d` is at least the first date. */
  lemma {:induction false} FirstOfDate(xs: seq<Record>, d: int)
    requires Sorted(xs) && |xs| > 0
    requires WithDate(xs, d) != []
    ensures xs[0].date <= d
  {
    if xs[0].date != d {
      assert WithDate(xs, d) == WithDate(xs[1..], d);
      DatedIsMember(xs[1..], d);
    }
  }

  lemma {:induction false} DatedIsMember(xs: seq<Record>, d: int)
    requires WithDate(xs, d) != []
    ensures exists k :: 0 <= k < |xs| && xs[k].date == d
  {
    if xs[0].date != d {
      DatedIsMember(xs[1..], d);
      var k :| 0 <= k < |xs[1..]| && xs[1..][k].date == d;
      assert xs[k + 1].date == d;
    }
  }

  // ---------------------------------------------------------------------
  // Compaction.

  /**
   * The compaction loop as the source writes it: `kept` is the list built
   * so far; a record is appended when `kept` is empty or its country
   * differs from that of the last kept record.
   */
  function CompactInto(kept: seq<Record>, xs: seq<Record>): seq<Record>
    decreases |xs|
  {
    if |xs| == 0 then kept
    else
      var r := xs[0];
      CompactInto(if |kept| == 0 || r.country != kept[|kept| - 1].country then kept + [r] else kept, xs[1..])
  }

  function Compact(xs: seq<Record>): seq<Record> {
    CompactInto([], xs)
  }

  /** Reference: the records of `xs` whose country differs from the country just before them. */
  function ChangesAfter(prev: string, xs: seq<Record>): seq<Record>
    decreases |xs|
  {
    if |xs| == 0 then []
    else (if xs[0].country != prev then [xs[0]] else []) + ChangesAfter(xs[0].country, xs[1..])
  }

  /** Reference: the first record, then every record that changes the country. */
  function ChangePoints(xs: seq<Record>): seq<Record> {
    if |xs| == 0 then [] else [xs[0]] + ChangesAfter(xs[0].country, xs[1..])
  }

  predicate NoRepeats(xs: seq<Record>) {
    forall i :: 0 < i < |xs| ==> xs[i - 1].country != xs[i].country
  }

  /** `a` is obtained from `b` by deleting elements. */
  predicate Subseq<T(==)>(a: seq<T>, b: seq<T>)
    decreases |b|
  {
    if |a| == 0 then true
    else if |b| == 0 then false
    else if a[0] == b[0] then Subseq(a[1..], b[1..])
    else Subseq(a, b[1..])
  }

  lemma {:induction false} CompactIntoSpec(kept: seq<Record>, xs: seq<Record>)
    requires |kept| > 0
    ensures CompactInto(kept, xs) == kept + ChangesAfter(kept[|kept| - 1].country, xs)
    decreases |xs|
  {
    var prev := kept[|kept| - 1].country;
    if |xs| == 0 {
      assert kept + [] == kept;
    } else if xs[0].country != prev {
      CompactIntoSpec(kept + [xs[0]], xs[1..]);
      assert (kept + [xs[0]]) + ChangesAfter(xs[0].country, xs[1..])
          == kept + ([xs[0]] + ChangesAfter(xs[0].country, xs[1..]));
    } else {
      CompactIntoSpec(kept, xs[1..]);
      assert [] + ChangesAfter(xs[0].country, xs[1..]) == ChangesAfter(xs[0].country, xs[1..]);
    }
  }

  /** The source's loop keeps exactly the first record and the records that change the country. */
  lemma CompactIsChangePoints(xs: seq<Record>)
    ensures Compact(xs) == ChangePoints(xs)
  {
    if |xs| > 0 {
      CompactIntoSpec([xs[0]], xs[1..]);
      assert [] + [xs[0]] == [xs[0]];
    }
  }

  lemma {:induction false} ChangesAfterSubseq(prev: string, xs: seq<Record>)
    ensures Subseq(ChangesAfter(prev, xs), xs)
    decreases |xs|
  {
    if |xs| > 0 {
      ChangesAfterSubseq(xs[0].country, xs[1..]);
      var rest := ChangesAfter(xs[0].country, xs[1..]);
      if xs[0].country != prev {
        assert ([xs[0]] + rest)[1..] == rest;
      } else {
        assert [] + rest == rest;
        SubseqDropEqualHead(rest, xs);
      }
    }
  }

  /** If `a` is a subsequence of the tail of `b`, it is one of `b`. */
  lemma {:induction false} SubseqDropEqualHead<T>(a: seq<T>, b: seq<T>)
    requires |b| > 0 && Subseq(a, b[1..])
    ensures Subseq(a, b)
    decreases |b|, 0
  {
    if |a| > 0 && a[0] == b[0] {
      SubseqOfTail(a, b[1..]);
    }
  }

  /** A subsequence of `b` minus its head is a subsequence of `b` minus its head and one more. */
  lemma {:induction false} SubseqOfTail<T>(a: seq<T>, b: seq<T>)
    requires |a| > 0 && Subseq(a, b)
    ensures Subseq(a[1..], b)
    decreases |b|, 1
  {
    if a[0] == b[0] {
      SubseqDropEqualHead(a[1..], b);
    } else {
      SubseqOfTail(a, b[1..]);
      SubseqDropEqualHead(a[1..], b);
    }
  }

  lemma {:induction false} ChangesAfterNoRepeats(prev: string, xs: seq<Record>)
    ensures NoRepeats(ChangesAfter(prev, xs))
    ensures |ChangesAfter(prev, xs)| > 0 ==> ChangesAfter(prev, xs)[0].country != prev
    decreases |xs|
  {
    if |xs| > 0 {
      ChangesAfterNoRepeats(xs[0].country, xs[1..]);
    }
  }

  lemma {:induction false} ChangesAfterSorted(prev: string, xs: seq<Record>, lo: int)
    requires Sorted(xs)
    requires forall k :: 0 <= k < |xs| ==> lo <= xs[k].date
    ensures Sorted(ChangesAfter(prev, xs))
    ensures forall k :: 0 <= k < |ChangesAfter(prev, xs)| ==> lo <= ChangesAfter(prev, xs)[k].date
    decreases |xs|
  {
    if |xs| > 0 {
      ChangesAfterSorted(xs[0].country, xs[1..], xs[0].date);
    }
  }

  lemma {:induction false} ChangesAfterOfNoRepeats(prev: string, xs: seq<Record>)
    requires NoRepeats(xs)
    requires |xs| > 0 ==> xs[0].country != prev
    ensures ChangesAfter(prev, xs) == xs
    decreases |xs|
  {
    if |xs| > 0 {
      ChangesAfterOfNoRepeats(xs[0].country, xs[1..]);
      assert xs == [xs[0]] + xs[1..];
    }
  }

  lemma {:induction false} ChangesAfterSameCountry(c: string, xs: seq<Record>)
    requires forall k :: 0 <= k < |xs| ==> xs[k].country == c
    ensures ChangesAfter(c, xs) == []
    decreases |xs|
  {
    if |xs| > 0 {
      ChangesAfterSameCountry(c, xs[1..]);
    }
  }

  /**
   * What compaction promises: a subsequence of its input that starts with
   * the input's first record and never repeats a country twice in a row,
   * and it keeps a date-sorted history sorted.
   */
  lemma CompactSpec(xs: seq<Record>)
    ensures Subseq(Compact(xs), xs)
    ensures |xs| > 0 ==> |Compact(xs)| > 0 && Compact(xs)[0] == xs[0]
    ensures |xs| == 0 ==> Compact(xs) == []
    ensures NoRepeats(Compact(xs))
    ensures Sorted(xs) ==> Sorted(Compact(xs))
  {
    CompactIsChangePoints(xs);
    if |xs| > 0 {
      var rest := ChangesAfter(xs[0].country, xs[1..]);
      ChangesAfterSubseq(xs[0].country, xs[1..]);
      assert ([xs[0]] + rest)[1..] == rest;
      ChangesAfterNoRepeats(xs[0].country, xs[1..]);
      if Sorted(xs) {
        ChangesAfterSorted(xs[0].country, xs[1..], xs[0].date);
      }
    }
  }

  /** A sequence without adjacent repeated countries is left unchanged. */
  lemma CompactOfNoRepeats(xs: seq<Record>)
    requires NoRepeats(xs)
    ensures Compact(xs) == xs
  {
    CompactIsChangePoints(xs);
    if |xs| > 0 {
      ChangesAfterOfNoRepeats(xs[0].country, xs[1..]);
    }
  }

  /** Compacting twice is compacting once. */
  lemma CompactIdempotent(xs: seq<Record>)
    ensures Compact(Compact(xs)) == Compact(xs)
  {
    CompactSpec(xs);
    CompactOfNoRepeats(Compact(xs));
  }

  /** A non-empty history with a single country compacts to its first record. */
  lemma CompactSingleCountry(xs: seq<Record>)
    requires |xs| > 0
    requires forall k :: 0 <= k < |xs| ==> xs[k].country == xs[0].country
    ensures Compact(xs) == [xs[0]]
  {
    CompactIsChangePoints(xs);
    ChangesAfterSameCountry(xs[0].country, xs[1..]);
  }

  /**
   * Observations that all carry one country sort and compact to a single
   * record with that country and the earliest date.
   */
  lemma {:induction false} SingleCountryTimeline(obs: seq<Record>, c: string)
    requires |obs| > 0
    requires forall k :: 0 <= k < |obs| ==> obs[k].country == c
    ensures |Compact(SortByDate(obs))| == 1
    ensures Compact(SortByDate(obs))[0].country == c
    ensures forall k :: 0 <= k < |obs| ==> Compact(SortByDate(obs))[0].date <= obs[k].date
    ensures exists k :: 0 <= k < |obs| && Compact(SortByDate(obs))[0] == obs[k]
  {
    var sorted := SortByDate(obs);
    assert |sorted| == |obs| by {
      assert |multiset(sorted)| == |multiset(obs)|;
    }
    forall k | 0 <= k < |sorted|
      ensures sorted[k].country == c
    {
      assert sorted[k] in multiset(obs);
    }
    CompactSingleCountry(sorted);
    forall k | 0 <= k < |obs|
      ensures sorted[0].date <= obs[k].date
    {
      assert obs[k] in multiset(sorted);
    }
    assert sorted[0] in multiset(obs);
    var w :| 0 <= w < |obs| && obs[w] == sorted[0];
  }

  /** Three snapshots labelled US, US, JP compact to the first US and the JP. */
  lemma CompactExample()
    ensures Compact([Record(1, "US"), Record(2, "US"), Record(3, "JP")]) == [Record(1, "US"), Record(3, "JP")]
  {
    var xs := [Record(1, "US"), Record(2, "US"), Record(3, "JP")];
    assert xs[1..] == [Record(2, "US"), Record(3, "JP")];
    assert xs[1..][1..] == [Record(3, "JP")];
    assert xs[1..][1..][1..] == [];
    assert CompactInto([], xs) == CompactInto([Record(1, "US")], xs[1..]);
  }
}
