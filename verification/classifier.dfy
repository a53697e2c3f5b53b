/**
 * The classification pass of `geoip`: the external conversion tool leaves
 * one file per label in an output directory, each a list of networks; the
 * files are read in directory order and lines in file order, and each line
 * assigns the file's label to every still-unresolved target address it
 * contains. The pass returns right after a line resolves the last target;
 * with no targets it never returns early and reads every line.
 *
 * The directory listing is a parameter here (its order is whatever the
 * file system yields), and each line is taken as already parsed.
 */
module Classifier {
  import opened Wrappers
  import opened Networks

  /** A directory entry: its stem (the label), whether it is a regular file, and its parsed lines. */
  datatype DirEntry = DirEntry(stem: string, isFile: bool, networks: seq<Network>)

  /** One network line, tagged with the label of the file it was read from. */
  datatype Line = Line(country: string, network: Network)

  /** The loop state: the result dictionary and the set of addresses still unresolved. */
  datatype ScanState = ScanState(result: map<Address, string>, left: set<Address>)

  /** The unknown label every target starts with. */
  const Unknown: string := ""

  /** Every target unknown, every target unresolved. */
  function Init(targets: set<Address>): ScanState {
    ScanState(map a | a in targets :: Unknown, targets)
  }

  /** The network lines of the regular files, in the order the pass reads them. */
  function Lines(entries: seq<DirEntry>): seq<Line> {
    if |entries| == 0 then []
    else (if entries[0].isFile then Tag(entries[0].stem, entries[0].networks) else [])
         + Lines(entries[1..])
  }

  function Tag(stem: string, networks: seq<Network>): (r: seq<Line>)
  {
    seq(|networks|, k requires 0 <= k < |networks| => Line(stem, networks[k]))
  }

  /**
   * One network line: every unresolved address it contains gets the line's
   * label and leaves the unresolved set; nothing else changes.
   */
  function Step(st: ScanState, line: Line): (r: ScanState)
    requires st.left <= st.result.Keys
    ensures r.result.Keys == st.result.Keys
    ensures r.left <= st.left
    ensures forall a :: a in st.result && a !in st.left ==> r.result[a] == st.result[a]
    ensures forall a :: a in st.left ==>
      (a in r.left <==> !Contains(line.network, a)) &&
      r.result[a] == (if Contains(line.network, a) then line.country else st.result[a])
  {
    var matched := set a | a in st.left && Contains(line.network, a);
    ScanState(map a | a in st.result :: if a in matched then line.country else st.result[a],
              st.left - matched)
  }

  /** Reading every line to the end, without the early return. */
  function Scan(st: ScanState, lines: seq<Line>): (r: ScanState)
    requires st.left <= st.result.Keys
    ensures r.left <= r.result.Keys
    ensures r.result.Keys == st.result.Keys
    decreases |lines|
  {
    if |lines| == 0 then st else Scan(Step(st, lines[0]), lines[1..])
  }

  // ---------------------------------------------------------------------
  // Reference: the label of the first containing network.

  /** The label of the first line whose network contains `a`, if any. */
  function FirstLine(lines: seq<Line>, a: Address): Option<string> {
    if |lines| == 0 then None
    else if Contains(lines[0].network, a) then Some(lines[0].country)
    else FirstLine(lines[1..], a)
  }

  predicate AnyContains(networks: seq<Network>, a: Address) {
    exists k :: 0 <= k < |networks| && Contains(networks[k], a)
  }

  /** The label of the first regular file, in directory order, holding a network that contains `a`. */
  function FirstFile(entries: seq<DirEntry>, a: Address): Option<string> {
    if |entries| == 0 then None
    else if entries[0].isFile && AnyContains(entries[0].networks, a) then Some(entries[0].stem)
    else FirstFile(entries[1..], a)
  }

  /** The label a pass should give `a`: the first containing file's, or unknown. */
  function Expected(entries: seq<DirEntry>, a: Address): string {
    FirstFile(entries, a).GetOr(Unknown)
  }

  /**
   * The result of one pass: exactly the targets as keys, each mapped to the
   * label of the first file containing it, or to the unknown label.
   */
  function Classify(targets: set<Address>, entries: seq<DirEntry>): (r: map<Address, string>)
    ensures r.Keys == targets
    ensures forall a :: a in targets ==> r[a] == Expected(entries, a)
  {
    ScanFindsFirst(targets, [], Lines(entries), Init(targets));
    assert [] + Lines(entries) == Lines(entries);
    LinesFirstIsFileFirst(entries);
    Scan(Init(targets), Lines(entries)).result
  }

  // ---------------------------------------------------------------------
  // Lemmas.

  lemma {:induction false} FirstLineConcat(xs: seq<Line>, ys: seq<Line>, a: Address)
    ensures FirstLine(xs + ys, a) == if FirstLine(xs, a).Some? then FirstLine(xs, a) else FirstLine(ys, a)
  {
    if |xs| == 0 {
      assert xs + ys == ys;
    } else {
      assert (xs + ys)[1..] == xs[1..] + ys;
      FirstLineConcat(xs[1..], ys, a);
    }
  }

  lemma {:induction false} FirstLineTag(stem: string, networks: seq<Network>, a: Address)
    ensures FirstLine(Tag(stem, networks), a) == if AnyContains(networks, a) then Some(stem) else None
  {
    if |networks| > 0 {
      assert Tag(stem, networks)[1..] == Tag(stem, networks[1..]);
      FirstLineTag(stem, networks[1..], a);
      if !Contains(networks[0], a) && AnyContains(networks, a) {
        var k :| 0 <= k < |networks| && Contains(networks[k], a);
        assert Contains(networks[1..][k - 1], a);
      }
    }
  }

  /** Reading line by line finds the same first label as looking file by file. */
  lemma {:induction false} LinesFirstIsFileFirst(entries: seq<DirEntry>)
    ensures forall a :: FirstLine(Lines(entries), a) == FirstFile(entries, a)
  {
    if |entries| > 0 {
      LinesFirstIsFileFirst(entries[1..]);
      var e := entries[0];
      var head := if e.isFile then Tag(e.stem, e.networks) else [];
      forall a
        ensures FirstLine(Lines(entries), a) == FirstFile(entries, a)
      {
        FirstLineConcat(head, Lines(entries[1..]), a);
        if e.isFile {
          FirstLineTag(e.stem, e.networks, a);
        }
      }
    }
  }

  /**
   * What a scan state knows after reading `done`: the keys are the targets,
   * an address is unresolved exactly when no line so far contains it, and
   * its label is that of the first containing line (unknown otherwise).
   */
  ghost predicate Invariant(targets: set<Address>, done: seq<Line>, st: ScanState) {
    && st.result.Keys == targets
    && st.left <= targets
    && forall a :: a in targets ==>
         && (a in st.left <==> FirstLine(done, a).None?)
         && st.result[a] == FirstLine(done, a).GetOr(Unknown)
  }

  lemma StepKeepsInvariant(targets: set<Address>, done: seq<Line>, st: ScanState, line: Line)
    requires Invariant(targets, done, st)
    ensures Invariant(targets, done + [line], Step(st, line))
  {
    var r := Step(st, line);
    forall a | a in targets
      ensures a in r.left <==> FirstLine(done + [line], a).None?
      ensures r.result[a] == FirstLine(done + [line], a).GetOr(Unknown)
    {
      FirstLineConcat(done, [line], a);
      assert [line][1..] == [];
      assert FirstLine([line], a) == if Contains(line.network, a) then Some(line.country) else None;
    }
  }

  lemma {:induction false} ScanFindsFirst(targets: set<Address>, done: seq<Line>, rest: seq<Line>, st: ScanState)
    requires Invariant(targets, done, st)
    ensures Invariant(targets, done + rest, Scan(st, rest))
    decreases |rest|
  {
    if |rest| == 0 {
      assert done + rest == done;
    } else {
      StepKeepsInvariant(targets, done, st, rest[0]);
      assert done + rest == (done + [rest[0]]) + rest[1..];
      ScanFindsFirst(targets, done + [rest[0]], rest[1..], Step(st, rest[0]));
    }
  }

  /** Reading `xs` then `ys` is reading `xs + ys`. */
  lemma {:induction false} ScanConcat(st: ScanState, xs: seq<Line>, ys: seq<Line>)
    requires st.left <= st.result.Keys
    ensures Scan(st, xs + ys) == Scan(Scan(st, xs), ys)
    decreases |xs|
  {
    if |xs| == 0 {
      assert xs + ys == ys;
    } else {
      assert (xs + ys)[1..] == xs[1..] + ys;
      ScanConcat(Step(st, xs[0]), xs[1..], ys);
    }
  }

  /** Reading lines only ever shrinks the unresolved set. */
  lemma {:induction false} ScanShrinks(st: ScanState, lines: seq<Line>)
    requires st.left <= st.result.Keys
    ensures Scan(st, lines).left <= st.left
    decreases |lines|
  {
    if |lines| > 0 {
      ScanShrinks(Step(st, lines[0]), lines[1..]);
    }
  }

  /** Once nothing is unresolved, further lines change nothing. */
  lemma {:induction false} ScanResolved(st: ScanState, lines: seq<Line>)
    requires st.left <= st.result.Keys
    requires st.left == {}
    ensures Scan(st, lines) == st
    decreases |lines|
  {
    if |lines| > 0 {
      assert Step(st, lines[0]) == st;
      ScanResolved(st, lines[1..]);
    }
  }

  /** The lines read from entry `i` onwards: those of entry `i`, then the rest. */
  lemma LinesFrom(entries: seq<DirEntry>, i: nat)
    requires i < |entries|
    ensures entries[i].isFile ==> Lines(entries[i..]) == Tag(entries[i].stem, entries[i].networks) + Lines(entries[i + 1..])
    ensures !entries[i].isFile ==> Lines(entries[i..]) == Lines(entries[i + 1..])
  {
    assert entries[i..][1..] == entries[i + 1..];
    if !entries[i].isFile {
      assert [] + Lines(entries[i + 1..]) == Lines(entries[i + 1..]);
    }
  }

  /** Line `j` of a file's block sits at offset `j` from where the block starts. */
  lemma TagAt(all: seq<Line>, start: nat, stem: string, networks: seq<Network>, rest: seq<Line>, j: nat)
    requires start <= |all| && all[start..] == Tag(stem, networks) + rest
    requires j < |networks|
    ensures start + j < |all| && all[start + j] == Line(stem, networks[j])
  {
    assert all[start..][j] == Line(stem, networks[j]);
  }

  /** What follows a file's block is the rest of the lines. */
  lemma TagPast(all: seq<Line>, start: nat, stem: string, networks: seq<Network>, rest: seq<Line>)
    requires start <= |all| && all[start..] == Tag(stem, networks) + rest
    ensures start + |networks| <= |all| && all[start + |networks|..] == rest
  {
    assert all[start + |networks|..] == all[start..][|networks|..];
  }

  /** Reading one more line of `all`. */
  lemma {:induction false} ScanAdvance(st: ScanState, all: seq<Line>, n: nat)
    requires st.left <= st.result.Keys
    requires 0 < n <= |all|
    ensures Scan(st, all[..n]) == Step(Scan(st, all[..n - 1]), all[n - 1])
  {
    assert all[..n] == all[..n - 1] + [all[n - 1]];
    ScanConcat(st, all[..n - 1], [all[n - 1]]);
    assert [all[n - 1]][1..] == [];
  }

  /** Once a prefix of `all` resolves everything, reading the rest changes nothing. */
  lemma {:induction false} ScanStopsEarly(st: ScanState, all: seq<Line>, n: nat)
    requires st.left <= st.result.Keys
    requires n <= |all|
    requires Scan(st, all[..n]).left == {}
    ensures Scan(st, all) == Scan(st, all[..n])
  {
    var pre, post := all[..n], all[n..];
    assert pre + post == all;
    ScanConcat(st, pre, post);
    ScanResolved(Scan(st, pre), post);
  }

  /** The state after reading the first `n` lines of `all`, one line at a time. */
  ghost function Prefix(targets: set<Address>, all: seq<Line>, n: nat): (r: ScanState)
    requires n <= |all|
    ensures r.left <= r.result.Keys == targets
  {
    if n == 0 then Init(targets) else Step(Prefix(targets, all, n - 1), all[n - 1])
  }

  /** Reading the first `n` lines one at a time is scanning that prefix. */
  lemma {:induction false} PrefixIsScan(targets: set<Address>, all: seq<Line>, n: nat)
    requires n <= |all|
    ensures Prefix(targets, all, n) == Scan(Init(targets), all[..n])
  {
    if n > 0 {
      PrefixIsScan(targets, all, n - 1);
      ScanAdvance(Init(targets), all, n);
    }
  }

  /**
   * What the pass has established after reading the first `inspected` lines
   * of `all` without returning: `st` is the state those lines produce, and
   * (when there are targets at all) something is still unresolved.
   */
  ghost predicate Progress(targets: set<Address>, all: seq<Line>, inspected: nat, st: ScanState) {
    && inspected <= |all|
    && st == Prefix(targets, all, inspected)
    && (targets != {} ==> st.left != {})
  }

  /**
   * The pass has returned early after reading the first `inspected` lines
   * of `all`: the line just read resolved the last target.
   */
  ghost predicate Stopped(targets: set<Address>, all: seq<Line>, inspected: nat, st: ScanState) {
    && 0 < inspected <= |all|
    && st == Prefix(targets, all, inspected)
    && st.left == {}
    && targets != {}
    && Prefix(targets, all, inspected - 1).left != {}
  }

  /**
   * Reading line `n`: the addresses it contains are resolved; `done` says
   * this line resolved the last of them, which is when the pass returns.
   */
  method ReadNext(ghost targets: set<Address>, ghost all: seq<Line>, ghost n: nat, st: ScanState, line: Line)
    returns (next: ScanState, done: bool)
    requires Progress(targets, all, n, st)
    requires n < |all| && all[n] == line
    ensures done ==> Stopped(targets, all, n + 1, next)
    ensures !done ==> Progress(targets, all, n + 1, next)
  {
    var before := st.left;
    next := Step(st, line);
    assert next == Prefix(targets, all, n + 1);
    done := before != {} && next.left == {};
  }

  /**
   * The line loop over one regular file: each network line resolves the
   * unresolved targets it contains; `stopped` reports the early return.
   */
  method ReadFile(ghost targets: set<Address>, ghost all: seq<Line>, ghost rest: seq<Line>,
                  stem: string, networks: seq<Network>, st0: ScanState, start: nat)
    returns (st: ScanState, inspected: nat, stopped: bool)
    requires Progress(targets, all, start, st0)
    requires all[start..] == Tag(stem, networks) + rest
    ensures stopped ==> Stopped(targets, all, inspected, st)
    ensures !stopped ==> Progress(targets, all, inspected, st) && all[inspected..] == rest
  {
    st, inspected, stopped := st0, start, false;
    var j := 0;
    while j < |networks|
      invariant 0 <= j <= |networks|
      invariant inspected == start + j
      invariant Progress(targets, all, inspected, st)
    {
      TagAt(all, start, stem, networks, rest, j);
      var done;
      st, done := ReadNext(targets, all, inspected, st, Line(stem, networks[j]));
      inspected := inspected + 1;
      if done {
        return st, inspected, true;
      }
      j := j + 1;
    }
    TagPast(all, start, stem, networks, rest);
  }

  /** Where the pass may end, its result is that of the full scan. */
  lemma {:induction false} PassResult(targets: set<Address>, entries: seq<DirEntry>, inspected: nat, st: ScanState)
    requires
      || Stopped(targets, Lines(entries), inspected, st)
      || (Progress(targets, Lines(entries), inspected, st) && inspected == |Lines(entries)|)
    ensures st.result == Classify(targets, entries)
    ensures st.result.Keys == targets
    ensures forall a :: a in targets ==> st.result[a] == Expected(entries, a)
    ensures StopsWhenFound(targets, Lines(entries), inspected)
  {
    var all := Lines(entries);
    PrefixIsScan(targets, all, inspected);
    if Stopped(targets, all, inspected, st) {
      PrefixIsScan(targets, all, inspected - 1);
      StoppedAt(targets, all, inspected);
    } else {
      assert all[..inspected] == all;
      FinishedAt(targets, all);
    }
  }

  /** A pass that returns right after line `n` resolved the last target has the full scan's result. */
  lemma {:induction false} StoppedAt(targets: set<Address>, all: seq<Line>, n: nat)
    requires 0 < n <= |all| && targets != {}
    requires Scan(Init(targets), all[..n]).left == {}
    requires Scan(Init(targets), all[..n - 1]).left != {}
    ensures Scan(Init(targets), all) == Scan(Init(targets), all[..n])
    ensures StopsWhenFound(targets, all, n)
  {
    ScanStopsEarly(Init(targets), all, n);
    ResolvedIffFound(targets, all[..n]);
    ResolvedIffFound(targets, all[..n - 1]);
  }

  /** A pass that reads every line without resolving everything never stopped too late. */
  lemma {:induction false} FinishedAt(targets: set<Address>, all: seq<Line>)
    requires targets != {} ==> Scan(Init(targets), all).left != {}
    ensures StopsWhenFound(targets, all, |all|)
  {
    var n := |all|;
    if 0 < n && targets != {} {
      var pre, post := all[..n - 1], all[n - 1..];
      assert pre + post == all;
      ScanConcat(Init(targets), pre, post);
      ScanShrinks(Scan(Init(targets), pre), post);
      ResolvedIffFound(targets, pre);
    }
  }

  /**
   * Where a pass over `all` that read `inspected` lines may stop: at the end,
   * or earlier only when there are targets and every one has been found;
   * and, when there are targets, never after the line that found the last
   * of them. With no targets at all, every line is read.
   */
  predicate StopsWhenFound(targets: set<Address>, all: seq<Line>, inspected: nat) {
    && inspected <= |all|
    && (inspected < |all| ==> targets != {} && Found(targets, all[..inspected]))
    && (0 < inspected && targets != {} ==> !Found(targets, all[..inspected - 1]))
  }

  /** With no targets the pass never returns early: it reads every line. */
  lemma NoTargetsReadsAll(all: seq<Line>, inspected: nat)
    requires StopsWhenFound({}, all, inspected)
    ensures inspected == |all|
  {
  }

  /** Every target is contained in some network of `lines`. */
  predicate Found(targets: set<Address>, lines: seq<Line>) {
    forall a :: a in targets ==> FirstLine(lines, a).Some?
  }

  /** The scan has nothing left unresolved exactly when every target has been found. */
  lemma ResolvedIffFound(targets: set<Address>, lines: seq<Line>)
    ensures Scan(Init(targets), lines).left == {} <==> Found(targets, lines)
  {
    ScanFindsFirst(targets, [], lines, Init(targets));
    assert [] + lines == lines;
    var left := Scan(Init(targets), lines).left;
    if left != {} {
      var a :| a in left;
      assert FirstLine(lines, a).None?;
    }
  }

  /**
   * The pass as the source runs it: directory entries in order, skipping
   * what is not a regular file, lines in order, and a return as soon as a
   * line resolves the last unresolved target. `inspected` counts the
   * network lines read. The result is that of reading every line to the end;
   * the pass stops before the last line only once every target has been
   * found, and it never reads a line after the one that found the last target.
   */
  method Geoip(targets: set<Address>, entries: seq<DirEntry>) returns (r: map<Address, string>, inspected: nat)
    ensures r == Classify(targets, entries)
    ensures r.Keys == targets
    ensures forall a :: a in targets ==> r[a] == Expected(entries, a)
    ensures StopsWhenFound(targets, Lines(entries), inspected)
  {
    ghost var all := Lines(entries);
    var st := Init(targets);
    inspected := 0;
    var i := 0;
    assert entries[0..] == entries && all[0..] == all;
    while i < |entries|
      invariant 0 <= i <= |entries|
      invariant Progress(targets, all, inspected, st)
      invariant all[inspected..] == Lines(entries[i..])
    {
      var e := entries[i];
      LinesFrom(entries, i);
      if e.isFile {
        var stopped;
        st, inspected, stopped := ReadFile(targets, all, Lines(entries[i + 1..]), e.stem, e.networks, st, inspected);
        if stopped {
          PassResult(targets, entries, inspected, st);
          return st.result, inspected;
        }
      }
      i := i + 1;
    }
    assert entries[i..] == [];
    assert all[..inspected] == all;
    PassResult(targets, entries, inspected, st);
    r := st.result;
  }

  /** `8.8.8.8` against `US` holding `8.8.8.0/24` and `JP` holding `1.1.1.0/24` is labelled `US`. */
  lemma ClassifyExample()
    ensures var a := Address(V4, 0x08080808);
      var us := DirEntry("US", true, [Network(V4, 0x08080800, 24)]);
      var jp := DirEntry("JP", true, [Network(V4, 0x01010100, 24)]);
      Classify({a}, [us, jp]) == map[a := "US"]
  {
    var a := Address(V4, 0x08080808);
    var us := DirEntry("US", true, [Network(V4, 0x08080800, 24)]);
    var jp := DirEntry("JP", true, [Network(V4, 0x01010100, 24)]);
    GoogleDnsExample();
    assert AnyContains(us.networks, a) by {
      assert Contains(us.networks[0], a);
    }
    assert Expected([us, jp], a) == "US";
  }
}
