/**
 * What `handle_archive` promises, proved about the scan functions of
 * module Archive: headers are visited in increasing record order and each
 * is validated before it is acted on; the output is the entries' effects
 * in archive order; found_files holds exactly the wanted names seen; the
 * not-found report names exactly the requested names that no header
 * carries; and an "Unexpected EOF" at the end means the last entry runs
 * past the buffer.
 */
module ScanProperties {
  import opened TarFormat
  import opened Archive

  predicate StrictlyIncreasing(s: seq<nat>)
  {
    forall i, j :: 0 <= i < j < |s| ==> s[i] < s[j]
  }

  /** The entries of `v` from position `k` on are record indices inside the buffer. */
  predicate RecordsFrom(buf: Bytes, v: seq<nat>, k: nat)
  {
    forall i :: k <= i < |v| ==> v[i] < RecordCount(buf)
  }

  /** The names of the headers `v[k..n]` that pass the filter, in order. */
  function WantedNamesFrom(buf: Bytes, requested: seq<Bytes>, v: seq<nat>, k: nat, n: nat): seq<Bytes>
    requires RecordsFrom(buf, v, k) && n <= |v|
    decreases n - k
  {
    if k >= n then []
    else
      var name := HeaderAt(buf, v[k]).name;
      (if Wanted(requested, name) then [name] else []) + WantedNamesFrom(buf, requested, v, k + 1, n)
  }

  /** The effects of acting on the wanted entries among the headers `v[k..n]`, in order. */
  function ScanEffectsFrom(buf: Bytes, cfg: Config, v: seq<nat>, k: nat, n: nat): seq<Effect>
    requires RecordsFrom(buf, v, k) && n <= |v|
    decreases n - k
  {
    if k >= n then []
    else
      (if Wanted(cfg.requested, HeaderAt(buf, v[k]).name) then EntryEffects(buf, v[k], cfg) else [])
      + ScanEffectsFrom(buf, cfg, v, k + 1, n)
  }

  lemma AppendAssociative<T>(a: seq<T>, b: seq<T>, c: seq<T>)
    ensures (a + b) + c == a + (b + c)
  {
  }

  /** `RecordsFrom` extended by one record in front. */
  lemma RecordsFromExtend(buf: Bytes, v: seq<nat>, k: nat)
    requires RecordsFrom(buf, v, k + 1) && k < |v| && v[k] < RecordCount(buf)
    ensures RecordsFrom(buf, v, k)
  {
  }

  /** `ScanEffectsFrom` with its first entry moved onto the output before it. */
  lemma EffectsInFront(buf: Bytes, cfg: Config, v: seq<nat>, k: nat, n: nat, output: seq<Effect>)
    requires RecordsFrom(buf, v, k) && k < n <= |v|
    ensures var acted := if Wanted(cfg.requested, HeaderAt(buf, v[k]).name) then EntryEffects(buf, v[k], cfg) else [];
      output + ScanEffectsFrom(buf, cfg, v, k, n) == (output + acted) + ScanEffectsFrom(buf, cfg, v, k + 1, n)
  {
    var acted := if Wanted(cfg.requested, HeaderAt(buf, v[k]).name) then EntryEffects(buf, v[k], cfg) else [];
    AppendAssociative(output, acted, ScanEffectsFrom(buf, cfg, v, k + 1, n));
  }

  /** `WantedNamesFrom` with its first name moved onto the list before it. */
  lemma WantedNamesInFront(buf: Bytes, requested: seq<Bytes>, v: seq<nat>, k: nat, n: nat, found: seq<Bytes>)
    requires RecordsFrom(buf, v, k) && k < n <= |v|
    ensures var name := HeaderAt(buf, v[k]).name;
      found + WantedNamesFrom(buf, requested, v, k, n) == (found + (if Wanted(requested, name) then [name] else [])) + WantedNamesFrom(buf, requested, v, k + 1, n)
  {
    var name := HeaderAt(buf, v[k]).name;
    AppendAssociative(found, if Wanted(requested, name) then [name] else [], WantedNamesFrom(buf, requested, v, k + 1, n));
  }

  /** The scan only appends to the headers it was given, and only records inside the buffer. */
  lemma {:induction false} ScanExtendsVisited(buf: Bytes, cur: nat, cfg: Config, st: ScanState)
    ensures var v := ScanFrom(buf, cur, cfg, st).state.visited;
      st.visited <= v && RecordsFrom(buf, v, |st.visited|)
    decreases RecordCount(buf) - cur
  {
    if cur < RecordCount(buf) && !AtEndOfBuffer(buf, cur) {
      var s := EntryStep(buf, cur, cfg, st);
      if s.Advance? {
        ScanExtendsVisited(buf, s.next, cfg, s.state);
      }
    }
  }

  /** One step of the ordering argument, on sequences alone. */
  lemma VisitedExtends(prev: seq<nat>, cur: nat, next: nat, v: seq<nat>, end: nat)
    requires cur < end && cur < next
    requires prev + [cur] <= v
    requires forall i :: |prev| + 1 <= i < |v| ==> next <= v[i] < end
    ensures forall i :: |prev| <= i < |v| ==> cur <= v[i] < end
  {
    assert v[|prev|] == cur;
  }

  /**
   * The headers the scan visits lie at strictly increasing record indices
   * from `cur` on, all inside the buffer: the record iterator only moves
   * forward.
   */
  lemma {:induction false} ScanVisitsInOrder(buf: Bytes, cur: nat, cfg: Config, st: ScanState)
    requires StrictlyIncreasing(st.visited)
    requires forall i :: 0 <= i < |st.visited| ==> st.visited[i] < cur
    ensures var v := ScanFrom(buf, cur, cfg, st).state.visited;
      && StrictlyIncreasing(v)
      && forall i :: |st.visited| <= i < |v| ==> cur <= v[i] < RecordCount(buf)
    decreases RecordCount(buf) - cur
  {
    if cur < RecordCount(buf) && !AtEndOfBuffer(buf, cur) {
      var s := EntryStep(buf, cur, cfg, st);
      if s.Advance? {
        ScanVisitsInOrder(buf, s.next, cfg, s.state);
        ScanExtendsVisited(buf, s.next, cfg, s.state);
        VisitedExtends(st.visited, cur, s.next, ScanFrom(buf, s.next, cfg, s.state).state.visited, RecordCount(buf));
      }
    }
  }

  /**
   * Every header the scan visits met the loop condition (it is a whole
   * record and not an end record) and is validated before it is acted on:
   * all of them pass the header checks, except the last one when the scan
   * is aborted.
   */
  lemma {:induction false} ScanValidatesBeforeActing(buf: Bytes, cur: nat, cfg: Config, st: ScanState)
    ensures var r := ScanFrom(buf, cur, cfg, st);
      var v := r.state.visited;
      && (forall i :: |st.visited| <= i < |v| ==> v[i] < RecordCount(buf) && !AtEndOfBuffer(buf, v[i]))
      && (forall i :: |st.visited| <= i < |v| && (i + 1 < |v| || r.end.EndOfScan?) ==> HeaderCheck(buf, v[i]).Pass?)
    decreases RecordCount(buf) - cur
  {
    if cur < RecordCount(buf) && !AtEndOfBuffer(buf, cur) {
      var s := EntryStep(buf, cur, cfg, st);
      if s.Advance? {
        ScanValidatesBeforeActing(buf, s.next, cfg, s.state);
        ScanExtendsVisited(buf, s.next, cfg, s.state);
        assert ScanFrom(buf, s.next, cfg, s.state).state.visited[|st.visited|] == cur;
      }
    }
  }

  /**
   * Of a scan begun with the headers `st.visited` behind it and ended as `r`:
   * when it visits `n + 1` headers and the last, `v[n]`, fails the header
   * checks, the run stops with that header's error.
   */
  predicate StopsAtFailedHeader(buf: Bytes, st: ScanState, r: ScanResult, n: nat)
  {
    var v, k := r.state.visited, |st.visited|;
    && RecordsFrom(buf, v, k)
    && (|v| == n + 1 && k <= n && HeaderCheck(buf, v[n]).Stop? ==> r.end == ScanAborted(HeaderCheck(buf, v[n]).abort))
  }

  lemma {:induction false} FailedHeaderStops(buf: Bytes, cur: nat, cfg: Config, st: ScanState, n: nat)
    ensures StopsAtFailedHeader(buf, st, ScanFrom(buf, cur, cfg, st), n)
    decreases RecordCount(buf) - cur
  {
    ScanExtendsVisited(buf, cur, cfg, st);
    if cur < RecordCount(buf) && !AtEndOfBuffer(buf, cur) {
      var s := EntryStep(buf, cur, cfg, st);
      if s.Advance? {
        FailedHeaderStops(buf, s.next, cfg, s.state, n);
        ScanExtendsVisited(buf, s.next, cfg, s.state);
      }
    }
  }

  /**
   * Of a scan begun with output `st.output` and ended as `r`: when it visits
   * `n + 1` headers and the last fails the header checks, the output holds
   * only the effects of the wanted entries among the headers before it.
   */
  predicate PrintsBeforeFailedHeader(buf: Bytes, cfg: Config, st: ScanState, r: ScanResult, n: nat)
  {
    var v, k := r.state.visited, |st.visited|;
    && RecordsFrom(buf, v, k)
    && (|v| == n + 1 && k <= n && HeaderCheck(buf, v[n]).Stop? ==>
          r.state.output == st.output + ScanEffectsFrom(buf, cfg, v, k, n))
  }

  /** The step of the induction below: one more passed header in front. */
  lemma PrintsBeforeFailedHeaderStep(buf: Bytes, cfg: Config, st: ScanState, st': ScanState, cur: nat, r: ScanResult, n: nat)
    requires cur < RecordCount(buf) && HeaderCheck(buf, cur).Pass?
    requires st'.visited == st.visited + [cur]
    requires st'.output == st.output + (if Wanted(cfg.requested, HeaderAt(buf, cur).name) then EntryEffects(buf, cur, cfg) else [])
    requires |r.state.visited| > |st.visited| && r.state.visited[|st.visited|] == cur
    requires PrintsBeforeFailedHeader(buf, cfg, st', r, n)
    ensures PrintsBeforeFailedHeader(buf, cfg, st, r, n)
  {
    var v, k := r.state.visited, |st.visited|;
    RecordsFromExtend(buf, v, k);
    if |v| == n + 1 && k <= n && HeaderCheck(buf, v[n]).Stop? {
      assert k < n;
      EffectsInFront(buf, cfg, v, k, n, st.output);
    }
  }

  lemma {:induction false} FailedHeaderPrintsNothing(buf: Bytes, cur: nat, cfg: Config, st: ScanState, n: nat)
    ensures PrintsBeforeFailedHeader(buf, cfg, st, ScanFrom(buf, cur, cfg, st), n)
    decreases RecordCount(buf) - cur
  {
    ScanExtendsVisited(buf, cur, cfg, st);
    if cur < RecordCount(buf) && !AtEndOfBuffer(buf, cur) {
      var s := EntryStep(buf, cur, cfg, st);
      if s.Advance? {
        FailedHeaderPrintsNothing(buf, s.next, cfg, s.state, n);
        ScanExtendsVisited(buf, s.next, cfg, s.state);
        var r := ScanFrom(buf, s.next, cfg, s.state);
        assert r.state.visited[|st.visited|] == cur;
        PrintsBeforeFailedHeaderStep(buf, cfg, st, s.state, cur, r, n);
      }
    }
  }

  /**
   * Of a scan begun with `st.found` and ended as `r`: when it visits `n + 1`
   * headers and the last fails the header checks, found_files holds only
   * the wanted names among the headers before it.
   */
  predicate StoresBeforeFailedHeader(buf: Bytes, cfg: Config, st: ScanState, r: ScanResult, n: nat)
  {
    var v, k := r.state.visited, |st.visited|;
    && RecordsFrom(buf, v, k)
    && (|v| == n + 1 && k <= n && HeaderCheck(buf, v[n]).Stop? ==>
          r.state.found == st.found + (if cfg.handleAll then [] else WantedNamesFrom(buf, cfg.requested, v, k, n)))
  }

  /** The step of the induction below: one more passed header in front. */
  lemma StoresBeforeFailedHeaderStep(buf: Bytes, cfg: Config, st: ScanState, st': ScanState, cur: nat, r: ScanResult, n: nat)
    requires cur < RecordCount(buf) && HeaderCheck(buf, cur).Pass?
    requires st'.visited == st.visited + [cur]
    requires var name := HeaderAt(buf, cur).name;
      st'.found == st.found + (if Wanted(cfg.requested, name) && !cfg.handleAll then [name] else [])
    requires |r.state.visited| > |st.visited| && r.state.visited[|st.visited|] == cur
    requires StoresBeforeFailedHeader(buf, cfg, st', r, n)
    ensures StoresBeforeFailedHeader(buf, cfg, st, r, n)
  {
    var v, k := r.state.visited, |st.visited|;
    RecordsFromExtend(buf, v, k);
    if |v| == n + 1 && k <= n && HeaderCheck(buf, v[n]).Stop? && !cfg.handleAll {
      assert k < n;
      WantedNamesInFront(buf, cfg.requested, v, k, n, st.found);
    }
  }

  lemma {:induction false} FailedHeaderStoresNothing(buf: Bytes, cur: nat, cfg: Config, st: ScanState, n: nat)
    ensures StoresBeforeFailedHeader(buf, cfg, st, ScanFrom(buf, cur, cfg, st), n)
    decreases RecordCount(buf) - cur
  {
    ScanExtendsVisited(buf, cur, cfg, st);
    if cur < RecordCount(buf) && !AtEndOfBuffer(buf, cur) {
      var s := EntryStep(buf, cur, cfg, st);
      if s.Advance? {
        FailedHeaderStoresNothing(buf, s.next, cfg, s.state, n);
        ScanExtendsVisited(buf, s.next, cfg, s.state);
        var r := ScanFrom(buf, s.next, cfg, s.state);
        assert r.state.visited[|st.visited|] == cur;
        StoresBeforeFailedHeaderStep(buf, cfg, st, s.state, cur, r, n);
      }
    }
  }

  /**
   * A header that fails the header checks is never listed, extracted or
   * stored: when the scan visits `n + 1` headers and the last fails them,
   * the run stops with its error, and the output and found_files are those
   * of the wanted entries among the headers before it.
   * (`ScanValidatesBeforeActing`: only the last header can fail them.)
   */
  lemma FailedHeaderIsNotActedOn(buf: Bytes, cfg: Config, st: ScanState, n: nat)
    ensures var r := ScanFrom(buf, 0, cfg, st);
      && StopsAtFailedHeader(buf, st, r, n)
      && PrintsBeforeFailedHeader(buf, cfg, st, r, n)
      && StoresBeforeFailedHeader(buf, cfg, st, r, n)
  {
    FailedHeaderStops(buf, 0, cfg, st, n);
    FailedHeaderPrintsNothing(buf, 0, cfg, st, n);
    FailedHeaderStoresNothing(buf, 0, cfg, st, n);
  }

  /**
   * A scan that reaches the end of the archive has produced exactly the
   * effects of the wanted entries among the headers it visited, in the
   * order of the archive.
   */
  lemma {:induction false} ScanOutput(buf: Bytes, cur: nat, cfg: Config, st: ScanState)
    ensures var r := ScanFrom(buf, cur, cfg, st);
      var v := r.state.visited;
      && RecordsFrom(buf, v, |st.visited|)
      && (r.end.EndOfScan? ==> r.state.output == st.output + ScanEffectsFrom(buf, cfg, v, |st.visited|, |v|))
    decreases RecordCount(buf) - cur
  {
    ScanExtendsVisited(buf, cur, cfg, st);
    if cur < RecordCount(buf) && !AtEndOfBuffer(buf, cur) {
      var s := EntryStep(buf, cur, cfg, st);
      if s.Advance? {
        ScanOutput(buf, s.next, cfg, s.state);
        ScanExtendsVisited(buf, s.next, cfg, s.state);
        var r := ScanFrom(buf, s.next, cfg, s.state);
        var v, k := r.state.visited, |st.visited|;
        assert v[k] == cur;
        if r.end.EndOfScan? {
          var name := HeaderAt(buf, cur).name;
          var acted := if Wanted(cfg.requested, name) then EntryEffects(buf, cur, cfg) else [];
          AppendAssociative(st.output, acted, ScanEffectsFrom(buf, cfg, v, k + 1, |v|));
        }
      }
    }
  }

  /**
   * A scan that reaches the end of the archive has stored in found_files
   * exactly the names of the wanted entries it visited, in archive order,
   * and nothing when handle_all_files is set.
   */
  lemma {:induction false} ScanFound(buf: Bytes, cur: nat, cfg: Config, st: ScanState)
    ensures var r := ScanFrom(buf, cur, cfg, st);
      var v := r.state.visited;
      && RecordsFrom(buf, v, |st.visited|)
      && (r.end.EndOfScan? ==>
            r.state.found == st.found + (if cfg.handleAll then [] else WantedNamesFrom(buf, cfg.requested, v, |st.visited|, |v|)))
    decreases RecordCount(buf) - cur
  {
    ScanExtendsVisited(buf, cur, cfg, st);
    if cur < RecordCount(buf) && !AtEndOfBuffer(buf, cur) {
      var s := EntryStep(buf, cur, cfg, st);
      if s.Advance? {
        ScanFound(buf, s.next, cfg, s.state);
        ScanExtendsVisited(buf, s.next, cfg, s.state);
        var r := ScanFrom(buf, s.next, cfg, s.state);
        var v, k := r.state.visited, |st.visited|;
        assert v[k] == cur;
        if r.end.EndOfScan? && !cfg.handleAll {
          var name := HeaderAt(buf, cur).name;
          var here := if Wanted(cfg.requested, name) then [name] else [];
          var later := WantedNamesFrom(buf, cfg.requested, v, k + 1, |v|);
          AppendAssociative(st.found, here, later);
        }
      }
    }
  }

  /** The names of the headers `v[k..]`, in order. */
  function VisitedNames(buf: Bytes, v: seq<nat>, k: nat): seq<Bytes>
    requires RecordsFrom(buf, v, k)
    decreases |v| - k
  {
    if k >= |v| then [] else [HeaderAt(buf, v[k]).name] + VisitedNames(buf, v, k + 1)
  }

  /** A name is among the wanted names of `v[k..]` exactly when it is wanted and some header there carries it. */
  lemma {:induction false} WantedNamesMembership(buf: Bytes, requested: seq<Bytes>, v: seq<nat>, k: nat, x: Bytes)
    requires RecordsFrom(buf, v, k)
    ensures x in WantedNamesFrom(buf, requested, v, k, |v|) <==> Wanted(requested, x) && x in VisitedNames(buf, v, k)
    decreases |v| - k
  {
    if k < |v| {
      WantedNamesMembership(buf, requested, v, k + 1, x);
    }
  }

  /** The scan that `handle_archive` starts: nothing found, printed or visited yet. */
  const Fresh := ScanState([], [], [])

  /**
   * With found_files holding the wanted names of the visited headers, a
   * requested name is missing exactly when no visited header carries it.
   */
  lemma MissingAreUnseen(buf: Bytes, requested: seq<Bytes>, v: seq<nat>, found: seq<Bytes>)
    requires RecordsFrom(buf, v, 0)
    requires found == WantedNamesFrom(buf, requested, v, 0, |v|)
    ensures forall x :: x in Missing(requested, found) <==> x in requested && x !in VisitedNames(buf, v, 0)
  {
    MissingMembers(requested, found);
    forall x | x in requested
      ensures x in found <==> x in VisitedNames(buf, v, 0)
    {
      WantedNamesMembership(buf, requested, v, 0, x);
    }
  }

  /**
   * When a name filter is in force and the scan reaches the end of the
   * archive, `handle_archive` reports, right after the scan's own output,
   * exactly the requested names that no visited header carries, and the
   * return code becomes 2 exactly when there is such a name (or it was 2
   * already).
   */
  lemma ReportsUnseenNames(buf: Bytes, cfg: Config, returnCode: int)
    requires !cfg.handleAll
    ensures var scan := ScanFrom(buf, 0, cfg, Fresh);
      var v := scan.state.visited;
      var missing := Missing(cfg.requested, scan.state.found);
      var run := HandleArchiveRun(buf, cfg, Fresh, returnCode);
      scan.end.EndOfScan? ==>
        && RecordsFrom(buf, v, 0)
        && (forall x :: x in missing <==> x in cfg.requested && x !in VisitedNames(buf, v, 0))
        && scan.state.output + NotFoundReports(missing) <= run.state.output
        && (run.returnCode == FatalExitCode <==> returnCode == FatalExitCode || missing != [])
  {
    var scan := ScanFrom(buf, 0, cfg, Fresh);
    ScanFound(buf, 0, cfg, Fresh);
    if scan.end.EndOfScan? {
      MissingAreUnseen(buf, cfg.requested, scan.state.visited, scan.state.found);
    }
  }

  /**
   * A scan result `r` that reaches the end stops at `cur` when it visited
   * nothing beyond the first `k` headers, and otherwise just after the last
   * entry it visited, whose header passed the checks.
   */
  predicate StopsAfterLastEntry(buf: Bytes, r: ScanResult, cur: nat, k: nat)
  {
    var v := r.state.visited;
    r.end.EndOfScan? ==>
      && (|v| == k ==> r.end.at == cur)
      && (|v| > k ==>
            v[|v| - 1] < RecordCount(buf) && HeaderCheck(buf, v[|v| - 1]).Pass? &&
            r.end.at == NextHeader(buf, v[|v| - 1]))
  }

  /** The step of the induction below, for any scan result. */
  lemma StopsAfterStep(buf: Bytes, prev: seq<nat>, cur: nat, r: ScanResult)
    requires cur < RecordCount(buf) && HeaderCheck(buf, cur).Pass?
    requires prev + [cur] <= r.state.visited
    requires StopsAfterLastEntry(buf, r, NextHeader(buf, cur), |prev| + 1)
    ensures StopsAfterLastEntry(buf, r, cur, |prev|)
  {
    var v := r.state.visited;
    if |v| == |prev| + 1 {
      assert v[|v| - 1] == cur;
    }
  }

  /**
   * Where a scan that reaches the end stops: on a record that ends it
   * (`buff_end` or beyond, or a null record), and, unless it stops where it
   * started, just after the last entry it visited.
   */
  lemma {:induction false} ScanStopsAfterLastEntry(buf: Bytes, cur: nat, cfg: Config, st: ScanState)
    ensures StopsAfterLastEntry(buf, ScanFrom(buf, cur, cfg, st), cur, |st.visited|)
    decreases RecordCount(buf) - cur
  {
    if cur < RecordCount(buf) && !AtEndOfBuffer(buf, cur) {
      var s := EntryStep(buf, cur, cfg, st);
      if s.Advance? {
        ScanStopsAfterLastEntry(buf, s.next, cfg, s.state);
        ScanExtendsVisited(buf, s.next, cfg, s.state);
        StopsAfterStep(buf, st.visited, cur, ScanFrom(buf, s.next, cfg, s.state));
      }
    }
  }

  /** A scan that reaches the end stops on a record that ends it: `buff_end` or beyond, or a null record. */
  lemma {:induction false} ScanEndsOnEndRecord(buf: Bytes, cur: nat, cfg: Config, st: ScanState)
    ensures var r := ScanFrom(buf, cur, cfg, st);
      r.end.EndOfScan? ==> AtEndOfBuffer(buf, r.end.at)
    decreases RecordCount(buf) - cur
  {
    if cur < RecordCount(buf) && !AtEndOfBuffer(buf, cur) {
      var s := EntryStep(buf, cur, cfg, st);
      if s.Advance? {
        ScanEndsOnEndRecord(buf, s.next, cfg, s.state);
      }
    }
  }

  /**
   * For a scan result `r` that reaches the end: if -x was extracting the
   * last entry it visited beyond the first `k`, that entry fits in the
   * buffer.
   */
  predicate LastEntryFits(buf: Bytes, cfg: Config, r: ScanResult, k: nat)
  {
    var v := r.state.visited;
    r.end.EndOfScan? && |v| > k && v[|v| - 1] < RecordCount(buf) &&
    cfg.extract && !cfg.list && Wanted(cfg.requested, HeaderAt(buf, v[|v| - 1]).name) ==>
      NextHeader(buf, v[|v| - 1]) <= RecordCount(buf)
  }

  /** The step of the induction below, for any scan result. */
  lemma LastEntryFitsStep(buf: Bytes, cfg: Config, prev: seq<nat>, cur: nat, r: ScanResult)
    requires cur < RecordCount(buf)
    requires Wanted(cfg.requested, HeaderAt(buf, cur).name) && cfg.extract && !cfg.list ==>
               NextHeader(buf, cur) <= RecordCount(buf)
    requires prev + [cur] <= r.state.visited
    requires LastEntryFits(buf, cfg, r, |prev| + 1)
    ensures LastEntryFits(buf, cfg, r, |prev|)
  {
    var v := r.state.visited;
    if |v| == |prev| + 1 {
      assert v[|v| - 1] == cur;
    }
  }

  /**
   * The last entry of a scan that reaches the end is not a wanted entry
   * that -x extracted past `buff_end`: `extract_file` stops on such an
   * entry.
   */
  lemma {:induction false} ScanLastEntryFits(buf: Bytes, cur: nat, cfg: Config, st: ScanState)
    ensures LastEntryFits(buf, cfg, ScanFrom(buf, cur, cfg, st), |st.visited|)
    decreases RecordCount(buf) - cur
  {
    if cur < RecordCount(buf) && !AtEndOfBuffer(buf, cur) {
      var s := EntryStep(buf, cur, cfg, st);
      if s.Advance? {
        ScanLastEntryFits(buf, s.next, cfg, s.state);
        ScanExtendsVisited(buf, s.next, cfg, s.state);
        LastEntryFitsStep(buf, cfg, st.visited, cur, ScanFrom(buf, s.next, cfg, s.state));
      }
    }
  }

  /**
   * A scan result `r` that stops past `buff_end` visited a header beyond
   * the first `k`; the last one passed the checks but declares more content
   * than the buffer holds after it, and with -x it was not an entry being
   * extracted.
   */
  predicate PastEndAfterShortEntry(buf: Bytes, cfg: Config, r: ScanResult, k: nat)
  {
    var v := r.state.visited;
    r.end.EndOfScan? && r.end.at > RecordCount(buf) ==>
      |v| > k && v[|v| - 1] < RecordCount(buf) && HeaderCheck(buf, v[|v| - 1]).Pass? &&
      NextHeader(buf, v[|v| - 1]) > RecordCount(buf) &&
      (cfg.extract && !cfg.list ==> !Wanted(cfg.requested, HeaderAt(buf, v[|v| - 1]).name))
  }

  lemma PastEndAfterLastEntry(buf: Bytes, cfg: Config, r: ScanResult, cur: nat, k: nat)
    requires cur <= RecordCount(buf)
    requires StopsAfterLastEntry(buf, r, cur, k)
    requires LastEntryFits(buf, cfg, r, k)
    requires k <= |r.state.visited|
    ensures PastEndAfterShortEntry(buf, cfg, r, k)
  {
  }

  /**
   * A scan that starts inside the buffer and stops past `buff_end` did so
   * after a last entry too short for its declared size.
   */
  lemma ScanPastEndMeansShortEntry(buf: Bytes, cur: nat, cfg: Config, st: ScanState)
    requires cur <= RecordCount(buf)
    ensures PastEndAfterShortEntry(buf, cfg, ScanFrom(buf, cur, cfg, st), |st.visited|)
  {
    ScanStopsAfterLastEntry(buf, cur, cfg, st);
    ScanLastEntryFits(buf, cur, cfg, st);
    ScanExtendsVisited(buf, cur, cfg, st);
    PastEndAfterLastEntry(buf, cfg, ScanFrom(buf, cur, cfg, st), cur, |st.visited|);
  }

  /**
   * `handle_archive`'s closing "Unexpected EOF in archive" is raised
   * exactly when the scan stops past `buff_end`, and the return code is
   * then left as it was.
   */
  lemma TruncatedArchiveIsReported(buf: Bytes, cfg: Config, returnCode: int)
    ensures var scan := ScanFrom(buf, 0, cfg, Fresh);
      var run := HandleArchiveRun(buf, cfg, Fresh, returnCode);
      scan.end.EndOfScan? ==>
        (run.outcome == Aborted(Fatal(UnexpectedEof)) <==> scan.end.at > RecordCount(buf))
  {
    var scan := ScanFrom(buf, 0, cfg, Fresh);
    ScanEndsOnEndRecord(buf, 0, cfg, Fresh);
    if scan.end.EndOfScan? {
      PastEndInRecords(buf, scan.end.at);
    }
  }

  /** A record that ends the scan lies past `buff_end`, in bytes, exactly when its index is past the last whole record. */
  lemma PastEndInRecords(buf: Bytes, at: nat)
    requires AtEndOfBuffer(buf, at)
    ensures (at + 1) * 512 > |buf| && at * 512 != |buf| <==> at > RecordCount(buf)
  {
    var n := RecordCount(buf);
    assert n * 512 <= |buf| < (n + 1) * 512;
    if at > n {
      assert at * 512 >= (n + 1) * 512;
    } else if at < n {
      assert (at + 1) * 512 <= n * 512;
    }
  }

  /**
   * The "lone zero block" warning: a scan that reaches the end and stops on
   * the last record of the buffer stopped on a null record, and
   * `handle_archive` then returns with the warning as its last output.
   */
  lemma LoneZeroBlockIsLastRecord(buf: Bytes, cfg: Config, returnCode: int)
    ensures var scan := ScanFrom(buf, 0, cfg, Fresh);
      var run := HandleArchiveRun(buf, cfg, Fresh, returnCode);
      scan.end.EndOfScan? && (scan.end.at + 1) * 512 == |buf| ==>
        && IsNullRecord(buf, scan.end.at)
        && run.outcome == Returned
        && |run.state.output| > 0 && run.state.output[|run.state.output| - 1] == LoneZeroBlockWarned
  {
    ScanEndsOnEndRecord(buf, 0, cfg, Fresh);
  }
}
