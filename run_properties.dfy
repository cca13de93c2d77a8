/**
 * What a whole run of mytar promises, proved about `Run` and `Finished`:
 * the process exits with 0 or 2, `main`'s failure notice appears exactly
 * when a run that returned exits with 2, and with a name filter the exit
 * status is 2 exactly when a requested name is carried by no header the
 * scan visited.
 */
module RunProperties {
  import opened TarFormat
  import opened Archive
  import opened Args
  import opened ScanProperties
  import opened MyTar

  /** The scan never prints `main`'s failure notice. */
  lemma {:induction false} ScanNeverReportsFailure(buf: Bytes, cur: nat, cfg: Config, st: ScanState)
    requires FailureStatusReported !in st.output
    ensures FailureStatusReported !in ScanFrom(buf, cur, cfg, st).state.output
    decreases RecordCount(buf) - cur
  {
    if !PartialRecordAt(buf, cur) && !AtEndOfBuffer(buf, cur) {
      var s := EntryStep(buf, cur, cfg, st);
      if s.Advance? {
        ScanNeverReportsFailure(buf, s.next, cfg, s.state);
      }
    }
  }

  /**
   * `handle_archive` leaves the return code as it found it or sets it to
   * 2, and never prints the failure notice.
   */
  lemma ArchiveRunCodeAndNotice(buf: Bytes, cfg: Config, returnCode: int)
    ensures var run := HandleArchiveRun(buf, cfg, Fresh, returnCode);
      && (run.returnCode == returnCode || run.returnCode == FatalExitCode)
      && FailureStatusReported !in run.state.output
  {
    ScanNeverReportsFailure(buf, 0, cfg, Fresh);
  }

  /** Every run exits with 0 or 2, or reaches undefined behaviour. */
  lemma ExitStatusIsZeroOrTwo(rawArgv: seq<Bytes>, files: map<Bytes, Bytes>)
    requires |rawArgv| >= 1
    ensures var status := ExitStatus(Finished(Run(rawArgv, files)));
      status == None || status == Some(0) || status == Some(FatalExitCode)
  {
    var o := Parse(rawArgv[1..]);
    if ArgsCheck(o).Pass? && o.archiveName in files {
      ArchiveRunCodeAndNotice(files[o.archiveName], RunConfig(o, |rawArgv| - 1), 0);
    }
  }

  /**
   * `main` prints "Exiting with failure status due to previous errors"
   * exactly when `run_tar` returned and the process exits with 2, and then
   * as its last output.
   */
  lemma FailureNoticeIffStatusTwo(rawArgv: seq<Bytes>, files: map<Bytes, Bytes>)
    requires |rawArgv| >= 1
    ensures var r := Finished(Run(rawArgv, files));
      && (FailureStatusReported in r.output <==> r.outcome == Returned && ExitStatus(r) == Some(FatalExitCode))
      && (FailureStatusReported in r.output ==> r.output[|r.output| - 1] == FailureStatusReported)
  {
    var o := Parse(rawArgv[1..]);
    if ArgsCheck(o).Pass? && o.archiveName in files {
      ArchiveRunCodeAndNotice(files[o.archiveName], RunConfig(o, |rawArgv| - 1), 0);
    }
  }

  /**
   * With a name filter, a run that reaches its end exits with 2 exactly
   * when some requested name is carried by no header the scan visited.
   */
  lemma NotFoundIsFailure(rawArgv: seq<Bytes>, files: map<Bytes, Bytes>)
    requires |rawArgv| >= 1
    ensures var o := Parse(rawArgv[1..]);
      var r := Run(rawArgv, files);
      r.outcome == Returned && o.requested != [] ==>
        && o.archiveName in files
        && var buf := files[o.archiveName];
           var v := ScanFrom(buf, 0, RunConfig(o, |rawArgv| - 1), Fresh).state.visited;
           && RecordsFrom(buf, v, 0)
           && (r.returnCode == FatalExitCode <==> exists x :: x in o.requested && x !in VisitedNames(buf, v, 0))
  {
    var o := Parse(rawArgv[1..]);
    var r := Run(rawArgv, files);
    if r.outcome == Returned && o.requested != [] {
      var buf := files[o.archiveName];
      var cfg := RunConfig(o, |rawArgv| - 1);
      var scan := ScanFrom(buf, 0, cfg, Fresh);
      ReportsUnseenNames(buf, cfg, 0);
      var missing := Missing(cfg.requested, scan.state.found);
      if missing != [] {
        assert missing[0] in missing;
      }
    }
  }
}
