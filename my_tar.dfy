/**
 * mytar's `struct tar_state` and the functions that update it, as a class:
 * argument preparation and parsing, the archive load, the scan of
 * `handle_archive` with its loop, the not-found report, the end-of-archive
 * check and `run_tar`. Each method is proved against the functions of
 * modules Args and Archive.
 */
module MyTar {
  import opened TarFormat
  import opened Archive
  import opened Args

  datatype Option<T> = None | Some(value: T)

  /** The fields of a `TarState`, as one value. */
  datatype TarFields = TarFields(
    archiveName: Bytes,
    archiveBuffer: Bytes,
    filesFromArgs: seq<Bytes>,
    foundFiles: seq<Bytes>,
    handleAllFiles: bool,
    fIsSet: bool,
    tIsSet: bool,
    xIsSet: bool,
    vIsSet: bool,
    args: seq<Arg>,
    returnCode: int,
    output: seq<Effect>)

  /** The state of `main` right after its initialiser: nothing set, nothing found, return code 0. */
  const Initial := TarFields([], [], [], [], false, false, false, false, false, [], 0, [])

  /** What `parse_args` has decided in a state. */
  function OptionsOf(s: TarFields): Options
  {
    Options(s.fIsSet, s.archiveName, s.vIsSet, s.tIsSet, s.xIsSet, s.filesFromArgs, s.handleAllFiles)
  }

  /** `parse_opt_f`: -f followed by an argument names the archive, and both are consumed. */
  predicate OptFParsed(s: TarFields, s': TarFields)
  {
    var vs := ValuesOf(s.args);
    var i := OptionIndex(vs, OptF);
    var named := i != NotFound && i + 1 < |vs|;
    s' == s.(fIsSet := s.fIsSet || named,
             archiveName := if named then vs[i + 1] else s.archiveName,
             args := if named then MarkConsumed(MarkConsumed(s.args, i), i + 1) else s.args)
  }

  /** `parse_opt_v`: -v sets the echo flag and is consumed. */
  predicate OptVParsed(s: TarFields, s': TarFields)
  {
    var i := OptionIndex(ValuesOf(s.args), OptV);
    s' == s.(vIsSet := s.vIsSet || i != NotFound, args := MarkConsumed(s.args, i))
  }

  /** `parse_opt_t`: -t sets the list action, and with no file named every entry is wanted. */
  predicate OptTParsed(s: TarFields, s': TarFields)
  {
    var i := OptionIndex(ValuesOf(s.args), OptT);
    s' == s.(tIsSet := s.tIsSet || i != NotFound, args := MarkConsumed(s.args, i),
             handleAllFiles := if i == NotFound then s.handleAllFiles else |s.filesFromArgs| == 0)
  }

  /** `parse_opt_x`: -x sets the extract action, and with no file named every entry is wanted. */
  predicate OptXParsed(s: TarFields, s': TarFields)
  {
    var i := OptionIndex(ValuesOf(s.args), OptX);
    s' == s.(xIsSet := s.xIsSet || i != NotFound, args := MarkConsumed(s.args, i),
             handleAllFiles := if i == NotFound then s.handleAllFiles else |s.filesFromArgs| == 0)
  }

  /** `prepare_unused_files_from_args`: the unconsumed arguments that do not start with '-' are the files to act on. */
  predicate UnusedFilesPrepared(s: TarFields, s': TarFields)
  {
    s' == s.(filesFromArgs := UnusedFiles(s.args))
  }

  /**
   * `parse_args` from arguments none of which was consumed: the options
   * and file names are those `Parse` assigns to the argument values,
   * exactly the positions in `Consumed` are consumed, and the archive, the
   * found names, the return code and the output are as they were.
   */
  predicate ArgsParsed(s: TarFields, s': TarFields)
  {
    var vs := ValuesOf(s.args);
    && OptionsOf(s') == Parse(vs)
    && HandledExactly(s'.args, vs, Consumed(vs))
    && s'.archiveBuffer == s.archiveBuffer && s'.foundFiles == s.foundFiles
    && s'.returnCode == s.returnCode && s'.output == s.output
  }

  class TarState {
    var archiveName: Bytes
    var archiveBuffer: Bytes         // archive_buffer; buff_end is its record count
    var filesFromArgs: seq<Bytes>
    var foundFiles: seq<Bytes>
    var handleAllFiles: bool
    var fIsSet: bool
    var tIsSet: bool
    var xIsSet: bool
    var vIsSet: bool
    var argv: array<Arg>             // argv, with argc its length
    const rawArgv: seq<Bytes>
    var returnCode: int
    var output: seq<Effect>          // what the program has printed and written so far

    function Fields(): TarFields
      reads this, argv
    {
      TarFields(archiveName, archiveBuffer, filesFromArgs, foundFiles, handleAllFiles,
                fIsSet, tIsSet, xIsSet, vIsSet, argv[..], returnCode, output)
    }

    /** The settings the scan reads; found_files has argc slots. */
    function Cfg(): Config
      reads this`tIsSet, this`xIsSet, this`vIsSet, this`filesFromArgs, this`handleAllFiles, this`argv
    {
      Config(tIsSet, xIsSet, vIsSet, filesFromArgs, handleAllFiles, argv.Length)
    }

    /** `main`'s initialiser of `tar_state`. */
    constructor(rawArgv: seq<Bytes>)
      ensures this.rawArgv == rawArgv
      ensures Fields() == Initial
    {
      this.rawArgv := rawArgv;
      archiveName, archiveBuffer := [], [];
      filesFromArgs, foundFiles := [], [];
      handleAllFiles := false;
      fIsSet, tIsSet, xIsSet, vIsSet := false, false, false, false;
      argv := new Arg[0];
      returnCode := 0;
      output := [];
    }

    /** `prepare_args`: argv holds the arguments after the program name, none consumed. */
    method PrepareArgs()
      requires |rawArgv| >= 1
      modifies this
      ensures fresh(argv)
      ensures Fields() == old(Fields()).(args := Unparsed(rawArgv[1..]))
    {
      var a := new Arg[|rawArgv| - 1];
      for i := 1 to |rawArgv|
        modifies a
        invariant forall k :: 0 <= k < i - 1 ==> a[k] == Arg(rawArgv[k + 1], false)
      {
        a[i - 1] := Arg(rawArgv[i], false);
      }
      assert a[..] == Unparsed(rawArgv[1..]);
      argv := a;
    }

    /** `find_option_loc`: the first argument equal to `opt`, or -1. */
    method FindOptionLoc(opt: Bytes) returns (idx: int)
      ensures idx == OptionIndex(ValuesOf(argv[..]), opt)
    {
      ghost var vs := ValuesOf(argv[..]);
      for i := 0 to argv.Length
        invariant forall k :: 0 <= k < i ==> vs[k] != opt
      {
        if argv[i].value == opt {
          assert opt !in vs[..i];
          OptionIndexUnique(vs, opt, i);
          return i;
        }
      }
      return NotFound;
    }

    /** `parse_opt_f`: -f followed by an argument names the archive; both are consumed. */
    method ParseOptF()
      modifies this, argv
      ensures argv == old(argv)
      ensures OptFParsed(old(Fields()), Fields())
    {
      ghost var args := argv[..];
      var idx := FindOptionLoc(OptF);
      if idx == NotFound || idx + 1 == argv.Length {
        return;
      }
      fIsSet := true;
      archiveName := argv[idx + 1].value;
      argv[idx] := argv[idx].(handled := true);
      assert argv[..] == MarkConsumed(args, idx);
      argv[idx + 1] := argv[idx + 1].(handled := true);
      assert argv[..] == MarkConsumed(MarkConsumed(args, idx), idx + 1);
    }

    /** `parse_opt_v`. */
    method ParseOptV()
      modifies this, argv
      ensures argv == old(argv)
      ensures OptVParsed(old(Fields()), Fields())
    {
      var idx := FindOptionLoc(OptV);
      if idx == NotFound {
        return;
      }
      vIsSet := true;
      argv[idx] := argv[idx].(handled := true);
    }

    /** `parse_opt_t`: with -t every entry is wanted when no file was named. */
    method ParseOptT()
      modifies this, argv
      ensures argv == old(argv)
      ensures OptTParsed(old(Fields()), Fields())
    {
      var idx := FindOptionLoc(OptT);
      if idx == NotFound {
        return;
      }
      tIsSet := true;
      argv[idx] := argv[idx].(handled := true);
      handleAllFiles := |filesFromArgs| == 0;
    }

    /** `parse_opt_x`: with -x every entry is wanted when no file was named. */
    method ParseOptX()
      modifies this, argv
      ensures argv == old(argv)
      ensures OptXParsed(old(Fields()), Fields())
    {
      var idx := FindOptionLoc(OptX);
      if idx == NotFound {
        return;
      }
      xIsSet := true;
      argv[idx] := argv[idx].(handled := true);
      handleAllFiles := |filesFromArgs| == 0;
    }

    /** `prepare_unused_files_from_args`. */
    method PrepareUnusedFilesFromArgs()
      modifies this
      ensures argv == old(argv)
      ensures UnusedFilesPrepared(old(Fields()), Fields())
    {
      var files: seq<Bytes> := [];
      for i := 0 to argv.Length
        invariant files == UnusedFiles(argv[..i])
      {
        assert argv[..i + 1][..i] == argv[..i];
        var a := argv[i];
        if !a.handled && IsNotOpt(a.value) {
          files := files + [a.value];
        }
      }
      assert argv[..argv.Length] == argv[..];
      filesFromArgs := files;
    }

    /**
     * `parse_args` on freshly prepared arguments: the options and file
     * names are those `Parse` assigns to the argument values, and exactly
     * the positions in `Consumed` are marked consumed.
     */
    method ParseArgs()
      requires forall k :: 0 <= k < argv.Length ==> !argv[k].handled
      requires Fields() == Initial.(args := argv[..])
      modifies this, argv
      ensures argv == old(argv)
      ensures ArgsParsed(old(Fields()), Fields())
    {
      ghost var s0 := Fields();
      ParseOptF();
      ghost var s1 := Fields();
      ParseOptV();
      ghost var s2 := Fields();
      PrepareUnusedFilesFromArgs();
      ghost var s3 := Fields();
      ParseOptT();
      ghost var s4 := Fields();
      ParseOptX();
      ParseSteps(s0, s1, s2, s3, s4, Fields());
    }

    /** `assert_valid_args`. */
    method AssertValidArgs() returns (c: Check)
      ensures c == ArgsCheck(OptionsOf(Fields()))
    {
      if !fIsSet {
        return Stop(Fatal(ArchiveNotSpecified));
      }
      if !tIsSet && !xIsSet {
        return Stop(Fatal(ActionNotSpecified));
      }
      return Pass;
    }

    /**
     * `load_buffer_with_file`: the archive named on the command line is
     * looked up in `files`, which stands for the file system.
     */
    method LoadBufferWithFile(files: map<Bytes, Bytes>) returns (c: Check)
      modifies this`archiveBuffer
      ensures archiveName !in files ==> c == Stop(Fatal(CannotOpenArchive)) && archiveBuffer == old(archiveBuffer)
      ensures archiveName in files ==> c == Pass && archiveBuffer == files[archiveName]
    {
      if archiveName !in files {
        return Stop(Fatal(CannotOpenArchive));
      }
      archiveBuffer := files[archiveName];
      return Pass;
    }

    /**
     * `move_next_record_iterator` for the header at record `cur`, whose
     * size field decodes without overflow, with the C arithmetic's skip.
     * For a header the scan accepts, that is the next header.
     */
    static method MoveNextRecordIterator(buf: Bytes, cur: nat) returns (next: int)
      requires cur < RecordCount(buf) && FoldFitsInt(HeaderAt(buf, cur).sizeText)
      ensures next == cur + SkipAsWritten(SizeAt(buf, cur))
      ensures HeaderCheck(buf, cur).Pass? ==> cur < next == NextHeader(buf, cur)
    {
      var size, _ := ToInt(buf, cur * 512 + SizeOffset);
      var numOfRecs := SkipAsWritten(size);
      return cur + numOfRecs;
    }

    /**
     * `extract_file` for the header at record `cur`: writes the entry's
     * bytes that the buffer holds to a file of the entry's name, then
     * fails when the entry runs past the buffer.
     */
    method ExtractFile(cur: nat) returns (c: Check)
      requires cur < RecordCount(archiveBuffer) && HeaderCheck(archiveBuffer, cur).Pass?
      modifies this`output
      ensures output == old(output) + Extracted(archiveBuffer, cur)
      ensures c == ExtractCheck(archiveBuffer, cur)
    {
      var buf := archiveBuffer;
      var fsize, _ := ToInt(buf, cur * 512 + SizeOffset);
      var x := PlanExtraction(RecordCount(buf), cur, fsize);
      if x.truncated && |buf| % 512 != 0 {
        return Stop(Undefined(MisalignedEnd));
      }
      if x.count < 0 {
        return Stop(Undefined(NegativeWriteCount));
      }
      output := output + [Wrote(HeaderAt(buf, cur).name, ContentBytes(buf, cur, x.count))];
      if x.truncated {
        return Stop(Fatal(UnexpectedEof));
      }
      return Pass;
    }

    /**
     * `assert_valid_header`, followed by the decoding of the size field
     * that the rest of the pass relies on.
     */
    static method AssertValidHeader(buf: Bytes, cur: nat) returns (c: Check)
      requires cur < RecordCount(buf)
      ensures c == HeaderCheck(buf, cur)
    {
      var h := HeaderAt(buf, cur);
      if h.magic == Ustar || SignedChar(h.typeflag) < SignedChar(CharZero) {
        return Stop(Fatal(NotATarArchive));
      }
      if h.typeflag != CharZero {
        return Stop(Fatal(UnsupportedHeaderType(h.typeflag)));
      }
      var size, fits := ToInt(buf, cur * 512 + SizeOffset);
      if !fits {
        return Stop(Undefined(SizeOverflow));
      }
      if size < 0 {
        return Stop(RefusedNegativeSize(size));
      }
      return Pass;
    }

    /** `t_handle_file`: prints the entry's name. */
    method THandleFile(cur: nat)
      requires cur < RecordCount(archiveBuffer)
      modifies this`output
      ensures output == old(output) + [Printed(HeaderAt(archiveBuffer, cur).name)]
    {
      output := output + [Printed(HeaderAt(archiveBuffer, cur).name)];
    }

    /** `x_handle_file`: the -v echo of the name, then `extract_file`. */
    method XHandleFile(cur: nat) returns (c: Check)
      requires cur < RecordCount(archiveBuffer) && HeaderCheck(archiveBuffer, cur).Pass?
      modifies this`output
      ensures output == old(output) + ((if vIsSet then [Printed(HeaderAt(archiveBuffer, cur).name)] else []) + Extracted(archiveBuffer, cur))
      ensures c == ExtractCheck(archiveBuffer, cur)
    {
      if vIsSet {
        output := output + [Printed(HeaderAt(archiveBuffer, cur).name)];
      }
      c := ExtractFile(cur);
    }

    /** The action on a wanted entry: -t lists it, else -x extracts it. */
    method ActOnFile(cur: nat) returns (c: Check)
      requires cur < RecordCount(archiveBuffer) && HeaderCheck(archiveBuffer, cur).Pass?
      modifies this`output
      ensures output == old(output) + EntryEffects(archiveBuffer, cur, Cfg())
      ensures c == if !tIsSet && xIsSet then ExtractCheck(archiveBuffer, cur) else Pass
    {
      c := Pass;
      if tIsSet {
        THandleFile(cur);
      } else if xIsSet {
        c := XHandleFile(cur);
      }
    }

    /**
     * The body of `handle_archive`'s loop for a valid header at record
     * `cur` that is wanted: list or extract it, then store its name in
     * found_files. The output is that of `EntryEffects` even when the pass
     * stops, and the check is `ActionCheck`.
     */
    method HandleWantedFile(cur: nat) returns (c: Check)
      requires cur < RecordCount(archiveBuffer) && HeaderCheck(archiveBuffer, cur).Pass?
      modifies this`output, this`foundFiles
      ensures c == ActionCheck(archiveBuffer, cur, Cfg(), |old(foundFiles)|)
      ensures output == old(output) + EntryEffects(archiveBuffer, cur, Cfg())
      ensures foundFiles == old(foundFiles) + (if c.Pass? && !handleAllFiles then [HeaderAt(archiveBuffer, cur).name] else [])
    {
      c := ActOnFile(cur);
      if c.Stop? {
        return;
      }
      if !handleAllFiles {
        if |foundFiles| >= argv.Length {
          return Stop(Undefined(FoundFilesOverflow));
        }
        foundFiles := foundFiles + [HeaderAt(archiveBuffer, cur).name];
      }
      return Pass;
    }

    /**
     * One pass of `handle_archive`'s loop over the header at record `cur`
     * (validate, act if wanted, record as found, advance), proved to take
     * the step `EntryStep` describes; `visited` is the ghost record of the
     * headers seen before.
     */
    method HandleHeader(cur: nat, ghost visited: seq<nat>) returns (c: Check, next: nat)
      requires cur < RecordCount(archiveBuffer)
      modifies this`output, this`foundFiles
      ensures var r := EntryStep(archiveBuffer, cur, Cfg(), ScanState(old(foundFiles), old(output), visited));
              && (c.Pass? <==> r.Advance?)
              && (r.Advance? ==> next == r.next)
              && (r.Halt? ==> c == Stop(r.abort))
              && foundFiles == r.state.found && output == r.state.output
    {
      var buf := archiveBuffer;
      c := AssertValidHeader(buf, cur);
      if c.Stop? {
        return c, 0;
      }
      var wanted := IsWantedFile(filesFromArgs, HeaderAt(buf, cur).name);
      if wanted {
        c := HandleWantedFile(cur);
        if c.Stop? {
          return c, 0;
        }
      }
      next := MoveNextRecordIterator(buf, cur);
    }

    /** `print_not_found_files`: reports each requested name that was not found. */
    method PrintNotFoundFiles()
      modifies this`output, this`returnCode
      ensures output == old(output) + NotFoundReports(Missing(filesFromArgs, foundFiles))
      ensures returnCode == if Missing(filesFromArgs, foundFiles) != [] then FatalExitCode else old(returnCode)
    {
      var files, found := filesFromArgs, foundFiles;
      var out, rc := output, returnCode;
      for i := 0 to |files|
        invariant out == old(output) + NotFoundReports(Missing(files[..i], found))
        invariant rc == if Missing(files[..i], found) != [] then FatalExitCode else old(returnCode)
      {
        MissingStep(files, found, i);
        var fname := files[i];
        var isFound := FileFound(found, fname);
        if !isFound {
          out := out + [NotFoundReported(fname)];
          rc := FatalExitCode;
        }
      }
      assert files[..|files|] == files;
      output, returnCode := out, rc;
    }

    /** `assert_archive_consistency` for a scan that stopped at record `final`. */
    method AssertArchiveConsistency(final: nat) returns (outcome: Outcome)
      modifies this`output
      ensures var check := CheckConsistency(final, |archiveBuffer|);
              && output == old(output) + (if check == LoneZeroBlock then [LoneZeroBlockWarned] else [])
              && outcome == (if check == Truncated then Aborted(Fatal(UnexpectedEof)) else Returned)
    {
      var end := |archiveBuffer|;
      if final * 512 == end {
        return Returned;
      }
      if (final + 1) * 512 == end {
        output := output + [LoneZeroBlockWarned];
      }
      if (final + 1) * 512 > end {
        return Aborted(Fatal(UnexpectedEof));
      }
      return Returned;
    }

    /**
     * The loop of `handle_archive`: from the first record, handle header
     * after header until the end of the buffer or a null record, proved to
     * end as `ScanFrom` describes. The iterator where it stopped is the
     * record index in `EndOfScan`.
     */
    method ScanArchive() returns (end: ScanEnd)
      modifies this`output, this`foundFiles
      ensures var scan := ScanFrom(archiveBuffer, 0, Cfg(), ScanState(old(foundFiles), old(output), []));
              foundFiles == scan.state.found && output == scan.state.output && end == scan.end
    {
      var buf := archiveBuffer;
      ghost var cfg := Cfg();
      ghost var scan := ScanFrom(buf, 0, cfg, ScanState(foundFiles, output, []));
      var cur: nat := 0;
      ghost var visited: seq<nat> := [];
      while true
        invariant scan == ScanFrom(buf, cur, cfg, ScanState(foundFiles, output, visited))
        decreases if cur <= RecordCount(buf) then RecordCount(buf) - cur else 0
      {
        var endTest := IsOnEndOfBuffer(buf, cur);
        if endTest == ReadsPastBuffer {
          return ScanAborted(Undefined(PartialRecord));
        }
        if endTest == AtEnd {
          return EndOfScan(cur);
        }
        if cur >= RecordCount(buf) {
          return ScanAborted(RefusedPartialRecord);
        }
        ghost var st := ScanState(foundFiles, output, visited);
        var c, next := HandleHeader(cur, visited);
        ScanStepsOn(buf, cur, cfg, st);
        if c.Stop? {
          return ScanAborted(c.abort);
        }
        cur, visited := next, visited + [cur];
      }
    }

    /**
     * `handle_archive`: the loop over the headers, the not-found report
     * and the end-of-archive check, proved to do what `HandleArchiveRun`
     * describes.
     */
    method HandleArchive() returns (outcome: Outcome)
      modifies this`output, this`foundFiles, this`returnCode
      ensures var run := HandleArchiveRun(old(archiveBuffer), old(Cfg()), ScanState(old(foundFiles), old(output), []), old(returnCode));
              && foundFiles == run.state.found && output == run.state.output && returnCode == run.returnCode
              && outcome == run.outcome
    {
      var end := ScanArchive();
      if end.ScanAborted? {
        return Aborted(end.abort);
      }
      if !handleAllFiles {
        PrintNotFoundFiles();
      }
      outcome := AssertArchiveConsistency(end.at);
    }

    /** `run_tar`: prepare and parse the arguments, check them, load the archive and scan it. */
    method RunTar(files: map<Bytes, Bytes>) returns (outcome: Outcome)
      requires |rawArgv| >= 1
      requires Fields() == Initial
      modifies this
      ensures var r := Run(rawArgv, files);
              outcome == r.outcome && output == r.output && returnCode == r.returnCode
    {
      PrepareArgs();
      ghost var prepared := Fields();
      ParseArgs();
      ghost var parsed := Fields();
      ghost var o := OptionsOf(parsed);
      ParsedFromStart(rawArgv[1..], prepared, parsed);
      RunAfterParse(rawArgv, files, o);
      outcome := RunParsedArgs(files);
    }

    /**
     * The part of `run_tar` after `parse_args`: `assert_valid_args`,
     * `load_buffer_with_file`, then `handle_archive`, from a state where
     * nothing was found, printed or failed yet.
     */
    method RunParsedArgs(files: map<Bytes, Bytes>) returns (outcome: Outcome)
      requires foundFiles == [] && output == [] && returnCode == 0
      modifies this`archiveBuffer, this`output, this`foundFiles, this`returnCode
      ensures var r := RunParsed(OptionsOf(old(Fields())), argv.Length, files);
              outcome == r.outcome && output == r.output && returnCode == r.returnCode
    {
      ghost var o := OptionsOf(Fields());
      assert Cfg() == RunConfig(o, argv.Length);
      var c := AssertValidArgs();
      if c.Stop? {
        ArgumentErrorsComeFirst(o, argv.Length, files);
        return Aborted(c.abort);
      }
      c := LoadBufferWithFile(files);
      if c.Stop? {
        MissingArchiveStops(o, argv.Length, files);
        return Aborted(c.abort);
      }
      ghost var buf, cfg, st, rc := archiveBuffer, Cfg(), ScanState(foundFiles, output, []), returnCode;
      outcome := HandleArchive();
      ArchiveScannedLast(o, argv.Length, files, buf, cfg, st, rc);
    }
  }

  /** Once the arguments pass and the archive is found, how the run ends is how `handle_archive` ends. */
  lemma ArchiveScannedLast(o: Options, argc: nat, files: map<Bytes, Bytes>, buf: Bytes, cfg: Config, st: ScanState, rc: int)
    requires ArgsCheck(o).Pass? && o.archiveName in files && buf == files[o.archiveName]
    requires cfg == RunConfig(o, argc)
    requires st == ScanState([], [], []) && rc == 0
    ensures var run := HandleArchiveRun(buf, cfg, st, rc);
            RunParsed(o, argc, files) == TarRun(run.outcome, run.state.output, run.returnCode)
  {
  }

  /** A command line that fails `assert_valid_args` stops the run before anything is printed or read. */
  lemma ArgumentErrorsComeFirst(o: Options, argc: nat, files: map<Bytes, Bytes>)
    requires ArgsCheck(o).Stop?
    ensures RunParsed(o, argc, files) == TarRun(Aborted(ArgsCheck(o).abort), [], 0)
  {
  }

  /** An archive that cannot be opened stops the run before anything is printed. */
  lemma MissingArchiveStops(o: Options, argc: nat, files: map<Bytes, Bytes>)
    requires ArgsCheck(o).Pass? && o.archiveName !in files
    ensures RunParsed(o, argc, files) == TarRun(Aborted(Fatal(CannotOpenArchive)), [], 0)
  {
  }

  lemma RunAfterParse(rawArgv: seq<Bytes>, files: map<Bytes, Bytes>, o: Options)
    requires |rawArgv| >= 1 && o == Parse(rawArgv[1..])
    ensures Run(rawArgv, files) == RunParsed(o, |rawArgv| - 1, files)
  {
  }

  /** `parse_args` after `prepare_args`: what it decides depends only on the arguments after the program name. */
  lemma ParsedFromStart(values: seq<Bytes>, prepared: TarFields, parsed: TarFields)
    requires prepared == Initial.(args := Unparsed(values))
    requires ArgsParsed(prepared, parsed)
    ensures OptionsOf(parsed) == Parse(values)
    ensures |parsed.args| == |values|
    ensures parsed.output == [] && parsed.returnCode == 0 && parsed.foundFiles == []
  {
  }

  /** One more requested name: it is reported after the earlier ones exactly when it was not found. */
  lemma MissingStep(files: seq<Bytes>, found: seq<Bytes>, i: nat)
    requires i < |files|
    ensures var m := Missing(files[..i], found);
            var m' := Missing(files[..i + 1], found);
            && m' == m + (if files[i] in found then [] else [files[i]])
            && NotFoundReports(m') == NotFoundReports(m) + (if files[i] in found then [] else [NotFoundReported(files[i])])
  {
    assert files[..i + 1][..i] == files[..i];
  }

  /** One header of the scan: `ScanFrom` goes on from the step's result. */
  lemma ScanStepsOn(buf: Bytes, cur: nat, cfg: Config, st: ScanState)
    requires cur < RecordCount(buf) && !AtEndOfBuffer(buf, cur)
    ensures var r := EntryStep(buf, cur, cfg, st);
            ScanFrom(buf, cur, cfg, st) ==
              if r.Advance? then ScanFrom(buf, r.next, cfg, r.state) else ScanResult(r.state, ScanAborted(r.abort))
  {
  }

  /** The arguments carry the values `vs`, and those at the positions in `marked` (and no others) are consumed. */
  predicate HandledExactly(args: seq<Arg>, vs: seq<Bytes>, marked: set<int>)
  {
    ValuesOf(args) == vs && forall k :: 0 <= k < |args| ==> (args[k].handled <==> k in marked)
  }

  lemma MarkStep(args: seq<Arg>, vs: seq<Bytes>, marked: set<int>, i: int)
    requires HandledExactly(args, vs, marked)
    ensures HandledExactly(MarkConsumed(args, i), vs, marked + {i})
  {
  }

  /** The positions `parse_opt_f` consumes: -f and the archive name after it. */
  function FMarks(vs: seq<Bytes>): set<int>
  {
    var fi := OptionIndex(vs, OptF);
    if fi == NotFound || fi + 1 == |vs| then {} else {fi, fi + 1}
  }

  /** The arguments `parse_opt_f` and `parse_opt_v` leave, from arguments none of which was consumed. */
  lemma MarkedFV(s0: TarFields, s1: TarFields, s2: TarFields)
    requires forall k :: 0 <= k < |s0.args| ==> !s0.args[k].handled
    requires OptFParsed(s0, s1) && OptVParsed(s1, s2)
    ensures var vs := ValuesOf(s0.args);
            HandledExactly(s2.args, vs, FMarks(vs) + {OptionIndex(vs, OptV)})
  {
    var vs := ValuesOf(s0.args);
    var fi := OptionIndex(vs, OptF);
    assert HandledExactly(s0.args, vs, {});
    if fi != NotFound && fi + 1 < |vs| {
      MarkStep(s0.args, vs, {}, fi);
      MarkStep(MarkConsumed(s0.args, fi), vs, {fi}, fi + 1);
      assert {} + {fi} + {fi + 1} == FMarks(vs);
    }
    assert HandledExactly(s1.args, vs, FMarks(vs));
    MarkStep(s1.args, vs, FMarks(vs), OptionIndex(vs, OptV));
  }

  /**
   * After -f and -v are consumed, the unused files are the file operands
   * `Parse` finds: the archive name is the only consumed argument that does
   * not start with '-'.
   */
  lemma RequestedAfterFV(a2: seq<Arg>, vs: seq<Bytes>)
    requires HandledExactly(a2, vs, FMarks(vs) + {OptionIndex(vs, OptV)})
    ensures UnusedFiles(a2) == Parse(vs).requested
  {
    var fi := OptionIndex(vs, OptF);
    if fi != NotFound && fi + 1 < |vs| {
      UnusedFilesSkipping(a2, fi + 1);
    } else {
      UnusedFilesNone(a2);
    }
  }

  /** After -t and -x are consumed too, the consumed positions are `Consumed`. */
  lemma ConsumedAfterTX(a2: seq<Arg>, a3: seq<Arg>, a4: seq<Arg>, vs: seq<Bytes>)
    requires HandledExactly(a2, vs, FMarks(vs) + {OptionIndex(vs, OptV)})
    requires a3 == MarkConsumed(a2, OptionIndex(ValuesOf(a2), OptT))
    requires a4 == MarkConsumed(a3, OptionIndex(ValuesOf(a3), OptX))
    ensures ValuesOf(a4) == vs
    ensures forall k :: 0 <= k < |a4| ==> (a4[k].handled <==> k in Consumed(vs))
  {
    var s2 := FMarks(vs) + {OptionIndex(vs, OptV)};
    var s4 := s2 + {OptionIndex(vs, OptT)} + {OptionIndex(vs, OptX)};
    MarkStep(a2, vs, s2, OptionIndex(vs, OptT));
    MarkStep(a3, vs, s2 + {OptionIndex(vs, OptT)}, OptionIndex(vs, OptX));
    ConsumedInRange(vs);
    assert forall k :: 0 <= k < |a4| ==> (a4[k].handled <==> k in s4);
  }

  /** Within the arguments, `Consumed` is the union of the positions the four option parsers mark. */
  lemma ConsumedInRange(vs: seq<Bytes>)
    ensures forall k :: 0 <= k < |vs| ==>
      (k in Consumed(vs) <==> k in FMarks(vs) + {OptionIndex(vs, OptV)} + {OptionIndex(vs, OptT)} + {OptionIndex(vs, OptX)})
  {
  }

  /** The five steps of `parse_args`, from `main`'s initial state, add up to `ArgsParsed`. */
  lemma ParseSteps(s0: TarFields, s1: TarFields, s2: TarFields, s3: TarFields, s4: TarFields, s5: TarFields)
    requires s0 == Initial.(args := s0.args)
    requires forall k :: 0 <= k < |s0.args| ==> !s0.args[k].handled
    requires OptFParsed(s0, s1) && OptVParsed(s1, s2)
    requires UnusedFilesPrepared(s2, s3)
    requires OptTParsed(s3, s4) && OptXParsed(s4, s5)
    ensures ArgsParsed(s0, s5)
  {
    var vs := ValuesOf(s0.args);
    MarkedFV(s0, s1, s2);
    RequestedAfterFV(s2.args, vs);
    ConsumedAfterTX(s2.args, s4.args, s5.args, vs);
    assert ValuesOf(s1.args) == ValuesOf(s3.args) == ValuesOf(s4.args) == vs;
    var o := OptionsOf(s5);
    assert o.fIsSet == s1.fIsSet && o.archiveName == s1.archiveName && o.vIsSet == s2.vIsSet;
    assert o.tIsSet == s4.tIsSet && o.requested == s3.filesFromArgs;
    ParsedOptions(vs, o);
  }

  /** The flags and names the option parsers set, one by one, add up to `Parse`. */
  lemma ParsedOptions(vs: seq<Bytes>, o: Options)
    requires var fi := OptionIndex(vs, OptF);
             && o.fIsSet == (fi != NotFound && fi + 1 != |vs|)
             && o.archiveName == (if o.fIsSet then vs[fi + 1] else [])
             && o.vIsSet == (OptionIndex(vs, OptV) != NotFound)
             && o.tIsSet == (OptionIndex(vs, OptT) != NotFound)
             && o.xIsSet == (OptionIndex(vs, OptX) != NotFound)
             && o.requested == Parse(vs).requested
             && o.handleAll == ((o.tIsSet || o.xIsSet) && |o.requested| == 0)
    ensures o == Parse(vs)
  {
  }

  /** What a run of mytar leaves behind: how it ends, what it printed and wrote, its return code. */
  datatype TarRun = TarRun(outcome: Outcome, output: seq<Effect>, returnCode: int)

  /**
   * `run_tar` from `main`'s initial state: the arguments after the program
   * name are parsed, and the run goes on as `RunParsed` says.
   */
  function Run(rawArgv: seq<Bytes>, files: map<Bytes, Bytes>): (r: TarRun)
    requires |rawArgv| >= 1
  {
    RunParsed(Parse(rawArgv[1..]), |rawArgv| - 1, files)
  }

  /** The settings the scan reads after `parse_args` decided `o`, with `argc` arguments after the program name. */
  function RunConfig(o: Options, argc: nat): Config
  {
    Config(o.tIsSet, o.xIsSet, o.vIsSet, o.requested, o.handleAll, argc)
  }

  /**
   * The rest of `run_tar` once the options `o` are known, with `argc`
   * arguments after the program name: the argument checks come first, then
   * the archive named with -f is read from `files` and scanned.
   */
  function RunParsed(o: Options, argc: nat, files: map<Bytes, Bytes>): (r: TarRun)
  {
    match ArgsCheck(o)
    case Stop(abort) => TarRun(Aborted(abort), [], 0)
    case Pass =>
      if o.archiveName !in files then TarRun(Aborted(Fatal(CannotOpenArchive)), [], 0)
      else
        var run := HandleArchiveRun(files[o.archiveName], RunConfig(o, argc), ScanState([], [], []), 0);
        TarRun(run.outcome, run.state.output, run.returnCode)
  }

  /**
   * What `main` adds after `run_tar` returns: the failure notice when the
   * return code is not 0. A run that stopped inside `run_tar` has already
   * exited.
   */
  function Finished(r: TarRun): TarRun
  {
    if r.outcome == Returned && r.returnCode != 0 then r.(output := r.output + [FailureStatusReported]) else r
  }

  /**
   * The process's exit status: 2 from `err`/`errf`, otherwise `main`'s
   * exit with the return code (or its return, when the code is 0); none
   * where the C behaviour is undefined, and none where the model refuses a
   * negative size, on which the C loop need not end, or a partial trailing
   * record that is not all zeros.
   */
  function ExitStatus(r: TarRun): Option<int>
  {
    match r.outcome
    case Returned => Some(r.returnCode)
    case Aborted(Fatal(_)) => Some(FatalExitCode)
    case Aborted(Undefined(_)) => None
    case Aborted(RefusedNegativeSize(_)) => None
    case Aborted(RefusedPartialRecord) => None
  }

  /** `main`: a fresh `tar_state` for the command line, `run_tar`, then the failure notice. */
  method TarMain(rawArgv: seq<Bytes>, files: map<Bytes, Bytes>) returns (r: TarRun)
    requires |rawArgv| >= 1
    ensures r == Finished(Run(rawArgv, files))
  {
    var tar := new TarState(rawArgv);
    var outcome := tar.RunTar(files);
    r := TarRun(outcome, tar.output, tar.returnCode);
    if outcome == Returned && tar.returnCode != 0 {
      r := r.(output := r.output + [FailureStatusReported]);
    }
  }
}
