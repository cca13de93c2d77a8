/**
 * The archive scan of mytar's `handle_archive`: the end-of-scan test, the
 * name filter, one step per header (validate, act, record, skip), the
 * not-found report and the end-of-archive classification, as functions of
 * the archive bytes. The class in module MyTar runs the same scan with a
 * loop and is proved equal to these functions.
 */
module Archive {
  import opened TarFormat

  // ---------------------------------------------------------------------
  // Outcomes and observable effects

  /** The fatal `err`/`errf` calls of the scanner and of the argument checks; all exit with 2. */
  datatype Failure =
    | NotATarArchive                     // "This does not look like a tar archive"
    | UnsupportedHeaderType(typeflag: byte)
    | UnexpectedEof                      // "Unexpected EOF in archive"
    | CannotOpenArchive
    | ArchiveNotSpecified
    | ActionNotSpecified

  const FatalExitCode: int := 2

  /** Points where the C program's behaviour is undefined; the model stops there. */
  datatype UndefinedBehaviour =
    | SizeOverflow        // to_int overflows a signed int
    | NegativeWriteCount  // extract_file passes a negative byte count to fwrite
    | FoundFilesOverflow  // found_files has argc slots and one more name is stored
    | PartialRecord       // rec_is_null reads past the buffer: a partial trailing record with only zero bytes in it
    | MisalignedEnd       // extract_file subtracts record pointers from a buff_end that is not whole records away

  /**
   * How a run stops before its normal end. `RefusedNegativeSize` is where
   * the model departs from the C code: mytar does not check the sign of a
   * decoded size: from -512 to -1023 its iterator stays on the same header
   * (`NegativeSizeStalls`), and below that it moves backward. The model
   * refuses every negative size. `RefusedPartialRecord` is the other such
   * place: on a partial trailing record that `is_on_end_of_buffer` does not
   * take for the end, mytar goes on to validate the tail as a header, which
   * reads past the buffer for a tail shorter than 258 bytes and is defined
   * for some longer ones; the model declines every such record.
   */
  datatype Abort =
    | Fatal(failure: Failure)
    | Undefined(reason: UndefinedBehaviour)
    | RefusedNegativeSize(size: int)
    | RefusedPartialRecord

  /** What the program prints and writes, in order. */
  datatype Effect =
    | Printed(name: Bytes)            // printf("%s\n", name): the -t listing and the -v echo
    | Wrote(name: Bytes, data: Bytes) // the file extract_file creates and the bytes fwrite puts in it
    | NotFoundReported(name: Bytes)   // "mytar: <name>: Not found in archive"
    | LoneZeroBlockWarned             // "mytar: A lone zero block at 22"
    | FailureStatusReported           // main's "mytar: Exiting with failure status due to previous errors"

  // ---------------------------------------------------------------------
  // End of scan: is_on_end_of_buffer

  /**
   * The scan stops at record `cur`: it starts at or past `buff_end`, the
   * byte just past the buffer, or it is a null record.
   */
  predicate AtEndOfBuffer(buf: Bytes, cur: nat)
  {
    cur * 512 >= |buf| || (cur < RecordCount(buf) && IsNullRecord(buf, cur))
  }

  /**
   * Record `cur` starts inside the buffer but does not fit in it: the
   * buffer's length is not a multiple of 512 and this is its tail.
   */
  predicate PartialRecordAt(buf: Bytes, cur: nat)
  {
    cur >= RecordCount(buf) && cur * 512 < |buf|
  }

  /** Every byte of record `cur` that lies inside the buffer is zero. */
  predicate NullTail(buf: Bytes, cur: nat)
  {
    forall i :: cur * 512 <= i < |buf| ==> buf[i] == Nul
  }

  /** What `is_on_end_of_buffer` does with record `cur`. */
  datatype EndTest =
    | AtEnd            // returns true
    | NotAtEnd         // returns false
    | ReadsPastBuffer  // rec_is_null finds only zeros up to buff_end and reads on past it

  /**
   * `is_on_end_of_buffer`: true past the buffer or on a null record. On a
   * partial trailing record `rec_is_null` still scans 512 bytes and stops
   * at the first non-zero one, so the result is false when the in-buffer
   * tail holds one, and the read crosses the buffer's end when it does not.
   */
  method IsOnEndOfBuffer(buf: Bytes, cur: nat) returns (t: EndTest)
    ensures t == AtEnd <==> cur * 512 >= |buf| ||
                            (|buf| >= (cur + 1) * 512 &&
                             forall i :: cur * 512 <= i < (cur + 1) * 512 ==> buf[i] == Nul)
    ensures t == ReadsPastBuffer <==> cur * 512 < |buf| < (cur + 1) * 512 &&
                                      forall i :: cur * 512 <= i < |buf| ==> buf[i] == Nul
    ensures t == AtEnd <==> AtEndOfBuffer(buf, cur)
    ensures t == ReadsPastBuffer <==> PartialRecordAt(buf, cur) && NullTail(buf, cur)
  {
    if cur * 512 >= |buf| {
      return AtEnd;
    }
    if cur < RecordCount(buf) {
      var isNull := RecIsNull(buf, cur);
      return if isNull then AtEnd else NotAtEnd;
    }
    for i := cur * 512 to |buf|
      invariant forall j :: cur * 512 <= j < i ==> buf[j] == Nul
    {
      if buf[i] != Nul {
        return NotAtEnd;
      }
    }
    return ReadsPastBuffer;
  }

  // ---------------------------------------------------------------------
  // End-of-archive classification: assert_archive_consistency

  datatype EndCheck = Clean | LoneZeroBlock | Truncated

  /**
   * `assert_archive_consistency`: `final` is the record index where the
   * scan stopped and `size` the length of the buffer, so `buff_end` is
   * byte `size`; the pointers compared are bytes `final * 512` and
   * `(final + 1) * 512`.
   */
  function CheckConsistency(final: nat, size: nat): (c: EndCheck)
    ensures c == LoneZeroBlock <==> (final + 1) * 512 == size
    ensures c == Truncated <==> (final + 1) * 512 > size && final * 512 != size
    ensures c == Clean <==> final * 512 == size || (final + 1) * 512 < size
  {
    if final * 512 == size then Clean
    else if (final + 1) * 512 == size then LoneZeroBlock
    else if (final + 1) * 512 > size then Truncated
    else Clean
  }

  /**
   * For a buffer of `end` whole records, the classification by record
   * index: silent at `end`, the lone-zero-block warning one record before
   * it, "Unexpected EOF" past it, and silent further before it.
   */
  lemma ConsistencyInRecords(final: nat, end: nat)
    ensures var c := CheckConsistency(final, end * 512);
      && (c == Clean <==> final == end || final + 1 < end)
      && (c == LoneZeroBlock <==> final + 1 == end)
      && (c == Truncated <==> final > end)
  {
    if final > end {
      assert (final + 1) * 512 > end * 512;
    } else if final + 1 < end {
      assert (final + 1) * 512 < end * 512;
    }
  }

  // ---------------------------------------------------------------------
  // Content extraction arithmetic: extract_file

  /** How many bytes `extract_file` writes, and whether it then fails. */
  datatype ExtractPlan = ExtractPlan(count: int, truncated: bool)

  /**
   * The byte count of `extract_file` for a header at record `h` whose
   * entry declares `size` bytes, in a buffer of `end` records. When the
   * entry runs past the buffer, what is written is every byte after the
   * header except the padding its missing last record would have held.
   */
  function PlanExtraction(end: nat, h: nat, size: nat): (x: ExtractPlan)
    requires h < end
    ensures x.truncated <==> h + RecordsToSkip(size) > end
    ensures !x.truncated ==> x.count == size
    ensures x.truncated ==> x.count == (end - h - 1) * 512 - Padding(size) && x.count < size
    ensures x.count >= 0 ==> (h + 1) * 512 + x.count <= end * 512
  {
    var expectedEnd := h + RecordsToSkip(size);
    if expectedEnd > end then
      SkipCoversContentAndPadding(size);
      ExtractPlan(size - (expectedEnd - end) * 512, true)
    else
      ExtractPlan(size, false)
  }

  /**
   * The count is negative, which the C code hands to `fwrite` as a huge
   * unsigned size, exactly when the header is the buffer's last record and
   * the size is not a multiple of 512.
   */
  lemma NegativeCountIff(end: nat, h: nat, size: nat)
    requires h < end
    ensures PlanExtraction(end, h, size).count < 0 <==> h + 1 == end && size % 512 != 0
  {
    var x := PlanExtraction(end, h, size);
    if h + 1 == end && size % 512 != 0 {
      assert RecordsToSkip(size) >= 2;
    }
    if x.count < 0 {
      assert x.truncated;
    }
  }

  // ---------------------------------------------------------------------
  // Name filter and found names

  predicate Wanted(requested: seq<Bytes>, name: Bytes)
  {
    |requested| == 0 || name in requested
  }

  /** `is_wanted_file`: every entry is wanted when no names were requested. */
  method IsWantedFile(requested: seq<Bytes>, name: Bytes) returns (wanted: bool)
    ensures wanted <==> |requested| == 0 || name in requested
  {
    if |requested| == 0 {
      return true;
    }
    for i := 0 to |requested|
      invariant name !in requested[..i]
    {
      if requested[i] == name {
        return true;
      }
    }
    assert requested[..|requested|] == requested;
    return false;
  }

  /** `file_found`. */
  method FileFound(found: seq<Bytes>, name: Bytes) returns (isFound: bool)
    ensures isFound <==> name in found
  {
    for i := 0 to |found|
      invariant name !in found[..i]
    {
      if name == found[i] {
        return true;
      }
    }
    assert found[..|found|] == found;
    return false;
  }

  /** The requested names that were never found, in the order they were requested. */
  function Missing(requested: seq<Bytes>, found: seq<Bytes>): (m: seq<Bytes>)
    ensures |m| <= |requested|
  {
    if requested == [] then []
    else
      var init := requested[..|requested| - 1];
      var last := requested[|requested| - 1];
      Missing(init, found) + (if last in found then [] else [last])
  }

  /** A name is reported missing exactly when it was requested and never found. */
  lemma {:induction false} MissingMembers(requested: seq<Bytes>, found: seq<Bytes>)
    ensures forall x :: x in Missing(requested, found) <==> x in requested && x !in found
    decreases |requested|
  {
    if requested != [] {
      var init := requested[..|requested| - 1];
      MissingMembers(init, found);
      assert requested == init + [requested[|requested| - 1]];
    }
  }

  function NotFoundReports(missing: seq<Bytes>): (r: seq<Effect>)
    ensures |r| == |missing|
    ensures forall i :: 0 <= i < |r| ==> r[i] == NotFoundReported(missing[i])
  {
    seq(|missing|, i requires 0 <= i < |missing| => NotFoundReported(missing[i]))
  }

  // ---------------------------------------------------------------------
  // One header: the body of handle_archive's loop

  /** The run's settings that the scan reads from `tar_state`. */
  datatype Config = Config(
    list: bool,              // t_is_set
    extract: bool,           // x_is_set
    verbose: bool,           // v_is_set
    requested: seq<Bytes>,   // files_from_args
    handleAll: bool,         // handle_all_files
    capacity: nat)           // the number of slots of found_files (argc)

  /** What the scan has done so far: found_files, the output, and the headers visited. */
  datatype ScanState = ScanState(found: seq<Bytes>, output: seq<Effect>, visited: seq<nat>)

  datatype ScanEnd = EndOfScan(at: nat) | ScanAborted(abort: Abort)

  datatype Step = Advance(next: nat, state: ScanState) | Halt(state: ScanState, abort: Abort)

  /** The validator's verdict on the header at record `r`. */
  function Verdict(buf: Bytes, r: nat): HeaderVerdict
    requires r < RecordCount(buf)
  {
    var h := HeaderAt(buf, r);
    ValidateHeader(h.magic, h.typeflag)
  }

  /** The entry size that `to_int` decodes from the header at record `r`. */
  function SizeAt(buf: Bytes, r: nat): int
    requires r < RecordCount(buf)
  {
    OctalFold(HeaderAt(buf, r).sizeText)
  }

  /** The content bytes of the entry whose header is record `h`, up to `count`. */
  function ContentBytes(buf: Bytes, h: nat, count: nat): (data: Bytes)
    requires (h + 1) * 512 + count <= |buf|
    ensures |data| == count
    ensures forall i :: 0 <= i < count ==> data[i] == buf[(h + 1) * 512 + i]
  {
    buf[(h + 1) * 512..(h + 1) * 512 + count]
  }

  /**
   * The file `extract_file` creates for the entry whose header is record
   * `cur`, holding the bytes after the header that the buffer has for the
   * entry; nothing is written when that count is negative.
   */
  function Extracted(buf: Bytes, cur: nat): seq<Effect>
    requires cur < RecordCount(buf)
  {
    var size := SizeAt(buf, cur);
    if size < 0 then []
    else
      var x := PlanExtraction(RecordCount(buf), cur, size);
      if x.truncated && |buf| % 512 != 0 then []
      else if x.count < 0 then []
      else [Wrote(HeaderAt(buf, cur).name, ContentBytes(buf, cur, x.count))]
  }

  /**
   * The file extracted for an entry that fits in the buffer holds the
   * entry's `size` bytes right after its header; they end in the last
   * record the iterator skips, less than a record before the next header.
   */
  lemma ExtractedFileIsContent(buf: Bytes, cur: nat)
    requires cur < RecordCount(buf) && HeaderCheck(buf, cur).Pass?
    requires NextHeader(buf, cur) <= RecordCount(buf)
    ensures var size, start := SizeAt(buf, cur), (cur + 1) * 512;
      && start + size <= NextHeader(buf, cur) * 512 < start + size + 512
      && Extracted(buf, cur) == [Wrote(HeaderAt(buf, cur).name, buf[start..start + size])]
  {
    var size := SizeAt(buf, cur);
    SkipCoversContentAndPadding(size);
    assert NextHeader(buf, cur) == cur + RecordsToSkip(size);
    var x := PlanExtraction(RecordCount(buf), cur, size);
    assert !x.truncated && x.count == size;
  }

  /** What acting on a wanted entry prints and writes: its name for -t; for -x the -v echo and the extracted file. */
  function EntryEffects(buf: Bytes, cur: nat, cfg: Config): seq<Effect>
    requires cur < RecordCount(buf)
  {
    var name := HeaderAt(buf, cur).name;
    if cfg.list then [Printed(name)]
    else if cfg.extract then (if cfg.verbose then [Printed(name)] else []) + Extracted(buf, cur)
    else []
  }

  /** Whether the loop goes on past a check, or the run stops there and why. */
  datatype Check = Pass | Stop(abort: Abort)

  /**
   * `assert_valid_header` and the decoding of the size field of the header
   * at record `cur`: the run stops on a header that fails validation, C's
   * behaviour is undefined when `to_int` overflows, and the model refuses
   * a negative size, which the C code lets through.
   */
  function HeaderCheck(buf: Bytes, cur: nat): (c: Check)
    requires cur < RecordCount(buf)
    ensures c.Pass? <==> Verdict(buf, cur) == Accepted && FoldFitsInt(HeaderAt(buf, cur).sizeText) && SizeAt(buf, cur) >= 0
    ensures Verdict(buf, cur) == NotTarArchive ==> c == Stop(Fatal(NotATarArchive))
    ensures Verdict(buf, cur).UnsupportedType? ==> c == Stop(Fatal(UnsupportedHeaderType(HeaderAt(buf, cur).typeflag)))
    ensures Verdict(buf, cur) == Accepted && !FoldFitsInt(HeaderAt(buf, cur).sizeText) ==> c == Stop(Undefined(SizeOverflow))
    ensures Verdict(buf, cur) == Accepted && FoldFitsInt(HeaderAt(buf, cur).sizeText) && SizeAt(buf, cur) < 0 ==>
              c == Stop(RefusedNegativeSize(SizeAt(buf, cur)))
  {
    var h := HeaderAt(buf, cur);
    match ValidateHeader(h.magic, h.typeflag)
    case NotTarArchive => Stop(Fatal(NotATarArchive))
    case UnsupportedType(t) => Stop(Fatal(UnsupportedHeaderType(t)))
    case Accepted =>
      if !FoldFitsInt(h.sizeText) then Stop(Undefined(SizeOverflow))
      else if OctalFold(h.sizeText) < 0 then Stop(RefusedNegativeSize(OctalFold(h.sizeText)))
      else Pass
  }

  /** The size field "/000": '/' is one below '0', so it decodes to -512. */
  const StallingSizeText: Bytes := ['/' as byte, CharZero, CharZero, CharZero]

  /**
   * The C code as written on a header whose size field reads "/000": the
   * size decodes to -512, whose skip is 0, so `move_next_record_iterator`
   * returns the header it was given and the loop of `handle_archive`
   * visits it for ever. The model refuses it instead.
   */
  lemma NegativeSizeStalls(buf: Bytes, cur: nat)
    requires cur < RecordCount(buf) && HeaderAt(buf, cur).sizeText == StallingSizeText
    ensures FoldFitsInt(HeaderAt(buf, cur).sizeText) && SizeAt(buf, cur) == -512
    ensures cur + SkipAsWritten(SizeAt(buf, cur)) == cur
    ensures Verdict(buf, cur) == Accepted ==> HeaderCheck(buf, cur) == Stop(RefusedNegativeSize(-512))
  {
    var t1 := ['/' as byte];
    var t2 := t1 + [CharZero];
    var t3 := t2 + [CharZero];
    assert t1[..0] == [] && t2[..1] == t1 && t3[..2] == t2 && StallingSizeText[..3] == t3;
    assert DigitValue('/' as byte) == -1 && DigitValue(CharZero) == 0;
    assert OctalFold(t1) == -1 && FoldFitsInt(t1);
    assert OctalFold(t2) == -8 && FoldFitsInt(t2);
    assert OctalFold(t3) == -64 && FoldFitsInt(t3);
    assert FoldFitsInt(StallingSizeText);
  }

  /**
   * Every header the scan accepts moves the iterator strictly forward, to
   * the record the C arithmetic computes: refusing negative sizes is what
   * makes the loop end.
   */
  lemma AcceptedHeaderMovesForward(buf: Bytes, cur: nat)
    requires cur < RecordCount(buf) && HeaderCheck(buf, cur).Pass?
    ensures cur < cur + SkipAsWritten(SizeAt(buf, cur)) == NextHeader(buf, cur)
  {
  }

  /**
   * How `extract_file` ends for the entry whose header is record `cur`:
   * for an entry that runs past the buffer, undefined behaviour when the
   * buffer is not whole records long (the count subtracts record pointers
   * from `buff_end`) or when the byte count handed to `fwrite` is negative,
   * and otherwise the truncation error.
   */
  function ExtractCheck(buf: Bytes, cur: nat): (c: Check)
    requires cur < RecordCount(buf) && SizeAt(buf, cur) >= 0
    ensures c.Pass? <==> NextHeader(buf, cur) <= RecordCount(buf)
    ensures c == Stop(Undefined(MisalignedEnd)) <==> NextHeader(buf, cur) > RecordCount(buf) && |buf| % 512 != 0
    ensures c == Stop(Undefined(NegativeWriteCount)) <==>
              |buf| % 512 == 0 && cur + 1 == RecordCount(buf) && SizeAt(buf, cur) % 512 != 0
    ensures c == Stop(Fatal(UnexpectedEof)) <==>
              NextHeader(buf, cur) > RecordCount(buf) && |buf| % 512 == 0 &&
              !(cur + 1 == RecordCount(buf) && SizeAt(buf, cur) % 512 != 0)
  {
    NegativeCountIff(RecordCount(buf), cur, SizeAt(buf, cur));
    var x := PlanExtraction(RecordCount(buf), cur, SizeAt(buf, cur));
    if x.truncated && |buf| % 512 != 0 then Stop(Undefined(MisalignedEnd))
    else if x.count < 0 then Stop(Undefined(NegativeWriteCount))
    else if x.truncated then Stop(Fatal(UnexpectedEof))
    else Pass
  }

  /**
   * What can stop the run once a wanted entry has been acted on: for -x,
   * `extract_file`'s negative byte count or its truncation error; then
   * storing the name in a full found_files, which has `cfg.capacity` slots.
   */
  function ActionCheck(buf: Bytes, cur: nat, cfg: Config, foundCount: nat): (c: Check)
    requires cur < RecordCount(buf) && SizeAt(buf, cur) >= 0
    ensures c.Pass? <==>
              (cfg.extract && !cfg.list ==> NextHeader(buf, cur) <= RecordCount(buf)) &&
              (!cfg.handleAll ==> foundCount < cfg.capacity)
    ensures cfg.extract && !cfg.list && ExtractCheck(buf, cur).Stop? ==> c == ExtractCheck(buf, cur)
    ensures c.Stop? && !(cfg.extract && !cfg.list && ExtractCheck(buf, cur).Stop?) ==>
              c == Stop(Undefined(FoundFilesOverflow))
  {
    if !cfg.list && cfg.extract && ExtractCheck(buf, cur).Stop? then ExtractCheck(buf, cur)
    else if !cfg.handleAll && foundCount >= cfg.capacity then Stop(Undefined(FoundFilesOverflow))
    else Pass
  }

  /**
   * Where `move_next_record_iterator` leaves the iterator after the entry
   * whose header is record `h`: past the header and the records holding
   * its content. The scan refuses a negative size before it gets here;
   * such an entry is given no content.
   */
  function NextHeader(buf: Bytes, h: nat): (n: nat)
    requires h < RecordCount(buf)
    ensures n > h
    ensures SizeAt(buf, h) >= 0 ==> (n - h - 1) * 512 >= SizeAt(buf, h) > (n - h - 2) * 512
  {
    var size := SizeAt(buf, h);
    h + (if size < 0 then 1 else RecordsToSkip(size))
  }

  /**
   * One pass of `handle_archive`'s loop over the header at record `cur`:
   * validate it, act on it if wanted, record it as found, and move to the
   * next header.
   */
  function EntryStep(buf: Bytes, cur: nat, cfg: Config, st: ScanState): (r: Step)
    requires cur < RecordCount(buf)
    ensures r.state.visited == st.visited + [cur]
    ensures HeaderCheck(buf, cur).Stop? ==> r == Halt(st.(visited := st.visited + [cur]), HeaderCheck(buf, cur).abort)
    ensures r.Advance? <==>
      HeaderCheck(buf, cur).Pass? &&
      (Wanted(cfg.requested, HeaderAt(buf, cur).name) ==> ActionCheck(buf, cur, cfg, |st.found|).Pass?)
    ensures r.Halt? && HeaderCheck(buf, cur).Pass? ==>
      && Wanted(cfg.requested, HeaderAt(buf, cur).name)
      && r.abort == ActionCheck(buf, cur, cfg, |st.found|).abort
      && r.state.output == st.output + EntryEffects(buf, cur, cfg)
      && r.state.found == st.found
    ensures r.Advance? ==> HeaderCheck(buf, cur).Pass? && r.next == NextHeader(buf, cur)
    ensures r.Advance? ==>
      var name := HeaderAt(buf, cur).name;
      var wanted := Wanted(cfg.requested, name);
      && r.state.output == st.output + (if wanted then EntryEffects(buf, cur, cfg) else [])
      && r.state.found == st.found + (if wanted && !cfg.handleAll then [name] else [])
      && (wanted && cfg.extract && !cfg.list ==> r.next <= RecordCount(buf))
  {
    var name := HeaderAt(buf, cur).name;
    var st1 := st.(visited := st.visited + [cur]);
    match HeaderCheck(buf, cur)
    case Stop(abort) => Halt(st1, abort)
    case Pass =>
      var next := NextHeader(buf, cur);
      if !Wanted(cfg.requested, name) then Advance(next, st1)
      else
        var st2 := st1.(output := st1.output + EntryEffects(buf, cur, cfg));
        match ActionCheck(buf, cur, cfg, |st.found|)
        case Stop(abort) => Halt(st2, abort)
        case Pass => Advance(next, if cfg.handleAll then st2 else st2.(found := st2.found + [name]))
  }

  // ---------------------------------------------------------------------
  // The whole scan

  datatype ScanResult = ScanResult(state: ScanState, end: ScanEnd)

  /** `handle_archive`'s loop from record `cur` on. */
  function ScanFrom(buf: Bytes, cur: nat, cfg: Config, st: ScanState): (r: ScanResult)
    decreases RecordCount(buf) - cur
  {
    if PartialRecordAt(buf, cur) then
      ScanResult(st, ScanAborted(if NullTail(buf, cur) then Undefined(PartialRecord) else RefusedPartialRecord))
    else if AtEndOfBuffer(buf, cur) then ScanResult(st, EndOfScan(cur))
    else
      match EntryStep(buf, cur, cfg, st)
      case Advance(next, st') => ScanFrom(buf, next, cfg, st')
      case Halt(st', abort) => ScanResult(st', ScanAborted(abort))
  }

  /** How `handle_archive` ends: it returns, or the run stops inside it. */
  datatype Outcome = Returned | Aborted(abort: Abort)

  datatype ArchiveRun = ArchiveRun(state: ScanState, returnCode: int, outcome: Outcome)

  /**
   * `handle_archive` as a whole: the scan, then the not-found report (only
   * when a name filter is in force), then the end-of-archive check.
   */
  function HandleArchiveRun(buf: Bytes, cfg: Config, st: ScanState, returnCode: int): ArchiveRun
  {
    FinishArchive(buf, cfg, ScanFrom(buf, 0, cfg, st), returnCode)
  }

  /** What `handle_archive` does after its loop has ended as `scan` says. */
  function FinishArchive(buf: Bytes, cfg: Config, scan: ScanResult, returnCode: int): ArchiveRun
  {
    match scan.end
    case ScanAborted(abort) => ArchiveRun(scan.state, returnCode, Aborted(abort))
    case EndOfScan(final) =>
      var missing := if cfg.handleAll then [] else Missing(cfg.requested, scan.state.found);
      var rc := if missing != [] then FatalExitCode else returnCode;
      var reported := scan.state.output + NotFoundReports(missing);
      match CheckConsistency(final, |buf|)
      case Clean => ArchiveRun(scan.state.(output := reported), rc, Returned)
      case LoneZeroBlock => ArchiveRun(scan.state.(output := reported + [LoneZeroBlockWarned]), rc, Returned)
      case Truncated => ArchiveRun(scan.state.(output := reported), rc, Aborted(Fatal(UnexpectedEof)))
  }
}
