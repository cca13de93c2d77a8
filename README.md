# mytar in Dafny

A model of `mytar`, a small tar reader written in C, with proofs about the model. `mytar -f ARCHIVE -t|-x [-v] [NAME...]` loads the whole archive into one buffer. It then walks the buffer in 512-byte records, header by header:

1. It validates each header.
2. If the header's name is wanted, it lists the entry (`-t`) or extracts it (`-x`, echoing the name with `-v`).
3. It skips over the entry's content records.

At the end it reports the requested names that no header carried, then classifies how the archive ended: clean, a "lone zero block", or "Unexpected EOF".

## Modules

| file | module | what it holds |
|---|---|---|
| `tar_format.dfy` | `TarFormat` | The record layout (`struct tar_record`) and C strings read from the buffer. `to_int` as a loop proved equal to a left fold, which in turn is proved equal to the positional octal value. `rec_is_null`, the header verdict of `assert_valid_header`, and the record-skip arithmetic. |
| `archive.dfy` | `Archive` | The scan as functions of the archive bytes: `EntryStep` is one pass of `handle_archive`'s loop, `ScanFrom` the loop, and `HandleArchiveRun` the whole of `handle_archive`. Also the end-of-buffer test, the extraction byte count, the name filter, the not-found list and the end-of-archive check. |
| `args.dfy` | `Args` | The command line as values. `find_option_loc`, the operand list of `prepare_unused_files_from_args`, and `Parse`, the one function of the argument values that `parse_args` computes. |
| `my_tar.dfy` | `MyTar` | `struct tar_state` as the class `TarState`, whose methods update its fields as the C functions do. Each method is proved against the functions above. `Run` is the whole `run_tar`, and `TarMain` is `main`. |
| `scan_properties.dfy` | `ScanProperties` | What `handle_archive` promises, proved about the scan functions. |
| `run_properties.dfy` | `RunProperties` | What a whole run promises: its exit status, the failure notice and the not-found status. |

### Modelling choices

- The archive is a `seq<byte>`. The record iterator is a record index, and `buff_end` is byte `|buf|`. Both of the scan's end tests compare byte positions, as the C pointers do. When the length is not a multiple of 512 the buffer ends in a partial record; `is_on_end_of_buffer` is modelled on it as in C, but the scan goes no further there (see below).
- What the program prints and writes is a sequence of `Effect`s held in the state, in order:
  - a listed or echoed name;
  - an extracted file with its bytes;
  - a not-found report;
  - the lone-zero-block warning;
  - `main`'s failure notice.
- The file system is a map from archive names to their bytes. A name missing from the map is an archive that cannot be opened.
- `err`/`errf` end the run with `Aborted(Fatal(...))`, whose exit status is 2 (`ExitStatus`).
- Points where the C behaviour is undefined end the run with `Aborted(Undefined(...))` rather than guessing what a compiler would do:
  - `to_int` overflowing an `int`;
  - a negative byte count handed to `fwrite`;
  - one name too many stored in `found_files`, which has `argc` slots;
  - `rec_is_null` reading past the buffer, on a partial trailing record whose bytes in the buffer are all zero;
  - `extract_file`'s pointer subtraction against a `buff_end` that is not whole records away.
- A header whose size decodes to a negative number ends the run with `Aborted(RefusedNegativeSize(size))`. The C code has no such check; the model departs from it here, for the reason given under "Findings".
- A partial trailing record that holds a non-zero byte ends the run with `Aborted(RefusedPartialRecord)`. The model declines every such record, including tails on which the C behaviour is defined (see "Left out").
- The arithmetic is that of gcc on x86-64 Linux (LP64): `char` is signed, `int` has 32 bits, `size_t` has 64 bits, and converting an unsigned value that does not fit into `int` wraps modulo 2^32. `to_int` folds `c - '0'` over any bytes, with no digit check, in unbounded integers, together with a flag saying whether every step stayed within a 32-bit `int`.
- The magic test is modelled as written: a header whose magic field reads as the C string "ustar" is rejected as "does not look like a tar archive". Any other magic passes the test.
- `load_buffer_with_file` reads the whole archive into one buffer, and the scan works on that buffer.
- The record skip is `size / 512 + 1 + (size % 512 != 0)`: the header plus the fewest records that hold `size` bytes, with no extra record when `size` is a multiple of 512 (`TarFormat.RecordsToSkip`, `TarFormat.SkipCoversContentAndPadding`). For a negative size the same expression is computed in `size_t` (`TarFormat.SkipAsWritten`).
- An archive whose scan stops more than one record before the buffer end ends silently: neither comparison of `assert_archive_consistency` holds there.

## Model

| member | source | states |
|---|---|---|
| TarFormat.SignedChar | mytar.c:73-82 | a byte read through C `char` is in -128..127 and congruent to the byte modulo 256 |
| TarFormat.CStringAt | mytar.c:69-71 | a C string in the buffer is the bytes up to the first NUL or the buffer end, contains no NUL, and is followed by NUL when it ends inside the buffer |
| TarFormat.ToInt | mytar.c:73-82 | `to_int` returns the fold `num * 8 + (c - '0')` over the characters before the first NUL, for any byte values, and reports whether every step stayed within a C `int` |
| TarFormat.OctalFoldIsPositional | mytar.c:73-82 | the fold equals the positional value, the sum of (c - '0') * 8^k |
| TarFormat.OctalFoldOfDigits | mytar.c:73-82 | decoding the octal numeral of n gives n back |
| TarFormat.OctalFoldLeadingZero | mytar.c:73-82 | leading '0' characters of a zero-padded size field do not change the value |
| TarFormat.RecIsNull | mytar.c:110-118 | `rec_is_null` is true exactly when all 512 bytes of the record are zero |
| TarFormat.HeaderFieldsAtDeclaredOffsets | mytar.c:12-21 | each header field is read at the running sum of the widths of the fields declared before it in `struct tar_record` (name 100, 24, size 12, 20, typeflag 1, 100, magic 6, 249), which add up to one 512-byte record |
| TarFormat.ValidateHeader | mytar.c:174-181 | a header passes exactly when its magic is not "ustar" and its type flag is '0'; it is "not a tar archive" exactly when the magic is "ustar" or the type flag is below '0'; otherwise "unsupported header type" with the flag |
| TarFormat.RecordsToSkip | mytar.c:131-138 | the skip is at least 1, and is the header plus the fewest 512-byte records that hold the size |
| TarFormat.SkipCoversContentAndPadding | mytar.c:131-138 | the content records of an entry hold exactly its bytes plus the padding of its last record |
| TarFormat.SkipAsWritten | mytar.c:131-138 | `num_of_recs` computed in `size_t` and converted back to `int`: `RecordsToSkip(size)` for a non-negative size, and 1 - k / 512 for a size of -k |
| TarFormat.SizeTQuotient | mytar.c:132-135 | the `size_t` remainder by 512 is the remainder of `size`, and the `size_t` quotient plus one, converted to `int`, is `size / 512 + 1` rounded down, for negative sizes too |
| Archive.IsOnEndOfBuffer | mytar.c:159-161 | the scan is at its end exactly when the record starts at or past `buff_end` or is a whole record whose bytes are all zero; on a partial trailing record the test reads past `buff_end` exactly when every byte before it is zero, and is false otherwise |
| Archive.CheckConsistency | mytar.c:163-172 | the lone-zero-block warning exactly when the record after the final one starts at `buff_end`; "Unexpected EOF" exactly when the record after the final one starts past `buff_end` and the final one is not at it; silent otherwise |
| Archive.ConsistencyInRecords | mytar.c:163-172 | for a buffer of E whole records and final record f: silent when f == E or f + 1 < E, the warning when f + 1 == E, "Unexpected EOF" when f > E |
| Archive.PlanExtraction | mytar.c:189-195 | the entry fits exactly when header + skip does not pass the buffer end, and then exactly `size` bytes are written; otherwise `size - (expected_end - buff_end) * 512` bytes, fewer than `size`, which are the bytes after the header less the missing padding |
| Archive.NegativeCountIff | mytar.c:193-197 | the byte count handed to `fwrite` is negative exactly when the header is the last record and the size is not a multiple of 512 |
| Archive.IsWantedFile | mytar.c:120-129 | an entry is wanted exactly when no names were requested or its name is one of them |
| Archive.FileFound | mytar.c:140-146 | `file_found` is true exactly when the name is in found_files |
| Archive.MissingMembers | mytar.c:148-157 | a name is reported not found exactly when it was requested and never found |
| Archive.HeaderCheck | mytar.c:174-181 | the pass goes on exactly when the header is accepted and its size decodes without overflow to a non-negative number; otherwise the `err`/`errf` failure of `assert_valid_header` for the verdict, the `to_int` overflow, or the refused negative size |
| Archive.NegativeSizeStalls | mytar.c:131-138 | as written, a header whose size field reads "/000" decodes to -512, and `move_next_record_iterator` returns that same header |
| Archive.AcceptedHeaderMovesForward | mytar.c:131-138 | for every header the scan accepts, the C skip moves the iterator strictly forward, to `NextHeader` |
| Archive.ExtractedFileIsContent | mytar.c:189-197 | an entry that fits is extracted as exactly its `size` bytes right after the header, which end less than a record before the next header |
| Archive.ExtractCheck | mytar.c:183-203 | `extract_file` returns exactly when the entry fits in the buffer; otherwise undefined behaviour exactly when the buffer is not whole records long, or when the entry is the last record and its size is not a multiple of 512, and "Unexpected EOF" exactly in the remaining cases |
| Archive.ActionCheck | mytar.c:224-233 | after a wanted entry is acted on, the pass goes on exactly when an extracted entry fits in the buffer and, when names are stored, found_files has a free slot; a stop is `extract_file`'s when that stops, and the found_files overflow otherwise |
| Archive.NextHeader | mytar.c:131-138 | the iterator moves strictly forward, past the header and the fewest records that hold the entry's size |
| Archive.EntryStep | mytar.c:220-236 | one pass records the header as visited. A header failing the checks halts the pass with its error and no output or stored name. The pass goes on exactly when the header passes and a wanted entry's action does not stop; when the action stops, the entry's effects are output first and no name is stored. When it goes on, the output grew by the entry's effects exactly when it was wanted, its name was stored exactly when it was wanted and names are kept, and the iterator moved to the next header |
| Args.Unparsed | mytar.c:341-356 | `prepare_args` gives the arguments after the program name, in order, none handled |
| Args.OptionIndex | mytar.c:246-253 | `find_option_loc` gives -1 exactly when the option is absent, otherwise the first position holding it |
| Args.OptionIndexUnique | mytar.c:246-253 | the first position holding the option is the only one with no earlier occurrence |
| Args.NonOptionsMembers | mytar.c:282-284 | the non-option values are exactly the values not starting with '-' (an empty argument counts as one) |
| Args.UnusedFilesSkipping | mytar.c:286-300 | when the archive name is the only handled argument not starting with '-', the file operands are the non-option arguments before and after it, in order |
| Args.UnusedFilesNone | mytar.c:286-300 | when no handled argument fails to start with '-', the file operands are all non-option arguments, in order |
| Args.Parse | mytar.c:331-339 | -v, -t and -x are set exactly when present; -f names an argument present; every requested name is an argument not starting with '-'; every entry is handled exactly when -t or -x is set and no name is requested |
| Args.Consumed | mytar.c:331-339 | the consumed positions are positions of the arguments |
| Args.ParseArchiveAndFiles | mytar.c:331-339 | -f names the archive exactly when its first occurrence has an argument after it, which is the name; every other argument not starting with '-' is a requested file |
| Args.ConsumedOptions | mytar.c:331-339 | the first -f and the argument after it, and the first -v, -t and -x, are consumed; every consumed position holds one of the four options or follows the first -f |
| Args.ArchiveNameIsNotRequested | mytar.c:267-300 | with distinct arguments, the archive name after -f is never also a requested name |
| Args.ArgsCheck | mytar.c:324-329 | the arguments pass exactly when -f named an archive and -t or -x was given; "archive not specified" exactly when -f did not; "action not specified" exactly when -f did but neither -t nor -x was given |
| MyTar.TarState.constructor | mytar.c:385-400 | `main`'s initialiser: nothing set, nothing found, return code 0 |
| MyTar.TarState.PrepareArgs | mytar.c:341-356 | argv becomes the arguments after the program name, none handled, and nothing else changes |
| MyTar.TarState.FindOptionLoc | mytar.c:246-253 | the loop returns the first position holding the option, or -1 |
| MyTar.TarState.ParseOptF | mytar.c:267-280 | unless -f is absent or last, -f and the next argument are marked handled and the next argument becomes the archive name; nothing else changes |
| MyTar.TarState.ParseOptV | mytar.c:314-322 | the first -v is marked handled and sets the echo flag; nothing else changes |
| MyTar.TarState.ParseOptT | mytar.c:302-312 | the first -t is marked handled and sets the list action, and every entry is handled exactly when no file operand was found |
| MyTar.TarState.ParseOptX | mytar.c:255-265 | the first -x is marked handled and sets the extract action, and every entry is handled exactly when no file operand was found |
| MyTar.TarState.PrepareUnusedFilesFromArgs | mytar.c:286-300 | files_from_args becomes the unhandled arguments not starting with '-', in order |
| MyTar.TarState.ParseArgs | mytar.c:331-339 | after the five steps the options are `Parse` of the argument values, exactly the positions in `Consumed` are handled, and the archive, found names, return code and output are unchanged |
| MyTar.TarState.AssertValidArgs | mytar.c:324-329 | the check is `ArgsCheck` of the parsed options |
| MyTar.TarState.LoadBufferWithFile | mytar.c:92-108 | an archive that cannot be opened stops the run with the buffer unchanged; otherwise the buffer holds the archive's bytes |
| MyTar.TarState.MoveNextRecordIterator | mytar.c:131-138 | for any size that decodes without overflow, the iterator moves by the C skip `SkipAsWritten`; for a header the scan accepts, strictly forward to `NextHeader` |
| MyTar.TarState.ExtractFile | mytar.c:183-203 | the output gains the extracted file (or nothing when the count cannot be written), and the run stops as `ExtractCheck` says |
| MyTar.TarState.AssertValidHeader | mytar.c:174-181 | the validation and size decoding end as `HeaderCheck` says |
| MyTar.TarState.THandleFile | mytar.c:205-207 | the entry's name is printed |
| MyTar.TarState.XHandleFile | mytar.c:209-215 | the name is echoed when -v is set, then the entry is extracted; the run stops as `ExtractCheck` says |
| MyTar.TarState.ActOnFile | mytar.c:226-229 | -t lists the entry, otherwise -x extracts it, with the effects `EntryEffects` gives |
| MyTar.TarState.HandleWantedFile | mytar.c:224-233 | a wanted entry is acted on and its name stored when names are kept; the pass stops as `ActionCheck` says |
| MyTar.TarState.HandleHeader | mytar.c:220-236 | one pass of the loop takes exactly the step `EntryStep` describes, on found_files, the output and the next iterator |
| MyTar.TarState.PrintNotFoundFiles | mytar.c:148-157 | each requested name not found is reported in order, and the return code becomes 2 exactly when there is one |
| MyTar.TarState.AssertArchiveConsistency | mytar.c:163-172 | the warning and the "Unexpected EOF" stop are those of `CheckConsistency` on the buffer length |
| MyTar.TarState.ScanArchive | mytar.c:217-236 | the loop ends with found_files, the output and the stop point that `ScanFrom` gives |
| MyTar.TarState.HandleArchive | mytar.c:217-242 | found_files, output, return code and outcome are those of `HandleArchiveRun` |
| MyTar.TarState.RunTar | mytar.c:372-382 | from `main`'s initial state, the outcome, output and return code are those of `Run` on the command line |
| MyTar.TarState.RunParsedArgs | mytar.c:374-379 | after parsing, the checks, the load and the scan end as `RunParsed` says for the parsed options |
| MyTar.TarMain | mytar.c:385-410 | `main` ends as `run_tar` does, with the failure notice added when it returned with a non-zero code |
| MyTar.ParsedFromStart | mytar.c:331-356 | what `parse_args` decides after `prepare_args` depends only on the arguments after the program name, and nothing is found, printed or failed yet |
| MyTar.MarkedFV | mytar.c:267-280 | after `parse_opt_f` and `parse_opt_v`, exactly -f with its name and the first -v are handled |
| MyTar.RequestedAfterFV | mytar.c:286-300 | the file operands after -f and -v are handled are the requested names of `Parse` |
| MyTar.ConsumedAfterTX | mytar.c:302-312 | after -t and -x are marked too, exactly the positions in `Consumed` are handled |
| MyTar.ParseSteps | mytar.c:331-339 | the five parsing steps, from the initial state, add up to `ArgsParsed` |
| ScanProperties.ScanExtendsVisited | mytar.c:220-236 | the loop only appends headers inside the buffer to those visited |
| ScanProperties.ScanVisitsInOrder | mytar.c:217-236 | the headers visited lie at strictly increasing record indices inside the buffer |
| ScanProperties.ScanValidatesBeforeActing | mytar.c:217-224 | every visited header is a record inside the buffer and not an end record, and passed the header checks, except the last one of an aborted scan |
| ScanProperties.FailedHeaderIsNotActedOn | mytar.c:220-224 | when the last header visited fails the header checks, the run stops with that header's error, and the output and found_files hold only what the wanted entries before it produced |
| ScanProperties.ScanOutput | mytar.c:224-229 | a scan that reaches the end has output exactly the effects of the wanted entries it visited, in archive order |
| ScanProperties.ScanFound | mytar.c:231-232 | a scan that reaches the end stored exactly the names of the wanted entries it visited, in order, and nothing when every entry is handled |
| ScanProperties.WantedNamesMembership | mytar.c:224-232 | a name is stored exactly when it is wanted and some visited header carries it |
| ScanProperties.MissingAreUnseen | mytar.c:148-157 | a requested name is reported missing exactly when no visited header carries it |
| ScanProperties.ReportsUnseenNames | mytar.c:238-239 | with a name filter, the not-found reports follow the scan's output, name exactly the requested names no visited header carries, and the return code is 2 exactly when there is one (or it was 2) |
| ScanProperties.ScanStopsAfterLastEntry | mytar.c:235 | a scan that reaches the end stops just after the last entry it visited |
| ScanProperties.ScanEndsOnEndRecord | mytar.c:159-161 | a scan that reaches the end stops on a record at or past `buff_end` or on a null record |
| ScanProperties.ScanLastEntryFits | mytar.c:197-200 | the last entry of a scan that reaches the end is not an extracted entry that runs past the buffer |
| ScanProperties.ScanPastEndMeansShortEntry | mytar.c:163-172 | a scan that stops past `buff_end` did so after a validated entry too short for its declared size, which -x was not extracting |
| ScanProperties.TruncatedArchiveIsReported | mytar.c:163-172 | "Unexpected EOF" at the end of `handle_archive` exactly when the scan stopped past the last whole record |
| ScanProperties.PastEndInRecords | mytar.c:169-171 | a record that ends the scan lies past `buff_end` in bytes exactly when its index is past the last whole record |
| ScanProperties.LoneZeroBlockIsLastRecord | mytar.c:166-167 | when the scan stops one record before `buff_end`, it stopped on a null record, and the warning is the last output of a returning `handle_archive` |
| RunProperties.ScanNeverReportsFailure | mytar.c:220-236 | the scan never prints `main`'s failure notice |
| RunProperties.ArchiveRunCodeAndNotice | mytar.c:217-242 | `handle_archive` keeps the return code or sets it to 2, and never prints the failure notice |
| RunProperties.ExitStatusIsZeroOrTwo | mytar.c:402-409 | every run exits with 0 or 2, or reaches undefined behaviour, a negative size or a partial trailing record the model refuses |
| RunProperties.FailureNoticeIffStatusTwo | mytar.c:404-409 | the failure notice is printed exactly when `run_tar` returned and the exit status is 2, and it is then the last output |
| RunProperties.NotFoundIsFailure | mytar.c:148-157 | with a name filter, a run that reaches its end exits with 2 exactly when some requested name is carried by no visited header |

## Left out

- File I/O:
  - `get_file_size`, `fread` and `fclose` are replaced by the map of archive bytes.
  - The file `extract_file` creates is an `Effect` holding its name and bytes.
  - A failure to create that file ("cannot write to file") is not modelled.
- `printf` formats are not modelled, and neither is process termination. Each message is an `Effect` or an `Abort` value, and `ExitStatus` gives the status.
- Memory:
  - `malloc`/`free`, `assert_memory` and `free_memory` are not modelled.
  - An allocation failure ("out of memory") is not modelled.
  - `found_files` and `files_from_args` are sequences; their `argc`-slot bound is checked only where it can be exceeded (`FoundFilesOverflow`).
- Pointer arithmetic that moves the record iterator more than one past the buffer end is taken as plain index arithmetic. So is reading a C string field that has no NUL before the buffer end, which the model reads up to the buffer end.
- Integers are unbounded except in `to_int`, whose 32-bit overflow is flagged, and in the `size_t` and `int` conversions of `TarFormat.SkipAsWritten`.
- Archive.PlanExtraction: does not flag the `int` product `(expected_end - buff_end) * 512` in `extract_file` overflowing. That can only happen for a declared size within 1024 bytes of the largest `int`.
- MyTar.TarState.ParseArgs: its contract is stated for the state `prepare_args` leaves (flags clear, no argument handled), the only state `run_tar` calls it in.
- Archive.HeaderCheck: refuses every negative decoded size. The C code goes on with the `size_t` skip of `TarFormat.SkipAsWritten`: 1 for -1 to -511 (the next record is read as a header), 0 for -512 to -1023 (the loop never ends), and a negative skip below that (-1 for -1024 to -1535, -2 for -1536 to -2047, and so on), which moves the iterator backward: to an earlier record, which the loop reads again, or before the buffer when the skip exceeds the header's record index. The model does not follow those runs.
- Archive.ScanFrom: declines every partial trailing record that `is_on_end_of_buffer` does not take for the end (`RefusedPartialRecord`). The C code validates the tail as a header. A tail shorter than 258 bytes reads past the buffer there. A longer tail can pass with a '0' type flag, a magic not starting with 'u', and a name and size that end inside the buffer; with -t the name is then printed and the run stops with "Unexpected EOF". A '5' type flag gives "Unsupported header type". The model follows none of these runs.
- Args.Parse: argument values are byte sequences compared as wholes. A C `argv` string holds no NUL, and `str_eq` stops at the first NUL; the model does not restrict values to NUL-free sequences, and on those the two comparisons agree.

## Findings

| source | as written | input that shows it | evidently intended | confidence | as-written member | corrected member |
|---|---|---|---|---|---|---|
| mytar.c:131-138 | the decoded size is not checked for sign; converted to `size_t`, a size from -512 to -1023 gives a skip of 0, so `move_next_record_iterator` returns the same header and `handle_archive` loops for ever | a valid header ('0' type flag, magic not "ustar") whose size field is "/000", which `to_int` decodes to -512 | every header the loop accepts moves the iterator past at least itself, so the loop ends | not executed | Archive.NegativeSizeStalls | Archive.AcceptedHeaderMovesForward |
