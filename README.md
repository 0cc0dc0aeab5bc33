# core-utils in Dafny: head, tail, rm, touch and echo

A model of the small pieces of real logic in the `core-utils` C sources, with
proofs of what each piece guarantees:

- **head** (`head.dfy`, with `io.dfy`, `count.dfy`, `strtol.dfy`):
  - `parse_count`, the getopt loop over `-n`/`-c`, and the choice between
    line, byte and default mode;
  - `stream_copy` in line/default mode: the outer read loop, the inner
    `memchr` loop, and `write_all`. Both file descriptors are objects that
    answer from a script of read(2)/write(2) replies;
  - byte mode, which copies everything (its counter never advances).
  The central result: whatever way the reads split the input, and as long
  as no write fails, line mode writes exactly the prefix of the input that
  ends at its n-th newline, or all of it when there are fewer lines. It also
  stops reading as soon as n lines are out. Over both scripts together,
  `LineMode` and `ByteMode` fix which write_all calls `stream_copy` makes,
  how it ends and how many replies of each script it consumes, a failed
  read or write included, and the loops are proved to follow them exactly.
- **tail** (`tail.dfy`): the option loop that fills `flags`. The defaults are
  10 lines. A valid `-n` replaces the count. A bad `-n` exits 2 with EINVAL
  or ERANGE. `-b`, `-c` and unknown options reach `usage`.
- **rm** (`rm.dfy`):
  - the global `flags` struct and the getopt loop, the usage check and the
    reconciliation of `-f` with `-i`;
  - `is_illegal`: the root check, with the file system's answers as
    parameters; the truncation of trailing slashes in place; and the test
    of the last component for `.` and `..`;
  - `delete_argv_at` on an array;
  - the filter loop of `main`, which deletes illegal operands in place;
  - the yes/no answer read by `check`.
  The survivors are exactly the legal operands, in their original order,
  each as `is_illegal` left it. `ret` is 1 exactly when one was removed.
- **touch** (`touch.dfy`): `parse_time` for `[[CC]YY]MMDDhhmm[.SS]`. The
  current local time is a parameter. It is proved round-trip for the three
  lengths, including the 69 pivot for two-digit years.
- **echo** (`echo.dfy`): the output of `main` as a loop over the operands,
  proved against a pure function. Operands are joined with single spaces.
  The final newline is dropped after `-n` or a final `\c`, and that `\c` is
  removed.

## Model

| member | source | states |
|---|---|---|
| `LibC.Strtol` | head/main.c:40 | strtol's end lies within the string. A non-zero end follows a maximal run of digits. With no digits nothing is consumed and the value is 0. The value lies in the range of `long`, and ERANGE comes only with a clamped value. |
| `LibC.StrtolNumeral` | head/main.c:40 | After optional white space and sign, strtol reads any non-empty digit string (leading zeros included) with its value, clamping out-of-range values, and stops right after the last digit, so a following non-digit is left unconsumed. |
| `CountParse.ParseCount` | head/main.c:37-47 | On failure `*out` is unchanged. OK stores a value in 1..INT_MAX, and only when strtol consumed the whole non-empty string without ERANGE. Whenever strtol consumes nothing or stops short of the end the result is INVALID, before any range test. The empty string, or one not ending in a digit, is invalid. tail/main.c:47-57 is the same function. |
| `CountParse.ParseCountOut` | head/main.c:41-46 | The result code does not depend on the caller's old `*out`, nor does the value stored on success. |
| `CountParse.ParseCountNumeral` | head/main.c:40-45 | For any digit string after optional white space and sign: with anything but a digit left over it is INVALID whatever the value; otherwise RANGE above INT_MAX or below LONG_MIN, INVALID for any other value ≤ 0, and OK with the value. |
| `CountParse.ParseCountRoundTrip` | head/main.c:37-47 | Every count in 1..INT_MAX parses back from its decimal spelling. |
| `CountParse.HugeNegativeIsRange` | head/main.c:42-43 | A negative numeral beyond `long` is RANGE, not INVALID, because the range test comes before the sign test. |
| `CountParse.NegativeIsInvalid` | head/main.c:43 | A negative numeral that fits in `long` is INVALID. |
| `Io.Source.Read` | head/main.c:76 | read(2) returns the next scripted reply and consumes it; end of input once the script is used up. |
| `Io.Sink.Write` | head/main.c:53 | write(2) appends an initial part of what was offered and reports its length, or fails leaving the output as it was. |
| `Io.WriteOutcome` | head/main.c:49-65 | write_all as a function of the write replies: it writes at most what it was given, consumes at most the replies there are, and succeeds exactly when everything was written. |
| `Io.WriteOutcomeFailure` | head/main.c:54-61 | A failure is the answer to the last write issued: either an error other than EINTR, returned as is, or a write that accepted nothing, returned as EIO. Every earlier answer was an interruption or made progress. |
| `Io.WriteOutcomeSuccess` | head/main.c:52-64 | When write_all succeeds, every reply it consumed was an interruption or made progress. |
| `Io.HealthyWriteOutcome` | head/main.c:52-64 | When every reply is an interruption or makes progress, write_all succeeds and what is left of the script is still of that kind. |
| `Io.HealthyAppend` | head/main.c:52-64 | Two stretches of replies that only make progress or are interruptions make one such stretch. |
| `Io.HealthyRest` | head/main.c:52-64 | What is left of such a stretch, from any point on, is still of that kind. |
| `Io.HealthyStays` | head/main.c:52-64 | A device that always makes progress or is interrupted cannot have produced a failed write_all, and what is left of its script is still of that kind. |
| `Io.CleanThenClean` | head/main.c:86-96 | Clean write replies (progress and interruptions only) followed by clean ones are one clean stretch. |
| `Io.CleanThenFailed` | head/main.c:84-95 | A run of clean writes followed by a failed write_all is one failed run: the failure is still the last reply consumed, after interruptions and progress only. |
| `Io.WriteStep` | head/main.c:52-63 | One write of write_all, measured against the run that WriteRest predicts from where it stands: EINTR goes on with nothing more written, progress of n bytes goes on with n more written, and an error or a zero-byte write is where the run ends, with that errno or EIO and the replies consumed so far. |
| `Io.WriteOutcomeMeans` | head/main.c:49-65 | A write_all that ends as WriteOutcome says appends the whole buffer on success. On failure it appends a strict initial part of it, with an errno that is never EINTR and is either EIO or one the device reported. The replies consumed are a clean stretch on success, and a clean stretch ending in the reported failure otherwise. |
| `Io.WriteAll` | head/main.c:49-65 | The status, the bytes written and the replies consumed are exactly those of WriteOutcome. So success appends the whole buffer; failure leaves a strict initial part of it written, with an errno that is never EINTR: EIO after a zero-byte write, otherwise an error the device reported. A device that always makes progress or is interrupted never makes it fail. On success every reply consumed was an interruption or made progress (CleanWrites); on failure the last reply consumed is the failure reported (FailedWrite). |
| `Io.Advance` | head/main.c:62 | A write that accepts n bytes of the unwritten part extends what is written of the buffer to its first off + n bytes. |
| `Io.WriteOutcomeTie` | head/main.c:52-64 | The replies one write_all consumes are a clean stretch when it succeeds, and a clean stretch ending in the reported failure when it fails. |
| `Io.WriteEach` | head/main.c:86-96 | write_all on several buffers in turn, stopping at the first call that fails, never consumes more replies than the script holds. |
| `Io.WriteEachFirst` | head/main.c:86-96 | The first call decides: if it fails, its outcome is that of the whole sequence; if it succeeds, the rest of the calls go on with the replies left, and its bytes and replies are added to theirs. |
| `Io.WriteEachBounds` | head/main.c:86-96 | The calls write at most the concatenated buffers, and all of them exactly when every call succeeds. |
| `Io.WriteEachTie` | head/main.c:86-96 | The replies the calls consume are a clean stretch when all succeed, and a clean stretch ending in the reported failure otherwise. |
| `Head.HeadLinesIsLinePrefix` | head/main.c:72-97 | The first n lines are a prefix of the input that ends at its n-th newline, or the whole input when it has fewer (an unterminated last line included). |
| `Head.LinePrefixUnique` | head/main.c:72-97 | Only one prefix has that property, so HeadLines is exactly it. |
| `Head.HeadLinesAppend` | head/main.c:83-96 | The head of `x + y` is the head of `x`, then the head of `y` with the lines of `x` subtracted: counting carries across chunks. |
| `Head.HeadLinesKeeps` | head/main.c:94-96 | Text with fewer than n lines, or exactly n ending in a newline, belongs to the head entirely, and the head of what follows is taken with the remaining count. |
| `Head.LineCopy` | head/main.c:72-97 | Line mode over a read script never consumes more replies than the script holds, and a stop on a failed read has consumed that reply. |
| `Head.LineCopyHead` | head/main.c:83-96 | What line mode writes is the first m lines of the concatenated reads, however read(2) split them. |
| `Head.LastReadNeeded` | head/main.c:75-76 | No read is issued once n lines are out: everything read before the last consumed reply has fewer than n newlines. |
| `Head.MemChr` | head/main.c:86 | The first position at or after `from` that holds the byte, or none when it does not occur there. |
| `Head.LineWritesJoin` | head/main.c:86-96 | The buffers line mode hands to write_all for a chunk, from offset pos on with m lines still wanted, join to exactly the first m lines of the rest of the chunk. |
| `Head.LineWritesNext` | head/main.c:86-92 | With the next newline at i and lines still wanted, the first buffer is the line up to and including that newline. The buffers after it are those from i + 1 on, with one line fewer wanted. |
| `Head.JoinLineStep` | head/main.c:86-92 | One line of the join: the line up to the newline, then the join of the rest, is the head of what is left of the chunk. |
| `Head.JoinTailStep` | head/main.c:94-96 | With no newline left, the buffers are the unterminated rest when lines are still wanted and nothing otherwise, and that is the head of the rest. |
| `Head.ChunkWrites` | head/main.c:86-96 | The write_all calls of one chunk consume at most the replies there are and write at most what is left of the chunk. |
| `Head.ChunkWritesLine` | head/main.c:86-92 | With a newline left and lines still wanted, the write of the line up to it comes first. If that write fails, it ends the chunk's writes with its own outcome. Otherwise they go on from just after the newline with one line fewer, adding the line's bytes and replies. |
| `Head.LineWriteStep` | head/main.c:88-92 | One turn of the memchr loop, measured against the run ChunkRun predicts: a failed write of the line ends the chunk's writes at that point, and a successful one goes on after the line with one line fewer. |
| `Head.TailWriteStep` | head/main.c:94-96 | The write_all of the unterminated rest of a chunk is the last of the chunk's writes: they end as it ends. |
| `Head.LineAt` | head/main.c:86-92 | The head of what is left of a chunk starts with the line up to its first newline, followed by the head of the rest with one line fewer. |
| `Head.ChunkWritesHead` | head/main.c:83-96 | The write_all calls of a whole chunk get out an initial part of its first m lines, and all of them exactly when they succeed. |
| `Head.ChunkWritesTie` | head/main.c:83-96 | The replies those calls consume are a clean stretch on success, and a clean stretch ending in the reported failure otherwise. |
| `Head.CopyChunkLines` | head/main.c:83-96 | Its status, the bytes it appends and the replies it consumes are exactly those of ChunkWrites: write_all on each buffer of LineWrites in turn, up to the first failure. On success one chunk adds exactly its first m lines to the output and counts min(m, its newlines). On failure the output is within those lines and errno is never EINTR. The replies consumed are clean on success, and clean then the reported failure otherwise. |
| `Head.CopyWholeLines` | head/main.c:86-93 | The memchr loop writes whole lines only, at most m of them, and stops at the m-th line or when no newline is left. Its writes so far are those ChunkWrites begins with, and the rest of them go on from where it stopped. A failure ends the chunk's writes exactly as ChunkWrites says, with output within the chunk's first m lines. |
| `Head.WriteLine` | head/main.c:88-92 | One turn of the memchr loop: on success the output grows by the line and one more line is counted. On failure the status, bytes written and replies consumed are those ChunkWrites gives the chunk. |
| `Head.LineWritten` | head/main.c:88-92 | The write of one line, after the lines before it, extends the output by exactly that line, or leaves it within the head of the chunk. The replies stay clean, or end in the failure. |
| `Head.WriteTail` | head/main.c:94-96 | The write_all of the unterminated rest ends the chunk's writes as ChunkWrites says. On success the output is the whole head of the chunk; on failure it is within it. |
| `Head.TailWritten` | head/main.c:94-96 | After the write of the unterminated rest, the output is the head of the chunk on success, and the first pos + c bytes of it on failure. |
| `Head.WrittenPart` | head/main.c:89 | With the chunk out up to pos, a write that got c bytes of the next segment out leaves its first pos + c bytes written. |
| `Head.NoNewlineFrom` | head/main.c:86 | memchr finds nothing when no newline is left after pos. |
| `Head.SegmentFailed` | head/main.c:89 | A write of a segment that stopped part way leaves the output within any head that starts with the chunk up to the end of that segment. |
| `Head.WithinHead` | head/main.c:89 | A write that stopped part way through a segment, after p was out, leaves the output within any text that starts with p and that segment. |
| `Head.LineSegment` | head/main.c:88-90 | One turn of the memchr loop: the segment up to the next newline adds one line and still lies within the head of the chunk. |
| `Head.ChunkEnd` | head/main.c:94-96 | After the memchr loop, the rest of the chunk is written exactly when fewer than m lines are out. |
| `Head.LineMode` | head/main.c:72-97 | Line mode over both scripts never consumes more replies of either than it holds. |
| `Head.LineModeReads` | head/main.c:74-81 | When no write fails, line mode writes and reads what LineCopy says, and fails on a read exactly when LineCopy does. A read failure is the last reply read, an error other than EINTR. |
| `Head.LineModeWithin` | head/main.c:86-96 | A failed write leaves line mode's output strictly shorter than what it writes when no write fails, and an initial part of it. |
| `Head.LineModeWrites` | head/main.c:86-96 | The write replies line mode consumes are a clean stretch unless a write fails, and end in that failure when one does. |
| `Head.NoWrites` | head/main.c:75-81 | A copy that ends before writing has consumed no write reply. |
| `Head.WritesGoOn` | head/main.c:83-97 | A clean stretch of write replies, followed by the replies the rest of the copy consumes, is still clean or ends in the copy's write failure. |
| `Head.Stopped` | head/main.c:75 | Once n lines are out, the loop ends with what it has written and the replies it has consumed. |
| `Head.Interrupted` | head/main.c:77-78 | An EINTR read is retried: line mode goes on with the next reply and no line added. |
| `Head.ReadStop` | head/main.c:77-81 | End of input, or a read error other than EINTR, ends line mode with the copy as it stands, with status ReadFailed of that errno or Copied. |
| `Head.ChunkModeStep` | head/main.c:83-96 | After the writes of a non-empty chunk, line mode goes on with the next reply, the chunk's head added and its lines counted, or ends in the write failure with what was written. |
| `Head.LineModeMeans` | head/main.c:72-97 | A copy that ended as LineMode says: unless a write failed, it wrote and read what LineCopy says and failed on a read exactly when LineCopy does; a read errno is that of the last reply read and never EINTR; a write failure leaves the output strictly within LineCopy's; a device that always makes progress never fails; the write replies are clean or end in the failure. |
| `Head.StreamCopyLines` | head/main.c:72-98 | Its status, output and the replies it consumes of both scripts are exactly those of LineMode. Unless a write fails, the output grows by LineCopy's output, exactly the replies LineCopy consumes are consumed, and a read failure is reported exactly when LineCopy stops on one, with the errno of the last reply read, never EINTR. A write failure leaves the output strictly within LineCopy's. The write replies consumed are clean, or end in the reported failure. |
| `Head.LineTurn` | head/main.c:74-97 | One turn of the outer loop once fewer than n lines are out: either the loop ends as LineMode says, or it goes on with a shorter read script and the lines and output counted so far still agreeing with LineMode. |
| `Head.LineChunk` | head/main.c:83-96 | One non-empty chunk: on success the output grows by its head and the loop goes on as LineMode says; on failure the copy ends as LineMode says. |
| `Head.ByteMode` | head/main.c:100-118 | Byte mode over both scripts never consumes more replies of either than it holds. |
| `Head.ByteModeReads` | head/main.c:102-116 | When no write fails, byte mode writes all the data the reads deliver, nothing when n is 0. A read failure is the last reply read, an error other than EINTR. |
| `Head.ByteModeWithin` | head/main.c:115 | A failed write leaves byte mode's output strictly shorter than the data read, and an initial part of it. |
| `Head.ByteModeWrites` | head/main.c:115 | The write replies byte mode consumes are a clean stretch unless a write fails, and end in that failure when one does. |
| `Head.ByteInterrupted` | head/main.c:105-106 | An EINTR read in byte mode is retried: byte mode goes on with the next reply. |
| `Head.ByteReadStop` | head/main.c:105-109 | End of input, or a read error other than EINTR, ends byte mode with the copy as it stands. |
| `Head.ByteWriteStep` | head/main.c:115 | The write_all of a whole chunk either gets it all out, and byte mode goes on with the next reply, or fails, and byte mode ends with what was written. |
| `Head.ByteModeMeans` | head/main.c:100-118 | A copy that ended as ByteMode says: unless a write failed it wrote all the data read (nothing when n is 0); a read errno is that of the last reply read and never EINTR; a write failure leaves the output strictly within the data; the write replies are clean or end in the failure. |
| `Head.StreamCopyBytes` | head/main.c:100-118 | Its status, output and the replies it consumes of both scripts are exactly those of ByteMode. Unless a write fails it writes everything the reads deliver, because the counter never advances; a count of 0 writes nothing. A read errno is that of the last reply read, never EINTR. |
| `Head.ByteTurn` | head/main.c:102-116 | One turn of byte mode's loop: either the loop ends as ByteMode says, or it goes on with a shorter read script and the output so far still agreeing with ByteMode. |
| `Head.StreamCopy` | head/main.c:67-121 | Status, output and replies consumed are exactly those of ByteMode in byte mode and of LineMode otherwise. Default and line mode write the first n lines of the input, and a write failure leaves the output within them. Unless a write fails they consume exactly the replies LineCopy consumes and report a read failure exactly when LineCopy stops on one. Byte mode with n > 0 writes all the data read. A reported read errno is the last reply read, never EINTR. |
| `Head.ParseOptions` | head/main.c:164-185 | The getopt loop over `-n`/`-c` computes HeadOptions from lc = cc = 0. |
| `Head.HeadOptionsLast` | head/main.c:164-185 | When no count is rejected, lc and cc hold the values of the last `-n` and the last `-c`, each of which parsed OK, or their old values when the option is absent. |
| `Head.SelectCount` | head/main.c:187-200 | Both counts positive exits 1. Otherwise a positive lc selects line mode and a positive cc byte mode, each with its value, and neither gives default mode with 10 lines. The selected count is always positive. |
| `Head.HeadModeSelection` | head/main.c:164-200 | From the options to the mode: `-n` and `-c` together are refused, and the last `-n` or `-c` decides the count. |
| `Tail.ParseTailOptions` | tail/main.c:62-104 | The option loop over the local `flags` computes TailOptions from the defaults. |
| `Tail.TailNoStop` | tail/main.c:68-100 | Without a stopping option the loop completes. The mode stays lines, and the count is that of the last `-n`, or the starting one. |
| `Tail.TailSwitches` | tail/main.c:70-83 | `-f`, `-F`, `-r`, `-q` and `-v` only turn their flag on, and it ends on exactly when it was on before or the option occurred. |
| `Tail.ApplyCount` | tail/main.c:85-99 | A valid `-n` replaces the count by the value parse_count stored and leaves the mode as it was. |
| `Tail.ApplySwitch` | tail/main.c:70-83 | One option turns on only its own switch. |
| `Tail.TailFirstStop` | tail/main.c:85-102 | The first stopping option decides the exit: an invalid `-n` exits 2 with EINVAL, a range error with ERANGE, and `-b`, `-c` or an unknown option with the usage message. |
| `Tail.TailDefaultCount` | tail/main.c:62-66 | Without `-n` the count is 10 lines in line mode. |
| `Rm.TrimIsTrimmed` | rm/main.c:65-66 | The truncated operand is the operand less its run of trailing slashes, and the first character is never cut. |
| `Rm.TrimUnique` | rm/main.c:65-66 | That description fits only one string, so Trim is exactly it. |
| `Rm.TrimEnd` | rm/main.c:65-66 | The loop that writes NULs over trailing slashes leaves exactly Trim of the operand. |
| `Rm.LastComponentIsSuffix` | rm/main.c:69-73 | The tested component is a slash-free tail of the path, preceded by a '/' unless it is the whole path. |
| `Rm.ComponentAfterSlash` | rm/main.c:69-73 | For a directory part ending in '/' (or empty) followed by a slash-free name, the component is that name. |
| `Rm.DotsSpelled` | rm/main.c:75-84 | The character tests accept exactly "." and "..". |
| `Rm.RootFirst` | rm/main.c:60-64 | If stat("/") fails nothing is illegal and nothing is cut. The root check comes first, sees the operand uncut, and yields ROOT_DIR exactly for an operand whose lstat matches "/". DOTS means the last component is "." or "..". |
| `Rm.IsIllegal` | rm/main.c:55-85 | is_illegal decides, and leaves the operand, as Screen says. |
| `Rm.NameScreen` | rm/main.c:65-84 | An operand `dir/name` with any trailing slashes is refused exactly when `name` is "." or ".." (so ".x" and "..." pass), and the caller keeps it without its trailing slashes. |
| `Rm.DeleteAt` | rm/main.c:87-93 | argc drops by one. Entries before i stay, later entries shift down by one, the new argv[argc] is NULL, and nothing past the old argc changes. |
| `Rm.FilterOperands` | rm/main.c:225-245 | After the loop argv[optind..argc] holds exactly the screened survivors in their original order, and the freed slots are NULL. Nothing before optind or after the old argc changes. `ret` is 1 exactly when argc shrank. |
| `Rm.FilterStep` | rm/main.c:228-244 | One turn of the loop: an illegal operand is deleted and the cursor stays, a legal one is kept and the cursor advances. The survivors so far are Kept of the operands seen. |
| `Rm.DropOperand` | rm/main.c:240-242 | Deleting the operand under the cursor keeps the loop's layout of argv, with one operand seen and argc one smaller. |
| `Rm.StoreOperand` | rm/main.c:229-244 | A legal operand stays at the cursor, as is_illegal truncated it. |
| `Rm.KeptLength` | rm/main.c:240 | Screening never adds operands, and keeps all of them exactly when none is illegal, so argc shrinks (and `ret` becomes 1) exactly when some operand was illegal. |
| `Rm.KeptWithoutRoot` | rm/main.c:60 | When stat("/") fails every operand survives unchanged. |
| `Rm.KeptAppend` | rm/main.c:227-245 | Screening works operand by operand, so the survivors keep their relative order. |
| `Rm.RmFlags.constructor` | rm/main.c:34-40 | All flags start false. |
| `Rm.RmFlags.Set` | rm/main.c:199-218 | Each of `d`, `f`, `i`, `r`, `v` turns on its own flag. Any other character is unknown and changes nothing. |
| `Rm.RmFlags.Reconcile` | rm/main.c:223 | `-f` clears `-i`, and nothing else changes. |
| `Rm.ReadOptions` | rm/main.c:198-219 | The option loop succeeds exactly when every character is a known option, and then each flag is on exactly when its letter occurred. |
| `Rm.Prepare` | rm/main.c:196-247 | Usage exit exactly on an unknown option, or on no operand without `-f`. Otherwise the flags are set, with `-f` clearing `-i`. The operands left are Kept of the original ones, `ret` is 1 exactly when some were removed, and main returns early exactly when none is left. |
| `Rm.FirstLeft` | rm/main.c:247 | argv[optind] is NULL exactly when no operand is left. |
| `Rm.Input.GetChar` | rm/main.c:112-113 | getchar returns the next character and consumes it, or EOF once the input is used up. |
| `Rm.AnswerLine` | rm/main.c:113 | The answer's line is a prefix of the input that ends at its first newline, or all of the input when it has none. |
| `Rm.ReadAnswer` | rm/main.c:112-114 | The answer is yes exactly when the first character is 'y' or 'Y', and exactly the rest of that line is consumed. |
| `Touch.FirstDot` | touch/main.c:25 | strchr finds the first '.', and None means there is no dot. |
| `Touch.ParseTime` | touch/main.c:22-75 | Without a dot: success exactly for lengths 8, 10 and 12; `tv_sec` becomes 0 and the seconds stay. With a dot: the suffix from the first dot must be 3 characters long, otherwise -1 with nothing changed; then success exactly when 8, 10 or 12 characters precede the dot, and the seconds come from the two after it. Length 8 keeps the current year. No character is checked to be a digit. |
| `Touch.Fields` | touch/main.c:37-71 | The switch on the length succeeds exactly for 8, 10 and 12, and leaves the seconds and `tv_sec` alone. |
| `Touch.FullRoundTrip` | touch/main.c:39-47 | `CCYYMMDDhhmm.SS` reads back as year−1900, month−1, day, hour, minute and seconds. |
| `Touch.CenturyPivot` | touch/main.c:48-61 | `YYMMDDhhmm`: YY < 69 is 2000+YY, otherwise 1900+YY. The other fields read back, the seconds stay and `tv_sec` is 0. |
| `Touch.ShortRoundTrip` | touch/main.c:62-68 | `MMDDhhmm.SS` reads back, keeping the current year. |
| `Echo.Echo` | echo/main.c:8-47 | The loop writes EchoOutput: with no operand a newline, or nothing after `-n`. The exit status is always 0. |
| `Echo.LastOperand` | echo/main.c:28-40 | At the last operand the output is the earlier operands each followed by a space, then the last (less a final `\c`), then a newline unless suppressed. |
| `Echo.SpacedJoin` | echo/main.c:41-42 | Printing "x " for all operands but the last, and then the last alone, joins them with single spaces. |
| `Echo.OperandWritten` | echo/main.c:41-42 | Every operand but the last appears verbatim (a `\c` in it included) at its place in the output, followed by exactly one space. |
| `Echo.EchoEnding` | echo/main.c:28-40 | The output is the operands joined by spaces. A newline follows exactly when neither `-n` nor a final `\c` suppresses it, and a final `\c` is removed. |

## Left out

- `head_file` (head/main.c:123-156) and the file-operand loop of head's `main`: open/fstat/close plumbing; a regular file produces no output at all.
- The error messages of head, tail and rm: they are output only.
- getopt: each utility's option loop takes the options getopt would deliver as a list.
- strtol's internals: it is specified abstractly (white space, sign, decimal digits, a 64-bit `long`, ERANGE with clamping).
- tee, yes and pwd: whole utilities outside the modelled logic (I/O fan-out, an infinite loop, getcwd wrappers).
- tail's window of last lines: the code has none. The final `printf` of the count (tail/main.c:105) is output only.
- The follow, reverse, quiet and verbose flags of tail: they are only stored, and the model stores them.
- `rm_tree`, `rm_file` and the removal loop of rm's `main`: syscall wrappers (lstat, unlink, rmdir, fts).
- The part of `check` before the answer (`access`, `strmode`, the prompt) and `isatty`: terminal and file system queries.
- The `type == NULL` exit of `is_illegal`: its only caller always passes a pointer.
- The inode comparison of `is_illegal`: the answers of `stat("/")` and `lstat` are a parameter, `RootView`.
- touch's `main`, `time`/`localtime` (the current time is a parameter) and `parse_time`'s `printf`.
- Touch.ParseTime: returns the new `struct tm`, the string as cut at the dot, and `tv_sec`, instead of writing them in place. The static `struct tm` that `localtime` returns is not modelled as shared.
- Touch.ParseTime: the argument is taken as a string of single-byte ASCII characters. A multi-byte UTF-8 character counts as one character here but as several bytes for `strlen`, and `Touch.Digit` computes `c - '0'` on the character's code point, not on a signed `char`; so lengths and field values for non-ASCII input are not those of the C code.
- Echo.Echo: the `'\0'` written into the last operand to drop `\c` is modelled as a shortened local copy, and output is a string instead of stdout.
- Io.Sink.Write: a reply accepting more bytes than were offered is taken as accepting what was offered; read and write replies are scripts, not a model of any device.
- Head.StreamCopy: `size_t`/`ssize_t` counters are unbounded integers; the 64 KiB buffer size is not modelled, a read reply may deliver any number of bytes.
- Rm.Prepare: on a usage exit nothing is promised about the flags or argv, since the program exits there.
