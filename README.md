# gen_outputs.py in Dafny

This project models `gen_outputs.py`, a test-vector transcoder for a data
unpacking block. The script reads a bus trace and writes the packet stream the
block is expected to produce. The model covers everything except the file I/O:

- **Trace scan** (module `TraceScan`, lines 10-30). The scan walks the trace
  lines in order and skips any line that does not start with `0` or `1`. It
  strips `_` and spaces from the other lines. It reads position 0 as sop,
  position 1 as eop, position 2 as valid, and the clamped slice `[3:35]` as
  the payload. Then it drives the `in_transaction` flag and the
  `transactions` list. A valid sop appends an empty transaction. A valid
  cycle inside a transaction puts its payload in front of the last
  transaction. A valid eop clears the flag. The three checks run in that
  order on every line.
- **Re-chunker** (module `Rechunk`, lines 35-52). One transaction string is
  cut into a leading group of `len % 7` characters (when that is non-zero)
  and 7-character groups. The leading group is padded with `'0'`s and gets
  `0_1_`. The last group gets `1_0_`, the groups in between get `0_0_`, and
  the list is reversed.
- **Packet list** (module `PacketList`, lines 32-58). For each transaction
  the list gets a blank line, the label `//Packet #<pos>` and the emitted
  lines. `pos` counts the lines emitted so far.
- **Whole script** (module `Transcoder`). This is the scan followed by the
  packet loop.
- **Python semantics** (module `PyText`). Clamped slices, `str.replace`,
  `'0' * n`, `list.reverse` and `str(n)` are written out here, together with
  `Concat`, the concatenation of a list of strings used to state the round
  trips.

The imperative parts keep their form:

- `ScanLines` is the scan loop over a flag and a list.
- `SplitGroups` builds `chunks` with a loop.
- `FrameChunks` and `ReverseChunks` rewrite an `array` in place.
- `BuildPackets` is the packet loop with its running `pos`.

Each of these methods is proved equal to a specification function: `Scan`,
`Split`, `Frame`, `Reverse` and `Packets`. The lemmas then state the source's
properties about those functions.

Where the script would raise (an empty transaction makes `chunks[0]` fail),
the model returns `Err(EmptyTransaction(index))`. The script stops at that
point and writes nothing.

Three behaviours of the code, modelled as written:

- After `chunks.reverse()`, the FIRST emitted line is the sop-tagged chunk.
  It holds the transaction's last (least significant) seven characters. The
  LAST emitted line is the padded, eop-tagged chunk, not the other way
  round.
- The sop cycle itself contributes its payload, because the accumulate check
  runs right after the start check. So an empty transaction only arises when
  every valid cycle of it has a cleaned line of exactly three characters.
- A lone chunk gets both prefixes stacked: `1_0_0_1_` + filler + data
  (lines 46-47). This is kept as written.

## Model

| member | source | states |
|---|---|---|
| PyText.Slice | gen_outputs.py:27 | Python slicing clamps both bounds to the length. In range it is the plain subsequence. An empty or out-of-range window gives `""`. |
| PyText.RemoveChar | gen_outputs.py:19-20 | `replace(c, '')` leaves no `c` and only characters of the input. It never grows the string and keeps a first character that is not `c`. |
| PyText.RemoveCharAppend | gen_outputs.py:19-20 | Deleting `c` from `a + b` is deleting it from `a`, then from `b`, joined in that order. Together with `RemoveCharOne` this pins the result: the kept characters stay in their original order. |
| PyText.RemoveCharOne | gen_outputs.py:19-20 | A single character is deleted exactly when it is `c`. |
| PyText.RemoveCharCounts | gen_outputs.py:19-20 | Every character other than `c` is kept exactly as often as it occurred (multiset equality). |
| PyText.RemoveAbsent | gen_outputs.py:19-20 | Removing an absent character is the identity. |
| PyText.Zeros | gen_outputs.py:44 | `'0' * n` has length n and only `'0'`s. |
| PyText.Reverse | gen_outputs.py:52 | `list.reverse()` keeps the length and puts element n-1-j at position j. |
| PyText.DecimalString | gen_outputs.py:55 | `str(pos)` is non-empty, all decimal digits, with no leading zero unless pos is 0. |
| PyText.DecimalRoundTrip | gen_outputs.py:55 | Reading `str(pos)` back as a decimal number gives pos. |
| TraceScan.Clean | gen_outputs.py:18-20 | A cleaned line has no `_` and no space, is no longer than the line, and keeps a record's first character. |
| TraceScan.CleanAppend | gen_outputs.py:19-20 | Cleaning `a + b` is cleaning `a` and `b` and joining them in order, so the kept characters keep their positions relative to each other. |
| TraceScan.CleanOne | gen_outputs.py:19-20 | A single character is dropped exactly when it is `_` or a space. |
| TraceScan.Decode | gen_outputs.py:22-29 | The payload read from `[3:35]` has at most 32 characters. |
| TraceScan.DecodeFields | gen_outputs.py:22-29 | sop, eop and valid are characters 0, 1 and 2 of the cleaned line. The payload is `cleaned[3:min(len, 35)]`, so it has exactly 32 characters when the cleaned line has at least 35. |
| TraceScan.Step | gen_outputs.py:18-30 | One iteration keeps the invariant that an open transaction exists in the list. |
| TraceScan.StepEffect | gen_outputs.py:18-30 | A non-record line changes nothing. A valid sop appends exactly one transaction. Only the last transaction can change. With nothing open and no sop, the list is unchanged. The flag is set afterwards exactly when a transaction was open or started and no valid eop came. |
| TraceScan.Run | gen_outputs.py:15-30 | Folding the loop over lines keeps the invariant and never shortens the list. |
| TraceScan.Scan | gen_outputs.py:10-30 | The state after the whole trace: the flag is set only when a transaction is listed, and there is at most one transaction per line. |
| TraceScan.RunBound | gen_outputs.py:15-24 | Each line appends at most one transaction. |
| TraceScan.ScanLines | gen_outputs.py:10-30 | The loop with the flag and in-place update of `transactions[-1]` ends in exactly the state `Scan(lines)`. |
| TraceScan.RunAppend | gen_outputs.py:15-30 | Scanning `a + b` is scanning `a`, then `b` from there. |
| TraceScan.Records | gen_outputs.py:18 | The lines kept all start with `0` or `1`, come from the trace, and are no more than its lines. |
| TraceScan.RecordsAppend | gen_outputs.py:15-18 | Filtering `a + b` is filtering `a` and `b` and joining them in order. With `RecordsOne` this pins the result to the record lines in trace order. |
| TraceScan.RecordsOne | gen_outputs.py:18 | A single line is kept exactly when it starts with `0` or `1`. |
| TraceScan.RecordsKeepAll | gen_outputs.py:15-18 | Every record line of the trace is kept. |
| TraceScan.ScanIgnoresNonRecords | gen_outputs.py:18 | Dropping every line that does not start with `0` or `1` leaves the scan result unchanged. |
| TraceScan.TransactionCount | gen_outputs.py:22-24 | The number of transactions equals the number of lines with a valid sop. |
| TraceScan.EarlierTransactionsKept | gen_outputs.py:22-30 | Every transaction before the last is final. When nothing is open, all listed transactions are final. An unterminated transaction is never dropped. |
| TraceScan.RestartKeepsOpenTransaction | gen_outputs.py:22-24 | A new sop while a transaction is open keeps the open one as it stands. |
| TraceScan.ValidCycleGrows | gen_outputs.py:26-27 | A valid non-sop cycle inside a transaction puts its payload in front of the last transaction. With a cleaned line of 35 or more characters the transaction grows by exactly 32. |
| TraceScan.StepStart | gen_outputs.py:22-27 | A valid sop without eop opens a transaction that already holds its own payload. |
| TraceScan.StepEnd | gen_outputs.py:26-30 | A valid eop without sop prepends its payload and closes the transaction. |
| TraceScan.StepContinues | gen_outputs.py:26-27 | A line with neither valid sop nor valid eop prepends its payload if valid, and otherwise changes nothing. |
| TraceScan.SingleCycleTransaction | gen_outputs.py:22-30 | A valid cycle with both sop and eop yields a closed transaction holding exactly its payload. |
| TraceScan.AccumulateBody | gen_outputs.py:26-27 | Inside an open transaction, the body lines' payloads are concatenated in reverse trace order in front of it. |
| TraceScan.OpenAndAccumulate | gen_outputs.py:22-27 | A sop line plus body lines leave one open transaction: their payloads in reverse trace order. |
| TraceScan.TransactionContents | gen_outputs.py:22-30 | A whole sop…eop sequence appends one closed transaction. It equals the valid cycles' payloads concatenated in reverse trace order. |
| TraceScan.PayloadsSnoc | gen_outputs.py:26-27 | A line added at the end of the trace contributes its payload to the front of the reversed concatenation. |
| TraceScan.PayloadsCons | gen_outputs.py:26-27 | The first valid line's payload ends up last in the reversed concatenation. |
| TraceScan.PayloadsAppend | gen_outputs.py:26-27 | The payload list of `a + b` is that of `a` followed by that of `b`. |
| Rechunk.Words | gen_outputs.py:43 | A string whose length is a multiple of 7 yields length/7 words. |
| Rechunk.WordsAt | gen_outputs.py:43 | Word k is characters 7k to 7k+7. |
| Rechunk.WordsConcat | gen_outputs.py:43 | Joining the words gives the string back. |
| Rechunk.Split | gen_outputs.py:36-43 | `chunks` before framing has ceil(len/7) elements. |
| Rechunk.SplitShape | gen_outputs.py:36-43 | Joining the groups gives the transaction back. The leading group holds `len % 7` characters (7 when that is 0), and every other group holds 7. |
| Rechunk.SplitShort | gen_outputs.py:36-43 | A transaction of 1 to 7 characters is a single group. |
| Rechunk.SplitGroups | gen_outputs.py:36-43 | The leading-group-plus-comprehension loop builds exactly `Split(transaction)`. |
| Rechunk.GroupStep | gen_outputs.py:43 | Each comprehension element `t[i:i+7]` is the first word of what remains at i. |
| Rechunk.Frame | gen_outputs.py:44-50 | Framing keeps the number of chunks. |
| Rechunk.FrameChunks | gen_outputs.py:44-50 | The index assignments on the `chunks` array turn it into `Frame` of its old contents. |
| Rechunk.ReverseChunks | gen_outputs.py:52 | The in-place swap loop leaves the array reversed. |
| Rechunk.Emit | gen_outputs.py:35-52 | The lines emitted for a non-empty transaction number ceil(len/7), one per group. |
| Rechunk.FrameTransaction | gen_outputs.py:35-52 | The per-transaction body (split, frame, reverse) yields exactly `Emit(transaction)`. |
| Rechunk.PadWidth | gen_outputs.py:44 | The filler width is below 7 and makes the padded length a multiple of 7. |
| Rechunk.Padded | gen_outputs.py:44-46 | The zero-padded transaction has a length that is a multiple of 7 and ends with the transaction. |
| Rechunk.SplitPadded | gen_outputs.py:36-46 | The groups coincide with the words of the padded transaction. The first word is the leading group behind its filler. |
| Rechunk.FrameAt | gen_outputs.py:44-50 | Chunk k gets the prefix for its emitted position, plus its group (padded for chunk 0). |
| Rechunk.EmitLine | gen_outputs.py:36-52 | Emitted line j is `Flags(n, j)` followed by word n-1-j of the padded transaction: `1_0_` first, `0_1_` last, `0_0_` between, and `1_0_0_1_` for a lone line. |
| Rechunk.EmitShape | gen_outputs.py:36-52 | All emitted lines at once: ceil(len/7) lines in least-significant-word-first order with their prefixes. |
| Rechunk.EmitLineWidth | gen_outputs.py:44-50 | Every emitted line has 7 data characters: 11 characters in all, or 15 for a lone line. |
| Rechunk.DataFieldAt | gen_outputs.py:44-52 | The data field of emitted line j is word n-1-j of the padded transaction. |
| Rechunk.EmitRoundTrip | gen_outputs.py:36-52 | Reading the data fields back in reverse emission order gives the padded transaction. Dropping the padding gives the transaction. |
| Rechunk.StackedTags | gen_outputs.py:46-47 | The two prefixes stacked on a lone chunk read `1_0_0_1_`. |
| Rechunk.SingleChunk | gen_outputs.py:36-52 | A transaction of 1 to 7 characters emits exactly `1_0_0_1_` + filler + transaction. |
| PacketList.Label | gen_outputs.py:55 | The label is `//Packet #` followed by decimal digits. |
| PacketList.LabelNumber | gen_outputs.py:55 | The label's digits read back as pos. |
| PacketList.Block | gen_outputs.py:54-56 | The block appended for one transaction opens with `""` and the label for pos, and has ceil(len/7) + 2 lines. |
| PacketList.Packets | gen_outputs.py:32-58 | The packet list for the transactions in order, or an error; an error always names an empty transaction. |
| PacketList.BuildPackets | gen_outputs.py:32-58 | The packet loop with its running `pos` yields exactly `Packets(transactions)`. It stops with the error at the first empty transaction. |
| PacketList.PacketsStep | gen_outputs.py:54-58 | One turn appends `""`, the label for `pos` and the emitted lines, and advances `pos` by their count. |
| PacketList.PacketsStop | gen_outputs.py:44-46 | An empty transaction ends the run with its index as the error. |
| PacketList.FailureSticks | gen_outputs.py:34-46 | Once a prefix of the transactions fails, the whole run fails with the same error. |
| PacketList.PacketsFailure | gen_outputs.py:34-46 | The run fails exactly when some transaction is empty, and the error names the first empty one. |
| PacketList.PacketsLength | gen_outputs.py:54-58 | A successful list has the total chunk count plus two entries per transaction, and every transaction is non-empty. |
| PacketList.PacketsLayout | gen_outputs.py:54-58 | Transaction k's block has ceil(len/7) + 2 lines. It sits in the list right after the blocks of the transactions before it. |
| PacketList.PacketHeader | gen_outputs.py:54-55 | Transaction k's block opens with `""` and the label carrying the number of chunks emitted before it. |
| PacketList.PacketsPrefixes | gen_outputs.py:54-58 | The list for any prefix of the transactions is a prefix of the whole list. |
| Transcoder.Transcode | gen_outputs.py:15-58 | The output exists exactly when every scanned transaction is non-empty. Otherwise the error names the first empty one. |
| Transcoder.GenerateOutputs | gen_outputs.py:10-58 | Running both loops yields exactly `Transcode(lines)`. |
| Transcoder.TranscodeLength | gen_outputs.py:22-58 | A successful output has two header lines per valid sop plus every emitted line. |
| Transcoder.SingleCycleTrace | gen_outputs.py:22-58 | One record `111` + a 32-character payload becomes packet #0 holding that payload's emitted lines. |
| Transcoder.EmptyCycleFails | gen_outputs.py:22-46 | The record `111` opens and closes an empty transaction, and the run fails on it. |

## Left out

- Reading the input file and writing the output file, including the header line and the `'\n'.join` (lines 1-7, 60-63). The model takes the list of lines and ends at the `packets` list.
- The two `print` status messages (lines 7, 63): console output only.
- A record line that has fewer than three characters after cleaning may make the source raise `IndexError` at line 22, 26 or 29, depending on its first two characters and the `in_transaction` flag. The model instead requires every record line to keep at least three characters (`Decodable`). A two-character line such as `00`, read while no transaction is open, would be skipped by the source without error. The model excludes it rather than modelling it.
- Lines are taken exactly as `readlines()` returns them. A trailing newline is part of the line and, if it falls inside `[3:35]`, part of the payload. The model does not strip it, just as the source does not.
- Characters other than `0` and `1` in a record line are not rejected (the source does not check them). The flags compare with `'1'` exactly as the source does.
- TraceScan.Decode: its own contract states only the payload bound. The field-by-field statement is the separate lemma `DecodeFields`.
