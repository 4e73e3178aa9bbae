# Execution tracer: a verified model

The execution tracer runs on a microcontroller. It records 32-bit trace words in a
circular store. The store is placed in memory that is not cleared on reset, so it
survives a warm reset. The target later dumps the store as text records, and host
tools turn the records back into readable lines.

This project models four parts of the tracer and proves properties of each.

- **The trace store** (`lib/include/execution_tracer.h`, `lib/src/execution_tracer.c`,
  `lib/src/execution_tracer_private.h`, `lib/include/execution_tracer_protocol.h`):
  - `TraceRing` models each store operation as a step on a value.
    - A store is `ExecTracer_t`: magic, reset count, head, tail and the buffer.
    - Each step is related to the abstract queue of words the store holds.
    - The reference for `TRACE_Put` is a bounded append: with overwrite allowed the
      oldest word is evicted; otherwise the new word is dropped.
  - `ExecTracer.ExecTracer` is the object whose fields the macros update in place.
    - Every method is proved to perform the `TraceRing` step on its fields and buffer.
    - The buffer length N and `ALLOW_OVERWRITE` are one `Config` value, fixed when
      the object is made.
    - The build-time check `IS_POWER_OF_2(BUFFER_LENGTH_IN_WORDS)` is modelled bit
      by bit in `Bits`.
- **The host decoder** (`tools/exec_trace_parser.py`): `TraceParser`.
  - It reads words from a reader that ends with `-1` and dispatches on the 4-bit ID
    code.
  - It extracts each entry's fields, resolves addresses against the look-up tables
    and tracks the call-nesting indent.
  - Each printed line becomes a `TraceLine` record that carries its indent level.
- **The map-file parser** (`tools/parse_map_file.py`): `MapFile`.
  - It is the line scanner with its two regular expressions, written out as
    character-level matchers.
  - Each matcher is proved equivalent to a declarative description of the lines it
    accepts.
- **The SVD register table** (`tools/parse_svd.py`): `Svd`.
  - It models the address-to-register dictionary built from a device description.
  - It models the rule that picks the SVD source from the command-line arguments.

`Hex` holds `%0*X` formatting and `int(s, 16)` parsing, with their round trip.
`Protocol` holds the protocol constants and the tagged word layout.

## Where the documentation and the code differ

The model follows the code in every case below.

- The design description lists a `last_value` field that `TRACE_Get` would cache.
  The structure `ExecTracer_t` (`lib/include/execution_tracer.h:52-58`) has no such
  field, so the model has none.
- The design description calls the version word a VERSION-tagged word.
  - As written, `TRACE_ExecTracerVersion` (`lib/include/execution_tracer.h:38-42`)
    ANDs shifted constants that share no bits, so the word it puts is 0 (see
    Findings).
  - `TraceRing.Init` and `ExecTracer.ExecTracer.Init` put that 0, and the lemmas
    about them state that the store holds 0 where the version word should be.
  - The decoder skips a 0 word, so no version line is printed.
  - `TraceRing.InitIntended` puts the intended VERSION-tagged word instead. The
    decoder prints that word as a version line.
- Some operations are defined in none of the modelled files: `TRACE_Get`,
  `TRACE_Clear`, `TRACE_GetNumEntries`, `BUFFER_MAX_CAPACITY`, `DumpExecTraceLog`
  and a `TRACE_Init` that takes callbacks.
  - Their behaviour is taken from the unit tests under `test/`.
  - `TRACE_Init` in `lib/src/execution_tracer.c:15` takes no arguments. The tests
    call it with a callback structure, so the model's `Init` takes the hooks.
- The design description says the dump forwards "each non-empty word".
  - The dump test (`test/test_log_dump_function.c:99-122`) expects a stored
    `0x00000000` to be written like any other word.
  - So the model writes every word it gets until the store reports empty.
- The overflow-marker record is `"0x0F000000\n"`, and the model uses the word
  `0x0F000000`.
  - The accompanying text says this is tag nibble `0xF`, but that word's top nibble
    is 0.
  - No BUFFER_FULL code appears in `execution_tracer_protocol.h`, which defines
    codes 0 to 7 only.

## Model

| member | source | states |
|---|---|---|
| Bits.IsPowerOf2Macro | lib/src/execution_tracer_private.h:20 | no contract of its own: `(n & (n - 1)) == 0` with `n - 1` taken in 32 bits; `MacroIffPowerOfTwo` and `MacroAdmitsZero` state what it accepts |
| Bits.MacroIffPowerOfTwo | lib/src/execution_tracer_private.h:20 | for n > 0, `IS_POWER_OF_2(n)` (`n & (n-1)` with 32-bit wrap) holds exactly when n is a power of two |
| Bits.PowerOfTwoAccepted | lib/src/execution_tracer_private.h:20 | every power of two below 2^32 fits in a `uint32_t` and passes the macro |
| Bits.MacroAdmitsZero | lib/src/execution_tracer_private.h:20 | the macro also accepts 0 and 1 (so the static assert admits an empty buffer), and rejects 6 and 12 |
| Bits.MaskIsModLength | lib/include/execution_tracer.h:14 | for an accepted length N, `x & (N-1)` is `x mod N`, and N divides 2^32, so the wrap-around of the 32-bit index arithmetic does not change the masked index |
| Bits.MaskIsMod | lib/include/execution_tracer.h:14 | masking with 2^k - 1 is reduction modulo 2^k |
| Hex.ParseFormatRoundTrip | test/test_log_dump_function.c:44-55 | `int(s, 16)` of a number's `%0*X` rendering gives the number back, and the rendering is all hex digits |
| Hex.FormatWordWidth | test/test_log_dump_function.c:44-55 | `%08X` of a 32-bit word is exactly eight upper-case hex digits |
| Protocol.ProtocolConstants | lib/include/execution_tracer_protocol.h:15-29 | protocol version 1.0; ID codes 0 (invalid) to 7 are distinct and each fits the 4-bit tag |
| Protocol.TaggedWordIsNonZero | lib/include/execution_tracer_protocol.h:22-29 | a word with a non-zero ID code in bits 31:28 is never 0, the value `TRACE_Get` returns from an empty store |
| Protocol.VersionWord | lib/include/execution_tracer.h:38-42 | the version word as intended, `'V'`, major and minor under the VERSION tag: its ID code is VERSION |
| Protocol.VersionWordAsWritten | lib/include/execution_tracer.h:38-42 | no contract of its own: the four shifted fields joined with `&`, major and minor both shifted by 16, as the macro writes them |
| Protocol.VersionWordAsWrittenIsZero | lib/include/execution_tracer.h:38-42 | the macro as written evaluates to 0, which has ID code INVALID |
| TraceRing.Advance | lib/include/execution_tracer.h:17-27 | `(i + 1) & BUFFER_INDEX_MASK` in 32 bits always lands inside the buffer (below N) |
| TraceRing.IsEmpty | lib/include/execution_tracer.h:16 | no contract of its own: head equals tail; `IsEmptyIff` relates it to the queue |
| TraceRing.IsFull | lib/include/execution_tracer.h:17 | no contract of its own: the advanced head equals tail; `IsFullIff` relates it to the queue |
| TraceRing.Put | lib/include/execution_tracer.h:19-35 | no contract of its own: both policies of `TRACE_Put`; `PutKeepsValid`, `PutIndices` and `PutRefines` state its effect |
| TraceRing.Get | test/test_common.c:35-56 | no contract of its own: the oldest word and the store with tail advanced, or 0 and the store unchanged when empty; `GetRefines` states its effect |
| TraceRing.Clear | test/test_common.c:19-22 | no contract of its own: head and tail set to 0; `ClearEmpties` states its effect |
| TraceRing.NumEntries | test/test_common.c:109-140 | `(head - tail) & BUFFER_INDEX_MASK` in 32 bits never exceeds the maximum capacity N - 1 |
| TraceRing.InitPutting | lib/src/execution_tracer.c:15-28 | no contract of its own: the sentinel test and the cold or warm branch of `TRACE_Init`, followed by a put of a given word; `ColdBootPuts` and `WarmResetPuts` state its effect |
| TraceRing.Init | lib/src/execution_tracer.c:15-28 | no contract of its own: `TRACE_Init` as written, putting the word `TRACE_ExecTracerVersion()` builds; `InitColdBoot`, `InitWarmReset`, `ZeroedMemoryIsFresh` and `InitTwice` state its effect |
| TraceRing.InitIntended | lib/include/execution_tracer.h:38-42 | no contract of its own: `TRACE_Init` putting the intended version word; `IntendedInitQueuesVersion` and `IntendedInitAppendsVersion` state its effect |
| TraceRing.Record | test/test_log_dump_function.c:44-55 | no contract of its own: `"0x"`, `%08X` of the word and a newline; `RecordRoundTrip` states its shape and round trip |
| TraceRing.DumpCalls | test/test_log_dump_function.c:81-132 | no contract of its own: the hook calls of a dump; `DumpWritesQueue` and `DumpOfEmptyStore` relate them to the queue |
| TraceRing.Queue | lib/include/execution_tracer.h:52-58 | the words from tail up to head, oldest first; never more than N - 1 of them |
| TraceRing.AdvanceWraps | lib/include/execution_tracer.h:19-35 | advancing an index adds one and wraps N back to 0, staying below N |
| TraceRing.AdvanceIsMod | lib/include/execution_tracer.h:14 | `(i + 1) & BUFFER_INDEX_MASK` is `(i + 1) mod N` |
| TraceRing.QueueIndex | lib/include/execution_tracer.h:52-58 | word j of the queue is the buffer slot `(tail + j) mod N` |
| TraceRing.IsEmptyIff | lib/include/execution_tracer.h:16 | `TRACE_IsEmpty` (head == tail) holds exactly when the queue is empty |
| TraceRing.IsFullIff | lib/include/execution_tracer.h:17 | `TRACE_IsFull` (the advanced head meets tail) holds exactly when the queue holds N - 1 words |
| TraceRing.NumEntriesIsQueueLength | test/test_common.c:109-140 | `TRACE_GetNumEntries` is the queue length, at most the maximum capacity N - 1 |
| TraceRing.PutKeepsValid | lib/include/execution_tracer.h:19-35 | `TRACE_Put` keeps both indices inside the buffer |
| TraceRing.PutIndices | lib/include/execution_tracer.h:19-35 | how `TRACE_Put` moves head and tail and which slot it writes, for each policy, full or not |
| TraceRing.PutRefines | lib/include/execution_tracer.h:19-35 | `TRACE_Put` changes the queue by the bounded append: append; when full, evict the oldest (overwrite) or drop the word |
| TraceRing.PutWithRoom | lib/include/execution_tracer.h:19-35 | a put into a store that is not full appends the word to the queue |
| TraceRing.PutOverwriting | lib/include/execution_tracer.h:19-28 | a put into a full store with overwrite allowed drops the oldest queued word and appends the new one |
| TraceRing.GetRefines | test/test_common.c:35-56 | `TRACE_Get` returns and removes the oldest word; on an empty store it returns 0 and changes nothing |
| TraceRing.GetDecrementsNumEntries | test/test_common.c:126-140 | a `TRACE_Get` from a non-empty store lowers the entry count by one |
| TraceRing.ClearEmpties | test/test_common.c:29-33 | `TRACE_Clear` leaves a valid, empty store and keeps magic, reset count and buffer words |
| TraceRing.PutAllAppends | test/test_common.c:58-69 | a run of puts with no overflow appends the words to the queue in order |
| TraceRing.FillFromClear | test/test_get_and_put_overwrite_disabled.c:63-90 | N - 1 puts into a cleared store leave head at the maximum capacity, tail at 0 and the store full, with the words queued in order |
| TraceRing.DrainIsQueue | test/test_common.c:58-69 | getting until empty yields exactly the queue, oldest first |
| TraceRing.FifoRoundTrip | test/test_common.c:35-49 | words put into a cleared store come out in the order they were put |
| TraceRing.OverwriteEvictsOldest | test/test_get_and_put_overwrite_enabled.c:29-57 | with overwrite allowed, a put into a full store drops the oldest word and keeps the store full |
| TraceRing.DropKeepsQueue | test/test_get_and_put_overwrite_disabled.c:29-61 | with overwrite disabled, a put into a full store changes nothing |
| TraceRing.ColdBootPuts | lib/src/execution_tracer.c:15-28 | without the sentinel, the init steps zero the reset count and indices, set the sentinel and leave exactly the word put queued, head 1, tail 0, one entry |
| TraceRing.WarmResetPuts | lib/src/execution_tracer.c:15-28 | with the sentinel, the init steps keep the surviving queue, count the reset (32-bit wrap) and bounded-append the word put |
| TraceRing.InitColdBoot | lib/src/execution_tracer.c:15-28 | without the sentinel, `TRACE_Init` as written zeroes the reset count and indices, sets the sentinel and leaves exactly one word queued, and that word is 0 |
| TraceRing.InitWarmReset | lib/src/execution_tracer.c:15-28 | with the sentinel, `TRACE_Init` as written keeps the surviving queue, counts the reset (32-bit wrap) and bounded-appends a 0 word |
| TraceRing.ZeroedMemoryIsFresh | lib/src/execution_tracer_private.h:11 | memory holding 0 is not taken for an initialised store (the sentinel is non-zero): the reset count is 0 and the queue is the single 0 word |
| TraceRing.InitTwice | lib/src/execution_tracer.c:15-28 | a second `TRACE_Init` after a cold boot takes the warm branch: the reset count becomes 1 and the queue holds two 0 words (one when N is 2) |
| TraceRing.IntendedInitQueuesVersion | lib/include/execution_tracer.h:38-42 | with the intended version word, a cold boot leaves exactly that word queued, and it carries the VERSION code |
| TraceRing.IntendedInitAppendsVersion | lib/include/execution_tracer.h:38-42 | with the intended version word, a warm reset bounded-appends that word to the surviving queue |
| TraceRing.RecordRoundTrip | test/test_log_dump_function.c:44-55 | each record is 11 bytes, `"0x"`, eight hex digits and a newline, and the digits read back to the word |
| TraceRing.DumpWritesQueue | test/test_log_dump_function.c:99-122 | the dump calls lock (if given), writes the overflow record if the store was full, writes one record per queued word oldest first (0 included), then calls unlock (if given) |
| TraceRing.DumpOfEmptyStore | test/test_log_dump_function.c:124-132 | dumping an empty store calls only the lock and unlock hooks and never writes |
| ExecTracer.ExecTracer.PowerOn | lib/src/execution_tracer.c:13 | the store object before any `TRACE_Init`, its fields and buffer holding whatever memory held |
| ExecTracer.ExecTracer.IsEmpty | lib/include/execution_tracer.h:16 | holds exactly when the object's queue is empty |
| ExecTracer.ExecTracer.IsFull | lib/include/execution_tracer.h:17 | holds exactly when the object's queue is at the maximum capacity |
| ExecTracer.ExecTracer.NumEntries | test/test_common.c:109-140 | the masked head-minus-tail distance is the object's queue length, at most N - 1 |
| ExecTracer.ExecTracer.Put | lib/include/execution_tracer.h:19-35 | updates head, tail and the buffer in place as the `TraceRing` put step; the queue becomes the bounded append of the word |
| ExecTracer.ExecTracer.Get | test/test_common.c:35-56 | returns the oldest word and removes it, or 0 from an empty store; only tail changes |
| ExecTracer.ExecTracer.Clear | test/test_common.c:19-22 | resets head and tail; the object is valid and empty |
| ExecTracer.ExecTracer.Init | lib/src/execution_tracer.c:15-28 | records the hooks, takes the cold or warm branch on the sentinel, then puts the word `TRACE_ExecTracerVersion()` builds (0 as written); the new state is the `TraceRing` init step |
| ExecTracer.ExecTracer.WriteAll | test/test_log_dump_function.c:99-122 | the dump's drain loop: one write per word got, oldest first, leaving the store empty |
| ExecTracer.ExecTracer.Dump | test/test_log_dump_function.c:81-132 | the hook calls are exactly `DumpCalls` of the store at entry; the store is left empty, with head and buffer untouched |
| HeaderNames.PutMissingWithoutOverwrite | lib/include/execution_tracer.h:29-35 | with overwrite disabled no `TRACE_Put` is defined; with it enabled one is |
| HeaderNames.InitMagicUndefined | lib/src/execution_tracer.c:17 | the sentinel name `TRACE_Init` uses is defined by neither header, while the private header defines the value as `NOINIT_VALID_SIGNATURE` |
| Svd.Entries | tools/parse_svd.py:24-30 | no contract of its own: the register entries in the order the nested loops visit them; `EntriesMembership` states which entries occur |
| Svd.MapOf | tools/parse_svd.py:31-33 | no contract of its own: the dictionary filled from the entries in order; `MapOfKeys` and `MapOfLastWins` state its keys and values |
| Svd.RegisterEntry | tools/parse_svd.py:24-33 | a register's entry is keyed by the peripheral's base address plus the register's offset and names the peripheral and register |
| Svd.RegisterSetForDevice | tools/parse_svd.py:14-34 | the nested loops build exactly the dictionary of all register entries, peripherals and registers in document order |
| Svd.MapOfKeys | tools/parse_svd.py:24-34 | an address is in the dictionary exactly when some entry has it |
| Svd.MapOfLastWins | tools/parse_svd.py:24-34 | an address used more than once holds the entry assigned last |
| Svd.EntriesMembership | tools/parse_svd.py:24-34 | an entry is produced exactly when it comes from some register of some peripheral |
| Svd.RegisterSetKeys | tools/parse_svd.py:14-34 | an address is in the device's table exactly when some peripheral's base plus one of its register offsets gives it |
| Svd.SelectSource | tools/parse_svd.py:84-116 | no usable argument gives no table; an SVD file together with make or model is an invalid combination; otherwise the file, or make and model, is the source |
| TraceParser.IdCode | tools/exec_trace_parser.py:202 | `(value >> 28) & 0xF` is below 16 |
| TraceParser.AddressOffset | tools/exec_trace_parser.py:95 | `value & 0xFFFFFFE` is an even offset below 2^28 |
| TraceParser.VersionChar | tools/exec_trace_parser.py:140 | `(value >> 16) & 0xFF` is a character below 256 |
| TraceParser.VersionMajor | tools/exec_trace_parser.py:141 | `(value >> 8) & 0xFF` is below 256 |
| TraceParser.VersionMinor | tools/exec_trace_parser.py:142 | `value & 0xFF` is below 256 |
| TraceParser.ModuleNumber | tools/exec_trace_parser.py:169 | `(value >> 16) & 0xFFF` is below 2^12 |
| TraceParser.LineNumber | tools/exec_trace_parser.py:170 | `value & 0xFFFF` is below 2^16 |
| TraceParser.VersionFieldsRoundTrip | tools/exec_trace_parser.py:138-144 | a VERSION-tagged word carrying a character in bits 23:16, a major in 15:8 and a minor in 7:0 decodes to code VERSION and those three fields |
| TraceParser.NameAt | tools/exec_trace_parser.py:96-99 | no contract of its own: the dictionary's entry, or the kind, `" @ 0x"` and `%08X` of the address; `NameAtReadsBack` states both cases |
| TraceParser.FunctionName | tools/exec_trace_parser.py:95-99 | no contract of its own: `NameAt` of the function table at the masked value plus the flash base |
| TraceParser.VariableName | tools/exec_trace_parser.py:111-115 | no contract of its own: `NameAt` of the variable table at the masked value plus the RAM base |
| TraceParser.SfrName | tools/exec_trace_parser.py:131-136 | no contract of its own: `"Peripheral->Register"` on a hit, `"SFR @ 0x"` and the address otherwise; `SfrNameReadsBack` states both cases |
| TraceParser.AddressOffsetIsMask | tools/exec_trace_parser.py:95 | the offset is the bitwise AND with `0xFFFFFFE` of any non-negative value |
| TraceParser.NameAtReadsBack | tools/exec_trace_parser.py:95-115 | a dictionary hit gives the name; a miss gives `"<kind> @ 0x"` and eight hex digits that read back to the address |
| TraceParser.SfrNameReadsBack | tools/exec_trace_parser.py:117-136 | a hit gives `"Peripheral->Register"`; a miss gives `"SFR @ 0x"` and hex digits that read back to the address |
| TraceParser.DecodeRecord | tools/exec_trace_parser.py:184-220 | one step goes on exactly when the value read is not the end marker, and then advances the reader |
| TraceParser.DecodeAll | tools/exec_trace_parser.py:222-234 | the run stops inside the values read |
| TraceParser.TagRoundTrip | tools/exec_trace_parser.py:202 | the decoder's ID code and address offset of a tagged word are the tag and the payload with bit 0 cleared |
| TraceParser.DispatchByCode | tools/exec_trace_parser.py:197-220 | the end marker stops with nothing changed; codes 1 to 7 give one line of their kind, codes 6 and 7 read a second word; codes 0 and 8 to 15 are skipped |
| TraceParser.DecodeSingleWord | tools/exec_trace_parser.py:203-212 | codes 1 to 5 consume one word and give one line of their kind |
| TraceParser.DecodeValueEntry | tools/exec_trace_parser.py:213-218 | codes 6 and 7 consume the next word as the value and give one line of their kind |
| TraceParser.DecodeUnknownCode | tools/exec_trace_parser.py:202-220 | codes 0 and 8 to 15 consume one word and give no line, leaving the indent alone |
| TraceParser.VersionWordDecodes | tools/exec_trace_parser.py:138-144 | the intended version word decodes to 'V', 1.0 and resets the indent level |
| TraceParser.VersionWordAsWrittenIsSkipped | tools/exec_trace_parser.py:202-220 | the version word the target actually writes (0) produces no line and keeps the indent |
| TraceParser.FileAndLineRoundTrip | tools/exec_trace_parser.py:167-172 | a word carrying module in bits 27:16 and line in 15:0 decodes to that module and line |
| TraceParser.EnterExitRestoresIndent | tools/exec_trace_parser.py:151-165 | an entry and the matching exit print at the same level with the same name and restore the indent |
| TraceParser.VariableValueUnchecked | tools/exec_trace_parser.py:213-215 | a variable entry whose value word is missing takes the end marker `-1` as its value |
| TraceParser.StopsAtEndMarker | tools/exec_trace_parser.py:222-234 | decoding stops at the first end marker met at an entry boundary; nothing after it is read |
| TraceParser.TraceReader.constructor | tools/trace_from_file.py:16-17 | the reader starts at the first value |
| TraceParser.TraceReader.ReadNext | tools/trace_from_file.py:19-25 | returns the next value and advances, or `-1` once the values are exhausted |
| TraceParser.ExecTraceParser.constructor | tools/exec_trace_parser.py:26-46 | the tables as given, all bases 0, indent 0 |
| TraceParser.ExecTraceParser.SetFlashBase | tools/exec_trace_parser.py:48-51 | changes only the flash base |
| TraceParser.ExecTraceParser.SetRamBase | tools/exec_trace_parser.py:52-55 | changes only the RAM base |
| TraceParser.ExecTraceParser.SetSfrBase | tools/exec_trace_parser.py:56-59 | changes only the SFR base |
| TraceParser.ExecTraceParser.IncIndent | tools/exec_trace_parser.py:61-63 | the indent goes up by one |
| TraceParser.ExecTraceParser.DecIndent | tools/exec_trace_parser.py:65-68 | the indent goes down by one, never below 0 |
| TraceParser.ExecTraceParser.ResetIndent | tools/exec_trace_parser.py:75-83 | the indent becomes 0 |
| TraceParser.ExecTraceParser.TraceVersion | tools/exec_trace_parser.py:138-144 | appends the version line with char, major and minor from bits 23:16, 15:8, 7:0 and resets the indent |
| TraceParser.ExecTraceParser.TraceReset | tools/exec_trace_parser.py:146-149 | appends the reset line at the current indent |
| TraceParser.ExecTraceParser.TraceFuncEntry | tools/exec_trace_parser.py:151-157 | appends the entry line at the current indent, then indents |
| TraceParser.ExecTraceParser.TraceFuncExit | tools/exec_trace_parser.py:159-165 | unindents, then appends the exit line at the new indent |
| TraceParser.ExecTraceParser.TraceFileAndLine | tools/exec_trace_parser.py:167-172 | appends module (bits 27:16) and line (bits 15:0) |
| TraceParser.ExecTraceParser.TraceVariable | tools/exec_trace_parser.py:174-177 | appends the variable's name and its value |
| TraceParser.ExecTraceParser.TraceSfr | tools/exec_trace_parser.py:179-182 | appends the register's name and its value |
| TraceParser.ExecTraceParser.ReadAndTraceNext | tools/exec_trace_parser.py:184-220 | reads and decodes one entry exactly as `DecodeRecord`, returning whether more may follow |
| TraceParser.ExecTraceParser.ReadAndTraceAll | tools/exec_trace_parser.py:222-234 | loops until the end marker; output, indent and reader position are exactly `DecodeAll` |
| MapFile.SectionOf | tools/parse_map_file.py:60-71 | `.text`, `.data` and `.bss` select their section and every other name gives UNKNOWN, both directions |
| MapFile.MatchSectionLine | tools/parse_map_file.py:61-63 | no contract of its own: the section pattern as a character matcher; `SectionLineIff` states exactly what it accepts and captures |
| MapFile.SectionLineIff | tools/parse_map_file.py:61-63 | the section pattern captures `name` exactly when the line starts with `name`, a dot and one or more of `[a-zA-Z_0-9.]`, followed by a whitespace character |
| MapFile.MatchSymbolLine | tools/parse_map_file.py:82-86 | a symbol match captures an address made of hex digits |
| MapFile.SymbolLineSound | tools/parse_map_file.py:82-86 | every line the symbol pattern accepts is 16 spaces, `0x`, the captured hex digits, 16 spaces and the captured non-space run, followed by the end of the line or whitespace |
| MapFile.SymbolLineComplete | tools/parse_map_file.py:82-86 | every line of that shape is accepted with exactly that address and name |
| MapFile.SymbolLineIff | tools/parse_map_file.py:82-86 | the two directions together |
| MapFile.ScanLine | tools/parse_map_file.py:52-92 | no contract of its own: one iteration of the loop; `PreambleSkipped`, `SectionLineSelects`, `SectionLineAborts` and `ScanSymbolLine` state each branch |
| MapFile.GnuMapFile | tools/parse_map_file.py:42-94 | no contract of its own: file not found, or the scan of all lines from the initial state; `NoMarkerNoEntries` and `MemoryMapStartsAfterMarker` state its results |
| MapFile.ReadGnuMapFile | tools/parse_map_file.py:42-94 | the loop over the lines computes exactly the scan's result: file not found, exit status 1, or the two dictionaries |
| MapFile.PreambleSkipped | tools/parse_map_file.py:52-56 | before the memory-map marker, lines change nothing |
| MapFile.MemoryMapStartsAfterMarker | tools/parse_map_file.py:46-56 | the scan of preamble, marker and rest is the scan of the rest with the memory map found |
| MapFile.NoMarkerNoEntries | tools/parse_map_file.py:46-94 | a file without the marker yields two empty dictionaries |
| MapFile.SectionLineSelects | tools/parse_map_file.py:60-71 | inside the memory map a section line selects that section |
| MapFile.SectionLineAborts | tools/parse_map_file.py:72-74 | in the memory map, a line starting with `.` that the section pattern rejects ends the program with status 1, whatever follows |
| MapFile.SymbolLineRecorded | tools/parse_map_file.py:81-92 | a symbol line in `.text` is recorded as a function, and in `.data` or `.bss` as a variable, at its parsed address |
| MapFile.ScanSymbolLine | tools/parse_map_file.py:81-92 | a matched symbol line goes to the functions table in `.text`, the variables table in `.data` or `.bss`, and nowhere in an unknown section |

## Left out

- Printing: the decoder records each line as a `TraceLine` with its indent.
  - The text formats (`%c%d.%d`, `0x%02X`, `%u`, `%d`, `0x%08X`) and `print_indent`
    are not rendered.
  - Names are rendered, because the map-file and SVD look-ups produce them.
- Target-side I/O and concurrency.
  - The dump's `write`, `lock` and `unlock` hooks are recorded as a sequence of calls.
  - Locking semantics, interrupts and concurrent producers are not modelled.
  - The `write` hook is taken to be always present.
- The trace producer macros (`TRACE_FunctionEntry` and the others,
  `lib/include/execution_tracer.h:44-49`) expand to nothing, so the target has no
  encoder to model.
  - The word layout that the decoder's lemmas use is `Protocol.TaggedWord`.
- `__NO_INIT` placement and the linker section are not modelled.
  - Memory that survives a reset is modelled as `ExecTracer.ExecTracer.PowerOn` with
    arbitrary contents, followed by `Init` on the same object.
- ExecTracer.ExecTracer.Init: requires a valid store whenever the sentinel is present.
  - If memory holds the sentinel but indices outside the buffer, the C code would
    index out of bounds. That case is not modelled.
- `STOP_TRACING_AFTER_RESET` and the other configuration-template options are not
  modelled. Only the buffer length and `ALLOW_OVERWRITE` are.
- The misspelled duplicate source `lib/src/exeuction_tracer.c` is not part of this
  model.
- The trace readers: only `TextFileTraceReader` is modelled, as a reader over the
  values of the file's lines.
  - `int(line, 0)` parsing of a line, and the error it raises on a malformed line,
    are not modelled.
  - The live and serial-port readers and their scripts (`live_trace`,
    `trace_from_ser_port.py`) are not part of this model.
- TraceParser.ExecTraceParser: base addresses are natural numbers.
  - Negative bases are not modelled.
  - Tables passed as `None` are not modelled. When the map file is missing, the
    original raises on the first look-up.
- MapFile.ReadGnuMapFile: the file is given as its lines, or as absent for
  `os.path.isfile` failing.
  - `print` and `sys.exit` become the `FileNotFound` and `Exited(1)` results.
  - `readlines` line splitting is not modelled.
- SVD loading: `get_mcu_register_set_for_packaged_svd` and
  `get_mcu_register_set_from_xml_file` call the external SVD parser library.
  - `Svd.SelectSource` models which of the two is chosen.
  - The device description is given as a `Device` value.
  - The library and the `os.path.isfile` check are not modelled.
- `argparse`, `main` and the command-line glue of the tools are not modelled.

## Findings

| source | as written | input that shows it | evidently intended | confidence | as-written member | corrected member |
|---|---|---|---|---|---|---|
| lib/include/execution_tracer.h:29-35 | the `#else` branch has a body but no `#define TRACE_Put(n)` line, so with `ALLOW_OVERWRITE` 0 `TRACE_Put` is undefined, yet the version macro and all callers use it | a build with overwrite disabled | `TRACE_Put(n)` that stores the word only when the store is not full | not executed | HeaderNames.PutMissingWithoutOverwrite | TraceRing.DropKeepsQueue |
| lib/include/execution_tracer.h:38-42 | the version word is built with `&` of the shifted code, `'V'`, major and minor, which share no bits | `TRACE_ExecTracerVersion()` with version 1.0 puts 0 | the fields combined with bitwise OR, with major and minor shifted by 8 and 0 rather than 16 (the layout the decoder reads at `tools/exec_trace_parser.py:140-142`), giving `0x10560100` for version 1.0; OR alone, with the shifts as written, would give `0x10570000` | not executed | TraceRing.InitColdBoot | TraceRing.IntendedInitQueuesVersion |
| lib/src/execution_tracer.c:17 | `TRACE_Init` compares and stores `EXEC_TRACE_INIT_MAGIC`, which no header defines | any build of execution_tracer.c | the private header's `NOINIT_VALID_SIGNATURE` (0xAA55CC33) | not executed | HeaderNames.InitMagicUndefined | TraceRing.InitColdBoot |
| lib/src/execution_tracer_private.h:20 | `IS_POWER_OF_2(n)` is `(n & (n - 1)) == 0`, which also holds for 0 and 1 | `BUFFER_LENGTH_IN_WORDS` 0 passes the static assert, which gives a zero-length buffer and a mask of 0xFFFFFFFF | lengths of at least 2 that are powers of two | not executed | Bits.MacroAdmitsZero | Bits.MaskIsModLength |
