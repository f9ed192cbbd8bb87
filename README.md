# SmartFusion A2F reset and fault-dump code, modelled in Dafny

This project models the Cortex-M3 start-up file of the A2F port of U-Boot
(`cpu/arm_cortexm3/start.c`). It covers the file's three pieces of logic:

- **Vector table** (module `Vectors`). The `vectors[]` initialiser is modelled as C99
  designated initialisers (section 6.7.8) plus GCC's `[first ... last]` range extension,
  applied to its three designators. The proofs show the
  table has 166 words, with the initial stack pointer 0x20010000 in word 0, `_start`
  in word 1 and `default_isr` in every other word. Word 0 and exception n follow the
  ARMv7-M Architecture Reference Manual, sections B1.5.2 and B1.5.3.
- **Reset entry `_start`** (module `Reset`). A `Board` class holds memory as an
  `array<bv8>` indexed by address. It also holds the `_armboot_start` global, the IRQ
  mask, the watchdog state and a trace of the calls made. `Board.Start` does:
  1. the configured watchdog call;
  2. `__disable_irq`;
  3. a byte-by-byte `memcpy` of the initialised data;
  4. a byte-by-byte `memset` of the BSS;
  5. the `_armboot_start` store;
  6. the call to `start_armboot`.

  It is proved against the specification functions `Copied`, `Filled` and
  `Relocated`, and against the event sequence `BootSequence`.
- **Fault dump `dump_ctx`** (modules `Diagnostics` and `Formatting`). The printed text
  is a string. It has three parts: the header, the exception label from `exc[]` or
  `INTISR[n]`, and the eight stacked registers as `%08x` fields, two per line.
  - `Report` is the pure description.
  - `DumpCtx` is the loop that builds it one `printf` at a time.
  - Decoders for `%d` and `%08x` show that the printed text gives back the exception
    index and the register values.

The module `Words` defines a 32-bit `unsigned int`, and `Wrappers` defines `Option`.

## Model

| member | source | states |
|---|---|---|
| Vectors.ArrayLength | cpu/arm_cortexm3/start.c:48 | An array declared with `[]` is one longer than its largest designated index. Every designator lies inside it, and its last element is designated. |
| Vectors.ValueAt | cpu/arm_cortexm3/start.c:55-65 | An element holds the value of the last designator that names it, so a later initialiser overrides an earlier one. An element no designator names is zero. |
| Vectors.Initialise | cpu/arm_cortexm3/start.c:48-66 | Every designated element lies inside the array and holds the value of the last designator naming it. Every element no designator names is zero. |
| Vectors.TableLayout | cpu/arm_cortexm3/start.c:48-66 | `vectors` has exactly 166 words: word 0 is 0x20010000, word 1 is `_start`, and words 2..165 are `default_isr`. |
| Vectors.StackSlotUnique | cpu/arm_cortexm3/start.c:55-65 | The stack value occurs in exactly one word. `default_isr` fills exactly 164 words. No word is zero exactly when neither address is zero, so no word is left unassigned. |
| Vectors.LayoutOccurrences | cpu/arm_cortexm3/start.c:55-65 | In any 166-word table with the stack top, the reset entry and then `default_isr` in every other slot, the stack top occurs once and `default_isr` 164 times. It has no zero word exactly when neither address is zero. |
| Vectors.OccurrencesAppend | cpu/arm_cortexm3/start.c:48-66 | Counting a word's occurrences in the table is additive over concatenation. |
| Vectors.DispatchTargets | cpu/arm_cortexm3/start.c:60-65 | Exception 1 (reset) fetches `_start`; every exception 2..165 fetches `default_isr`. |
| Formatting.HexDigit | cpu/arm_cortexm3/start.c:169 | The `%x` digit character is lower-case hexadecimal and decodes back to its digit. |
| Formatting.Hex | cpu/arm_cortexm3/start.c:169 | `%x` yields at least one hex digit and no leading zero. |
| Formatting.ZeroPad | cpu/arm_cortexm3/start.c:169 | The `0` flag with width 8 pads on the left with '0' up to the width and keeps the digits as the suffix. |
| Formatting.HexRoundTrip | cpu/arm_cortexm3/start.c:169 | `%x` of n reads back as n. |
| Formatting.HexLength | cpu/arm_cortexm3/start.c:169 | A number below 16^k has at most k hex digits. |
| Formatting.LeadingZeros | cpu/arm_cortexm3/start.c:169 | Zero padding does not change the value the digits denote. |
| Formatting.Hex8RoundTrip | cpu/arm_cortexm3/start.c:169 | `%08x` of every 32-bit word is exactly 8 lower-case hex digits that read back as the word. |
| Formatting.Decimal | cpu/arm_cortexm3/start.c:166 | `%d` of a non-negative int is at least one decimal digit, with no leading zero. |
| Formatting.DecimalRoundTrip | cpu/arm_cortexm3/start.c:166 | `%d` of n reads back as n. |
| Diagnostics.ActiveVector | cpu/arm_cortexm3/start.c:159 | The exception number is ICSR modulo 256, i.e. the low byte of the register. |
| Diagnostics.LabelMatchesArchitecture | cpu/arm_cortexm3/start.c:141-167 | For every byte, the label from the `exc[]` lookup or the `INTISR` branch is the architecture's name for that exception number. There is no label (NULL) exactly for 0 and 1. Numbers of 16 and up are external interrupts 0..239. |
| Diagnostics.LabelExamples | cpu/arm_cortexm3/start.c:143-167 | Numbers 2, 3, 11 and 20 print as NMI, HARD FAULT, SVCALL and INTISR[4]. |
| Diagnostics.InterruptIndexRoundTrip | cpu/arm_cortexm3/start.c:165-166 | For vec >= 16 the label is `INTISR[`, decimal digits and `]`, and the digits read back as vec - 16. |
| Diagnostics.ConcatAppend | cpu/arm_cortexm3/start.c:168-173 | Output appended by successive `printf` calls is additive over the sequence of calls. |
| Diagnostics.DumpCtx | cpu/arm_cortexm3/start.c:136-174 | The loop that prints the heading and then one field per iteration produces exactly `Report(vec, ctx)`. |
| Diagnostics.ParseStep | cpu/arm_cortexm3/start.c:169-172 | One printed field parses back to its register's name, value and separator. |
| Diagnostics.ParseEntriesFrom | cpu/arm_cortexm3/start.c:168-173 | Iterations i..7 of the dump parse back to the stacked words from register i on. |
| Diagnostics.WordsFromFrame | cpu/arm_cortexm3/start.c:168-169 | The parsed words are exactly the first eight words of the frame. |
| Diagnostics.RegisterDumpRoundTrip | cpu/arm_cortexm3/start.c:138-173 | The register dump names R0, R1, R2, R3, R12, LR, PC, PSR in that order, each followed by 8 hex digits. It reads back to `ctx[0..8]`. |
| Diagnostics.FieldHasNoNewline | cpu/arm_cortexm3/start.c:169 | A register field contains no newline. |
| Diagnostics.LinePair | cpu/arm_cortexm3/start.c:168-173 | Iterations 2k and 2k+1 together print output line k. |
| Diagnostics.LineEnds | cpu/arm_cortexm3/start.c:168-173 | Each output line holds exactly one newline, at its end. |
| Diagnostics.RegisterDumpLines | cpu/arm_cortexm3/start.c:168-173 | The dump is exactly four lines of two fields each, so the output ends in a newline. |
| Diagnostics.ReportShape | cpu/arm_cortexm3/start.c:162-173 | A report exists exactly when vec >= 2. It is "UNHANDLED EXCEPTION: ", the label, a newline, and a register dump that reads back to the eight stacked words. |
| Reset.Copied | cpu/arm_cortexm3/start.c:97 | After `memcpy`, each destination byte holds its source byte and every other byte is unchanged. |
| Reset.Filled | cpu/arm_cortexm3/start.c:98 | After `memset`, each byte in the range is 0 and every other byte is unchanged. |
| Reset.Memcpy | cpu/arm_cortexm3/start.c:97 | The byte-copy loop over non-overlapping ranges leaves memory equal to `Copied` of the old memory. |
| Reset.Memset | cpu/arm_cortexm3/start.c:98 | The store loop leaves memory equal to `Filled` of the old memory. |
| Reset.RelocatedData | cpu/arm_cortexm3/start.c:97-98 | If the BSS is disjoint from the data destination, `[_data_start, _data_end)` holds the load image after both steps. |
| Reset.RelocatedBss | cpu/arm_cortexm3/start.c:98 | Every BSS byte is zero after relocation, whatever the layout. |
| Reset.RelocatedElsewhere | cpu/arm_cortexm3/start.c:97-98 | Bytes outside the two destination ranges are unchanged. So is the load image, when it lies apart from the BSS. |
| Reset.Count | cpu/arm_cortexm3/start.c:76-113 | An event's count in the trace is bounded by the trace length and is zero exactly when the event is absent. |
| Reset.CountDistinct | cpu/arm_cortexm3/start.c:76-113 | In a trace without repeats, each event occurs exactly once. |
| Reset.PrecedesAt | cpu/arm_cortexm3/start.c:76-113 | In a trace without repeats, an earlier event precedes every later one. |
| Reset.OtherWatchdogAbsent | cpu/arm_cortexm3/start.c:76-80 | The watchdog call the configuration does not select is never made. |
| Reset.BootSequenceProper | cpu/arm_cortexm3/start.c:76-113 | For either `CONFIG_HW_WATCHDOG` setting, the reset sequence starts with exactly one watchdog call (the configured one) and ends with exactly one `start_armboot`. The events in between are IRQ masking, copy, zero fill and the `_armboot_start` store, each once and in that order. |
| Reset.Board.WdtDisable | cpu/arm_cortexm3/start.c:77 | The watchdog is stopped, and the call is appended to the trace. |
| Reset.Board.WdtEnable | cpu/arm_cortexm3/start.c:79 | The watchdog is running, and the call is appended to the trace. |
| Reset.Board.DisableIrq | cpu/arm_cortexm3/start.c:85 | PRIMASK is set, and the call is appended to the trace. |
| Reset.Board.CopyData | cpu/arm_cortexm3/start.c:97 | Memory becomes `Copied` of the old memory from `_data_lma_start` to `_data_start` for `_data_end - _data_start` bytes, and the copy is appended to the trace. |
| Reset.Board.ZeroBss | cpu/arm_cortexm3/start.c:98 | Memory becomes `Filled` of the old memory with 0 over `[_bss_start, _bss_end)`, and the zero fill is appended to the trace. |
| Reset.Board.StartArmboot | cpu/arm_cortexm3/start.c:113 | The hand-off call is appended to the trace. |
| Reset.Board.Start | cpu/arm_cortexm3/start.c:71-114 | Memory ends as `Relocated` of the old memory and `_armboot_start` holds `&armboot_start`. IRQs are masked, and the watchdog runs exactly when the build configures it. The trace grows by the six-event boot sequence. |
| Reset.PowerOnReset | cpu/arm_cortexm3/start.c:71-114 | From reset, the trace satisfies the required order and memory holds the relocated image. |

## Left out

- `default_isr` (lines 120-131) is not modelled. Its inline assembly passes the stack pointer to `dump_ctx`, and then it halts in `for (;;)`. Here the stacked frame is the `ctx` parameter of `DumpCtx`, and the halt is not represented.
- `start_armboot` never returns on the real board. It is modelled as the last event of the trace, and `Board.Start` returns after it.
- `printf` writes to the console. Here its output is a string value, and no console or buffering is modelled.
- Diagnostics.DumpCtx: the exception number `vec` is an input byte, not a read of `A2F_SCB->icsr`. `ActiveVector` shows how it comes from the register. The 8-bit mask drops bit 8 of the 9-bit VECTACTIVE field, and this is not modelled further.
- Diagnostics.Label: for exception numbers 0 and 1, `exc[]` holds NULL, and `printf("%s", NULL)` is undefined in C. The model returns None (no report) rather than inventing a string.
- Reset.Board.Start: `_armboot_start` is a field of the board, not bytes in memory, so its placement (in BSS or elsewhere) is not modelled. Its value before `_start` runs is a parameter of the constructor, because uninitialised RAM holds an unknown value.
- Reset.ValidLayout: the linker symbols (`_data_*`, `_bss_*`, `armboot_start`) and the addresses of `_start` and `default_isr` are parameters. Their actual values, the `.vectors` section placement and the validity of 0x20010000 as a stack top on every A2F part are not modelled.
- Reset.ValidLayout: disjointness of BSS from the data destination is not a precondition of `_start`. It is required only by `RelocatedData`, the lemma saying the copied data survives the zero fill.
- Reset.Board.WdtDisable: the watchdog driver (`wdt_enable`/`wdt_disable`) is not part of this model. Its effect is reduced to a running/stopped flag.
- Reset.Board.DisableIrq: the `__disable_irq` intrinsic is modelled only as setting the PRIMASK flag.
- Reset.Memcpy: memory is a single byte array indexed by address. Bus widths, flash programming and caching are not modelled. The copy is the forward byte loop of a plain `memcpy`.
