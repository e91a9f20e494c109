# riot_pal protocol core in Dafny

This project models the protocol core of RIOT PAL, the Python library that
drives RIOT test firmware over a serial line:

- `LLShell` (`ll_shell.dfy`) is the low-level register shell. It sends one
  command line and reads one comma-separated reply whose first token is a
  status code. On top of that it builds byte reads and writes, bit-field
  reads, and read-modify-write bit-field writes.
- `MemMapIf` (`ll_mem_map_if.dfy`) is the memory-map interface. It loads a
  register table from CSV rows, reads and writes registers by name (bit
  field, array or scalar), decodes little-endian arrays, and reads every
  register whose name starts with a prefix.
- `DutShell` (`dut_shell.dfy`) is the device-under-test shell. It has a line
  parser that scans for `Command:`, `Success:` and `Error:` lines, a JSON
  parser that merges decoded objects until a `result` key arrives, and the
  parser selection.
- `DutPyShell` (`dut_pyshell.dfy`) is the string logic of the interactive
  shell: tab completion, the raw/filtered switch, which values to print
  for a command's results, and argument splitting.
- `Py` (`py.dfy`) states the Python built-ins the code relies on: split,
  join, partition, slicing, `int()` on a stated subset, `str()` of integers
  and `bytes.fromhex`.
- `Arith` (`arith.dfy`) holds the shift-and-mask arithmetic on unbounded
  integers.
- `Transport` (`transport.dfy`) is the serial line as a value
  `Link(sent, inbox)`. A read from an empty inbox returns `""`, which the
  code treats as a timeout.

Straight-line Python becomes functions that return `(Outcome<T>, Link)`. A
Python exception becomes `Raised(exc)`. Each loop becomes a method proved
equal to a specification function, and the promised properties are lemmas
about that function. Where the code updates an object's fields (the
parser choice of `DutShell`, the `data_only` switch of the interactive
shell), the object is a class.

## Model

| member | source | states |
|---|---|---|
| LLShell.TryParseData | riot_pal/ll_shell.py:27-42 | No data exactly for a reply of at most one token. The second token is one integer exactly when it has at most ten characters and parses. It is its hex bytes in reverse order exactly when it is longer, starts with `0x` and the rest is valid hex. In every other case the data is the list of tokens after the status. |
| LLShell.ErrorMsg | riot_pal/ll_shell.py:44-48 | An error message exists exactly for the codes the errno tables know. |
| LLShell.PopulateCmdInfo | riot_pal/ll_shell.py:50-74 | The result is Success exactly for the status `0` or NUL+`0`, with the success message and the parsed data. A status that is not an integer literal is an Error carrying the token and `Unknown Error` followed by the `int()` message. An integer status raises KeyError exactly when the errno tables lack it; otherwise it is an Error with the code and its errno message. |
| LLShell.UnknownStatus | riot_pal/ll_shell.py:63-70 | A printable status token without quotes or backslashes that is not an integer gives the token as data. If the token has at most 198 characters, the message is `Unknown Error invalid literal for int() with base 0: '<token>'`. A longer token's repr is cut at 200 characters by `%.200R`, so the message ends with `'` and the token's first 199 characters, with no closing quote. |
| LLShell.ResetReplyIsSuccess | riot_pal/ll_shell.py:53-60 | A NUL-prefixed success code reads exactly like the plain success code. It gives the success message, the parsed data and result Success. |
| LLShell.ErrorReply | riot_pal/ll_shell.py:61-67 | A known non-zero status code gives result Error, the code as data, and the message `symbol-description [code]`. |
| LLShell.UnknownCodeRaises | riot_pal/ll_shell.py:46 | A numeric status code unknown to the errno tables raises KeyError, which nothing catches. |
| LLShell.ReplyTokens | riot_pal/ll_shell.py:95-96 | The tokens joined with commas give back the reply line with its newlines removed. No token holds a comma or a newline. |
| LLShell.ReplyOfTokens | riot_pal/ll_shell.py:95-96 | A line made of clean tokens joined by commas, with a newline at the end, splits back into exactly those tokens. |
| LLShell.SendCmd | riot_pal/ll_shell.py:76-98 | The command is written and exactly one line is consumed. An empty line gives Timeout with no data, and Timeout happens only then. A non-empty line gives the `PopulateCmdInfo` parse of its tokens, either raised or with the command echoed beside it. The only exception is KeyError. |
| LLShell.SendCmdReply | riot_pal/ll_shell.py:94-97 | When the device answers with clean tokens joined by commas, the reply is the `PopulateCmdInfo` parse of exactly those tokens, with the command echoed. |
| LLShell.ReadBytes | riot_pal/ll_shell.py:100-104 | Exactly the line `rr <index> <size>` is sent, one reply line is consumed, and the reply echoes that command. |
| LLShell.ExecuteChanges | riot_pal/ll_shell.py:168-171 | Exactly the line `ex` is sent and one reply line is consumed. |
| LLShell.ResetMcu | riot_pal/ll_shell.py:173-176 | Exactly the line `mcu_rst` is sent and one reply line is consumed. |
| LLShell.ShortValueReply | riot_pal/ll_shell.py:32-33 | An integer sent back as at most ten decimal characters is read as that integer. |
| LLShell.LongHexReply | riot_pal/ll_shell.py:34-36 | Bytes sent most significant first as a long `0x` hex token come back least significant first. |
| LLShell.HexTokenData | riot_pal/ll_shell.py:34-36 | A long `0x` token whose hex decodes to some bytes gives those bytes reversed. |
| LLShell.WriteListOnWire | riot_pal/ll_shell.py:110-119 | A list without a leading `0x` string is sent as its elements' texts in reverse order; split on spaces the command gives back `wr`, the address and those texts. |
| LLShell.WriteHexListOnWire | riot_pal/ll_shell.py:110-119 | A list headed by a `0x` hex string is sent as the bytes it spells, last byte first, as decimal tokens. The rest of the list is ignored. |
| LLShell.EncodeWriteCmd | riot_pal/ll_shell.py:106-122 | The loop that builds the `wr` command produces exactly `WriteCmd`. An empty list raises IndexError, bad hex raises ValueError, and any value other than an int or a list raises TypeError when `size > 0`. |
| LLShell.AppendBytes | riot_pal/ll_shell.py:121-122 | The byte loop appends the decimal text of each wire byte, least significant first. |
| LLShell.AppendReversed | riot_pal/ll_shell.py:115-119 | The list loop appends the items in reverse order. |
| LLShell.WriteBytes | riot_pal/ll_shell.py:106-123 | A malformed list raises before anything is sent. Otherwise exactly the encoded command is exchanged. |
| LLShell.WriteOtherRaises | riot_pal/ll_shell.py:120-122 | A value that is neither an int nor a list (`None`, a string, bytes, a float) raises TypeError at its first shift, with nothing sent, whenever `size > 0`. With `size <= 0` the loop never runs, and the bare `wr <index>` is sent. |
| LLShell.WriteIntOnWire | riot_pal/ll_shell.py:109-122 | The command for an integer splits back into `wr`, the address and `size` byte tokens. Reassembled little-endian, they give the integer modulo `256**size`. |
| LLShell.Span | riot_pal/ll_shell.py:131 | For a non-negative `width+offset`, the number of bytes read for a bit field is the fewest whole bytes that hold bits `0 .. offset+width-1`. |
| LLShell.ReadBits | riot_pal/ll_shell.py:125-141 | The covering bytes are read. A failed read is returned unchanged. After a successful read, non-integer data raises TypeError, a negative offset ValueError and a negative width TypeError. Otherwise the data is the field's bits and the command gains the `read_bits` suffix. |
| LLShell.WriteBits | riot_pal/ll_shell.py:143-166 | The covering bytes are read. If the read fails nothing is written and the read's result is returned. After a successful read, a negative offset raises ValueError, and then non-integer read data, or a value that is not an int, raises TypeError; nothing is written in these cases. Otherwise the spliced value is written over the same span and the command echoes both halves. |
| LLShell.WriteBitsReadBack | riot_pal/ll_shell.py:143-166 | Assuming the device stores what it is sent, after `write_bits` the field reads back as `v mod 2**width`. The bits below and above the field in the span keep their old values. |
| Arith.SpliceSpec | riot_pal/ll_shell.py:156-159 | Clearing the masked bits and OR-ing in the shifted value sets exactly the field to `v mod 2**w`. All other bits are kept. |
| Arith.Bits | riot_pal/ll_shell.py:137-138 | The shifted and masked field is below `2**width`. |
| Arith.WireBytesLittleEndian | riot_pal/ll_shell.py:121-122 | The bytes `(n >> 8i) & 0xFF` reassemble little-endian to `n mod 256**size`. |
| MemMapIf.ZipRowSpec | riot_pal/ll_mem_map_if.py:28 | `dict(zip(header, row))` has exactly the keys of the header up to the shorter length. A key not repeated later maps to its cell. |
| MemMapIf.ImportMemMap | riot_pal/ll_mem_map_if.py:21-31 | The loading loop produces exactly the table `Imported` specifies. |
| MemMapIf.LoadedNames | riot_pal/ll_mem_map_if.py:27-29 | The register names are the `name` column, each once, in first-seen order. They are exactly the table's keys. |
| MemMapIf.LoadedLast | riot_pal/ll_mem_map_if.py:28-29 | When a name repeats, the last row with that name wins. |
| MemMapIf.ImportedTable | riot_pal/ll_mem_map_if.py:22-31 | With no data rows the table is empty. A header without `name` raises ValueError. IndexError is raised iff some row is too short for the name column. Otherwise the table is valid, with the names and last-row-wins rows above. |
| MemMapIf.ReadSize | riot_pal/ll_mem_map_if.py:66-73 | With no count, the size text is `total_size`, or `type_size` when `total_size` is empty. With a count, an array reads `int(type_size)*count` and a scalar reads `count`. It fails exactly when a needed cell is missing (KeyError) or `type_size` is not decimal (ValueError). |
| MemMapIf.ElementAddress | riot_pal/ll_mem_map_if.py:79 | The element address is `int(offset) + elem*int(type_size)`. It fails exactly when a cell is missing or not decimal. |
| MemMapIf.BitField | riot_pal/ll_mem_map_if.py:74-77 | The bit-field descriptor is the integer `offset`, `bit_offset` and `bits` cells. It fails exactly when one is missing or not decimal. |
| MemMapIf.PlanRead | riot_pal/ll_mem_map_if.py:66-84 | Dispatch order: a non-empty `bits` cell means a bit-field read. Otherwise a non-empty `total_size` means an array read at the element address. Otherwise a scalar read at the `offset` cell. It succeeds exactly when the size and the chosen branch's cells are there and decimal where converted; it raises only KeyError or ValueError. |
| MemMapIf.ParseArray | riot_pal/ll_mem_map_if.py:43-54 | Raises ZeroDivisionError exactly for a zero size on sized data. Otherwise the result is the data unchanged or an integer list. A text size leaves the data unchanged. |
| MemMapIf.ParseArrayInts | riot_pal/ll_mem_map_if.py:46-54 | For a positive size: fewer bytes than one element give `[]`. All-byte data gives the decoded elements. Otherwise the data comes back unchanged. |
| MemMapIf.DecodeLength | riot_pal/ll_mem_map_if.py:47 | The number of elements is `len(data) // size`. |
| MemMapIf.DecodeAt | riot_pal/ll_mem_map_if.py:48-50 | Element `i` is `int.from_bytes(data[i*n:(i+1)*n], 'little')`. |
| MemMapIf.ParseArrayLoop | riot_pal/ll_mem_map_if.py:43-54 | The element loop produces exactly `ParseArray` for integer data and a numeric size. |
| MemMapIf.ArrayRoundTrip | riot_pal/ll_mem_map_if.py:47-51 | Values encoded as n-byte little-endian chunks, plus any short tail, decode to the values modulo `256**n`. |
| MemMapIf.ParseArrayRoundTrip | riot_pal/ll_mem_map_if.py:43-54 | Same round trip through `_parse_array` with a numeric type size. |
| MemMapIf.ParseArrayTextSize | riot_pal/ll_mem_map_if.py:81-82 | With the type size passed as text, `[1,0,2,0]` comes back undecoded. With the number 2 it decodes to `[1,2]`. |
| MemMapIf.ReadRegAsWritten | riot_pal/ll_mem_map_if.py:56-87 | `read_reg` as written. An unknown name raises KeyError. |
| MemMapIf.ReadRegAsWrittenRaises | riot_pal/ll_mem_map_if.py:78-84 | As written, every array or scalar read raises TypeError before anything is sent. |
| MemMapIf.ReadReg | riot_pal/ll_mem_map_if.py:56-87 | An unknown name raises KeyError. A bad descriptor raises before anything is sent. A reply's message names the register. |
| MemMapIf.ReadRegCommand | riot_pal/ll_mem_map_if.py:66-84 | Exactly one `rr` command is sent, with the address and size the dispatch chooses. |
| MemMapIf.ReadArrayScenario | riot_pal/ll_mem_map_if.py:66-80 | Reading three elements of a one-byte array at base 100 from element 2 sends `rr 102 3`. |
| MemMapIf.PlanWrite | riot_pal/ll_mem_map_if.py:99-108 | Dispatch order: bit field, then array element, then scalar of `int(type_size)` bytes. It succeeds exactly when the chosen branch's cells are there and decimal where converted; it raises only KeyError or ValueError. |
| MemMapIf.WriteReg | riot_pal/ll_mem_map_if.py:89-111 | An unknown name raises KeyError. A bad descriptor raises before anything is sent. A reply's message names the register. |
| MemMapIf.WriteRegCommand | riot_pal/ll_mem_map_if.py:89-111 | A bit field first reads its covering bytes and then sends at most one more command. An array element sends one `wr` of four bytes at the element address, a scalar one `wr` of `int(type_size)` bytes at its `offset` cell. Data that `write_bytes` rejects sends nothing. |
| MemMapIf.WriteArrayScenario | riot_pal/ll_mem_map_if.py:103-105 | Writing `[6,6,6]` at element 2 of a one-byte array at base 100 sends `wr 102 6 6 6`. |
| MemMapIf.Matching | riot_pal/ll_mem_map_if.py:36-39 | The selected names are exactly the table's names that start with the prefix, in table order. |
| MemMapIf.MatchingAppend | riot_pal/ll_mem_map_if.py:36-39 | The selection distributes over concatenation, so table order is kept. |
| MemMapIf.ReadStruct | riot_pal/ll_mem_map_if.py:33-41 | The loop reads the matching registers in table order, each with the corrected `ReadReg` of the first finding. It equals `ReadEach` over them. |
| MemMapIf.ReadEachStops | riot_pal/ll_mem_map_if.py:33-41 | An exception from one register stops the walk: later registers are not read. |
| MemMapIf.ReadEachNames | riot_pal/ll_mem_map_if.py:33-41 | A complete walk returns one response per register, each message naming its register. |
| DutShell.ParseAtomText | riot_pal/dut_shell.py:37-41 | Parsing an atom's text gives the atom back: every integer, and every text that is not an integer literal. |
| DutShell.BracketData | riot_pal/dut_shell.py:32-44 | No data iff the line lacks `[` or `]`. |
| DutShell.TryParseData | riot_pal/dut_shell.py:31-44 | The item loop produces exactly `BracketData`. |
| DutShell.BracketRoundTrip | riot_pal/dut_shell.py:32-43 | A bracketed `, `-separated list of integers parses back to those integers. |
| DutShell.EmptyBrackets | riot_pal/dut_shell.py:33-41 | `[]` parses to a list holding one empty string, not to an empty list. |
| DutShell.ShellSendAndParse | riot_pal/dut_shell.py:46-85 | The command is written once. The reading loop equals the `Scan` specification. |
| DutShell.ScanStopsAtFirst | riot_pal/dut_shell.py:62-78 | Scanning stops at the first `Success:` or `Error:` line and leaves the rest unread. A `Success:` line wins over `Error:` in the same line. |
| DutShell.ScanTimeout | riot_pal/dut_shell.py:62-84 | Without a terminal line, everything is read and the result is Timeout, with `Command:` lines still applied. |
| DutShell.ScanData | riot_pal/dut_shell.py:67-71 | On success the data is the bracket list of the success message. Otherwise it is the initial `None`. |
| DutShell.UpdateLookup | riot_pal/dut_shell.py:107 | `dict.update` with a decoded object: each key holds its last value and other keys are kept. |
| DutShell.UpdateFrom | riot_pal/dut_shell.py:107 | `dict.update` of a decoded value: an object merges its fields. The empty string changes nothing and any other string raises ValueError. A number, boolean or `null` raises TypeError. Only TypeError and ValueError are raised. |
| DutShell.UpdatePairsRaises | riot_pal/dut_shell.py:107 | A decoded list raises exactly when one of its elements is not a key/value pair, with the exception of the first such element. |
| DutShell.PairsUpdate | riot_pal/dut_shell.py:107 | A list of `[key, value]` lists updates the record exactly as the object with those fields does. |
| DutShell.Absorb | riot_pal/dut_shell.py:105-113 | A decoded line goes to `dict.update`. An undecodable line is appended to `msg`, created when absent, and nothing else changes. A `msg` that is not a list raises AttributeError. |
| DutShell.JsonSendCmd | riot_pal/dut_shell.py:98-114 | The command is written once. The reading loop equals the `Collect` specification. |
| DutShell.CollectHasResult | riot_pal/dut_shell.py:102-114 | A completed reply always has a `result` key. The only exceptions are TypeError and ValueError from `dict.update`, and AttributeError from a non-list `msg`. |
| DutShell.UndecodableLines | riot_pal/dut_shell.py:108-113 | Lines that are not JSON are appended to `msg` in order. Running out of lines sets result Timeout. |
| DutShell.JsonSendAndParse | riot_pal/dut_shell.py:116-133 | The reply is `{'cmd': sent}` overridden by the device's keys. |
| DutShell.JsonReplyCmd | riot_pal/dut_shell.py:131-133 | A device-supplied `cmd` replaces the sent one. Every device key is kept. |
| DutShell.SelectParser | riot_pal/dut_shell.py:142-154 | The default or `shell` selects the line parser and `json` the JSON parser. Anything else raises NotImplementedError. |
| DutShell.NewDut | riot_pal/dut_shell.py:142-154 | A shell is created exactly when the parser name is valid, with that parser. |
| DutShell.Dut.constructor | riot_pal/dut_shell.py:142-152 | The parser and link are stored. |
| DutShell.Dut.SendCmd | riot_pal/dut_shell.py:156-157 | The command goes to the chosen parser, whose specification gives the reply and the new link. |
| DutPyShell.Candidates | riot_pal/dut_pyshell.py:125 | Exactly the options starting with the typed text, in option order. |
| DutPyShell.Complete | riot_pal/dut_pyshell.py:122-125 | One completion per matching option. |
| DutPyShell.CompletionReplacesWord | riot_pal/dut_pyshell.py:122-125 | When the word being completed is `text`, each completion starts with `text` and completes an option. Every option extending the typed argument is offered. |
| DutPyShell.CompleteByOption | riot_pal/dut_pyshell.py:122-125 | The completions are those of each matching option, one at a time and in the order of the option list. |
| DutPyShell.CompleteWholeWord | riot_pal/dut_pyshell.py:122-125 | When the word being completed is the whole argument, the matching options are offered whole. |
| DutPyShell.CompleteRawdata | riot_pal/dut_pyshell.py:152-160 | At most the two filter options are offered. |
| DutPyShell.RawdataCompleteOf | riot_pal/dut_pyshell.py:157-160 | `rawdata of` completes to `off` only. |
| DutPyShell.RawdataCompleteNone | riot_pal/dut_pyshell.py:157-160 | An argument that neither `on` nor `off` starts with completes to nothing. |
| DutPyShell.RawdataRules | riot_pal/dut_pyshell.py:136-150 | `off` in any case filters, and `on` in any case shows raw data. Any other argument is rejected and leaves the switch unchanged. An empty argument flips it, so flipping twice restores it. The message names the new mode. |
| DutPyShell.PyShell.constructor | riot_pal/dut_pyshell.py:66-67 | Output is filtered unless raw data was asked for. |
| DutPyShell.PyShell.DoRawdata | riot_pal/dut_pyshell.py:127-150 | The switch and the shown message follow `RawdataNext`. The command list is kept. |
| DutPyShell.PyShell.CompleteSendCmd | riot_pal/dut_pyshell.py:116-125 | The loop over the device's commands gives exactly `Complete`. |
| DutPyShell.Elements | riot_pal/dut_pyshell.py:182 | A list iterates its items, a string its characters one by one, and an object its keys, each once in first-seen order. Anything else raises TypeError. |
| DutPyShell.Lines | riot_pal/dut_pyshell.py:176-189 | A result without `result`, or any result in raw mode, is dumped whole. In filtered mode a non-Success or data-less result prints nothing, and a Success with `data` prints each element of its data in order, raising exactly when the data is not iterable. |
| DutPyShell.PyShell.PrintResults | riot_pal/dut_pyshell.py:172-191 | The printing loop produces exactly `Report`. |
| DutPyShell.RawReport | riot_pal/dut_pyshell.py:173-191 | In raw mode every result is dumped, in order. With no results, `Success` is printed. |
| DutPyShell.FilteredFallback | riot_pal/dut_pyshell.py:175-191 | In filtered mode, when nothing has data to print, the last non-Success result value is printed, or `Success` if there is none. |
| DutPyShell.FilteredData | riot_pal/dut_pyshell.py:175-191 | In filtered mode, with every result a Success carrying a list, exactly the data items are printed in order, or `Success` when there are none. |
| DutPyShell.WalkStops | riot_pal/dut_pyshell.py:181-183 | Raw mode never raises. In filtered mode only TypeError can stop the printing, and it keeps what was printed before. |
| DutPyShell.NonEmpty | riot_pal/dut_pyshell.py:195 | Exactly the non-empty pieces are kept. |
| DutPyShell.NonEmptyCount | riot_pal/dut_pyshell.py:195 | Each non-empty piece is kept as often as it occurs; only empty pieces are dropped. |
| DutPyShell.NonEmptyAppend | riot_pal/dut_pyshell.py:195 | Filtering works piece by piece over a concatenation, so the kept pieces stay in order. |
| DutPyShell.FuncArgs | riot_pal/dut_pyshell.py:194-195 | Every argument is non-empty and contains no space. |
| DutPyShell.FuncArgsOfWords | riot_pal/dut_pyshell.py:194-195 | Words joined by single spaces split back into the same argument list. |
| DutPyShell.FuncArgsExample | riot_pal/dut_pyshell.py:194-195 | An empty string gives no arguments. Extra spaces are dropped: ` a  b ` gives `a`, `b`. |

## Left out

- Serial I/O (pyserial, baud rates, the reconnect on an empty read, `time.sleep`) is replaced by the `Link` value. `BaseDevice` and the driver manager are not part of this model.
- `errno.errorcode` and `os.strerror` become a parameter table (`ErrnoTable`). `json.loads` becomes a parameter decoder. `csv.reader` and file opening are replaced by a given list of rows.
- `int(x, 0)` and `int(x)` are modelled for an optional sign followed by decimal digits (and `0x` hex for base 0). Whitespace, underscores and `0o`/`0b` literals are not modelled. `bytes.fromhex` is modelled without whitespace.
- `str.upper` is modelled for ASCII letters only.
- `'' is x` is modelled as `x == ""`. This relies on CPython sharing the empty string.
- The span of a bit field, `int((width - 1 + offset)/8 + 1)`, uses float division in Python. The model uses exact truncated division, which agrees for every width and offset that floats represent exactly. This truncating formula is what the code computes; a ceiling-based description of the span does not match it.
- WriteBits: for a width of -1075 or less, Python's `2**width` underflows to `0.0` and the mask becomes -1. The model treats every negative width as an empty field, which matches the code only for widths from -1074 to -1.
- Register dispatch follows the code: any non-empty `total_size` selects array mode, whether or not it equals `type_size`.
- Reading three one-byte elements sends `rr 102 3`. A three-byte reply is parsed by `LLShell` as one integer, because its token is short, so `_parse_array` returns it unchanged rather than as three integers.
- DutShell.Record: dictionary key order is not kept (a `map`).
- DutShell.AsPair: a pair whose key is a number, a boolean or `null` would store a non-string key. Records have string keys only, so the model raises TypeError for it.
- DutShell.UpdateFrom: `dict.update` stores the pairs before a failing element, but the exception leaves `_send_cmd` and the record is dropped, so the model keeps none of them.
- DutShell.Json: numbers are integers; JSON floats are not modelled.
- LLShell.UnknownErrorMsg: `repr` is modelled for ASCII. A character beyond ASCII is kept as it is, also where Python would escape it as not printable.
- The `TimeoutError` of the JSON parser is the inbox running out.
- The interactive shell's `cmd.Cmd` loop, readline history, serial-port wizard with `input()`, argparse and logging are not modelled. `print` and `json.dumps` become the `Printed` values.
- DutPyShell.PyShell.constructor takes the command list as a parameter. Fetching it with `send_cmd('help')['data']` is not modelled.
- `_print_func_result` and `do_send_cmd`: calling the command function and catching its exceptions are not modelled. The argument splitting and the printing of a successful result are.
- DutPyShell.Results: every result is a dictionary. A list result holding non-dictionaries, where `'result' in res` would be a substring or element test, is not modelled.
- DutPyShell.FuncArgs: states the pieces' shape and the round trip for single-space-separated words. It does not state the removal of all spaces for arbitrary input.
- MemMapIf.ReadReg and MemMapIf.WriteReg: their own contracts state the error cases and the message prefix. The commands sent are stated by `ReadRegCommand` and `WriteRegCommand`. The response of a bit field is that of `ReadBits` / `WriteBits`. For an array read, it is `ReadBytes`' response with its data decoded by `ParseArray`, or the exception that decoding raises. For a scalar read, and for every array or scalar write, it is that of `ReadBytes` / `WriteBytes`.
- Logging calls are left out everywhere.

## Findings

| source | as written | input that shows it | evidently intended | confidence | as-written member | corrected member |
|---|---|---|---|---|---|---|
| riot_pal/ll_mem_map_if.py:80-84 | `self.read_bytes(offset, size, True)` and `self.read_bytes(cmd['offset'], size, to_byte_array)` pass three arguments to `read_bytes(self, index, size=1)` | any register with an empty `bits` cell, e.g. `user_reg.64` with offset 100, type size 1, total size 8 | read `size` bytes at the address with two arguments | high; not executed | MemMapIf.ReadRegAsWrittenRaises | MemMapIf.ReadReg |
| riot_pal/ll_mem_map_if.py:81-82 | `_parse_array(response['data'], cmd['type_size'])` passes the type size as a string, so `len(data)/type_size` raises TypeError and the data comes back undecoded | data `[1, 0, 2, 0]` with type size `"2"` | decode with `int(type_size)`, giving `[1, 2]` | high; not executed | MemMapIf.ParseArrayTextSize | MemMapIf.ParseArrayRoundTrip |
