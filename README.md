# monocanthus: a verified model of the memory-map reader

monocanthus is a small Linux tool (one Go file, `monocanthus.go`). It is given a
process name. It finds the process under `/proc` and prints the start and end
address of every readable region in that process's memory map. This project
models that program in Dafny and proves properties of the model.

The tool runs in this order:

1. `getPIDList` lists `/proc` and keeps every directory whose name `strconv.Atoi`
   accepts.
2. `getProcessPid` reads each pid's `status` record in turn. It returns the first
   pid whose `Name:` line, trimmed, equals the requested name, or -1.
3. `main` treats a negative pid as "not found", which is fatal.
4. `procMap` reads the chosen process's `maps` listing and splits it into lines
   with `lines`. It splits each line into fields.
5. For every line whose permission field starts with `r`, `procMap` opens the
   `mem` file. It splits the address field on `-` and parses both halves as
   base-16 int64 values. Then it prints the pair.

Any read error, any malformed address field and any number that does not parse
ends the run through `log.Fatal`. Two cases end the run with an index panic:
- a status line shorter than five bytes that the name search reaches, that is,
  one that comes before the record's `Name:` line, in a record examined before
  the target is found;
- a maps line with fewer than two fields.

Pairs printed before such a failure remain printed. The model therefore
describes a run as an `Outcome`: the printed pairs, and the failure that stopped
the run, if any.

The model is organised by module:

- `Base`: bytes, int64, the failure kinds, and the Option and Result types.
- `Text`: `lines`, plus the parts of Go's `strings` the tool uses. These are
  Split with a one-byte separator, Fields and TrimSpace.
- `Numbers`: `strconv.ParseInt` in bases 10 and 16 with a 64-bit range, and
  `strconv.FormatInt`/`Itoa`.
- `Status`: `extractProcessName`.
- `MemoryMap`: the per-line work of `procMap` and the loop over all lines.
- `Processes`: `getPIDList`, `getProcessPid` and the end of `main`.

Each loop of the source is a method with loop invariants. Each method is proved
equal to a specification function. The properties are proved about those
functions.

An address that does not fit in an int64 is fatal
(`MemoryMap.OverflowIsFatal`). No sentinel value stands in for it. Only the
start and end of each readable region are produced.

One more thing the code allows: `strconv.Atoi` accepts a sign. A directory named
`-7` would therefore be taken as pid -7. If that process matched, `main` would
report "not found". `Processes.Inspect` states this case explicitly.

## Model

| member | source | states |
|---|---|---|
| Text.SplitOn | monocanthus.go:97 | strings.Split with a one-byte separator always gives at least one piece; its other properties are stated by `SplitOnShape`, `JoinSplit`, `SplitJoin` and `SplitOnConcat` |
| Text.SplitOnShape | monocanthus.go:97-98 | strings.Split gives one more piece than there are separators, no piece holds the separator, and the last piece is empty exactly when the string is empty or ends with the separator |
| Text.JoinSplit | monocanthus.go:97-98 | joining the pieces of a split with the separator gives back the string |
| Text.SplitJoin | monocanthus.go:97-98 | splitting a join of one or more separator-free pieces gives back the pieces |
| Text.SplitOnConcat | monocanthus.go:97-98 | a separator splits a string into the pieces of its left side followed by the pieces of its right side |
| Text.SplitOnSnocSep | monocanthus.go:97-98 | appending the separator adds an empty last piece |
| Text.SplitOnSnocOther | monocanthus.go:97-98 | appending another byte extends the last piece |
| Text.SplitPlain | monocanthus.go:97-98 | a string without the separator splits into itself alone |
| Text.Lines | monocanthus.go:35-49 | no line holds a newline; there is one line per newline, plus one when the buffer is non-empty and does not end in a newline |
| Text.ScanLines | monocanthus.go:35-49 | the byte-by-byte loop of `lines` yields exactly `Lines(buf)` |
| Text.LinesJoin | monocanthus.go:35-49 | joining the lines with newlines gives back the buffer, less one trailing newline |
| Text.LinesUnlines | monocanthus.go:35-49 | lines written one per newline split back into the same lines |
| Text.UnlinesLines | monocanthus.go:35-49 | writing out the lines gives back the buffer, with a final newline added when it is non-empty and does not end in one |
| Text.LinesCons | monocanthus.go:35-49 | a newline-terminated first line is the first element of the result, whatever follows |
| Text.LinesExamples | monocanthus.go:45-47 | an empty buffer has no lines, a lone newline is one empty line, and an empty line between two newlines is kept |
| Text.Run | monocanthus.go:87 | the run is the longest prefix made only of white space, or only of other bytes |
| Text.TrailingSpace | monocanthus.go:55 | the longest suffix made only of white space |
| Text.Fields | monocanthus.go:87 | strings.Fields; its properties are stated by `FieldsShape`, `FieldsSkipSpace` and `FieldsCons` |
| Text.FieldsShape | monocanthus.go:87 | every field strings.Fields returns is nonempty and free of white space, and there are no fields exactly when the line is all white space |
| Text.FieldsSkipSpace | monocanthus.go:87 | leading white space does not change the fields |
| Text.RunOver | monocanthus.go:87 | a run covers exactly a uniform prefix that is followed by a byte of the other kind or by nothing |
| Text.TrailingSpaceOver | monocanthus.go:55 | white space appended to a string that is empty or ends in a non-space byte is exactly the trailing white space |
| Text.FieldsCons | monocanthus.go:87-88 | a word followed by white space or by nothing is the first field |
| Text.TrimSpace | monocanthus.go:55 | the result is the input with only white space removed before and after it, and it neither starts nor ends with white space |
| Text.TrimSpaceUnique | monocanthus.go:55 | any white space around a string with non-space ends is trimmed off, leaving exactly that string |
| Text.TrimSpaceIdempotent | monocanthus.go:55 | trimming twice is trimming once |
| Numbers.DigitValue | monocanthus.go:101-105 | every digit strconv reads is worth less than 36 |
| Numbers.ParseInt | monocanthus.go:101-108 | a digit string parses exactly when its value fits in an int64, and then to that value; a negative result needs a leading '-'; every failure is a number error |
| Numbers.Magnitude | monocanthus.go:101-105 | the value of a digit string, most significant digit first; its properties are stated by `ParseInt`, `Digits` and `MagnitudeLeadingZeros` |
| Numbers.ParseIntNonDigit | monocanthus.go:101-108 | a byte that is not a digit of the base makes the string unparsable, wherever it stands, unless it is a sign in the first position |
| Numbers.DigitByte | monocanthus.go:63 | the digit strconv writes for a value reads back as that value |
| Numbers.Digits | monocanthus.go:63 | the digits of a number are a nonempty digit string whose value is the number |
| Numbers.FormatInt | monocanthus.go:63 | strconv.FormatInt and Itoa write a nonempty string that starts with '-' exactly for a negative value; `ParseFormat` states that it parses back |
| Numbers.ParseFormat | monocanthus.go:63 | parsing what FormatInt/Itoa writes gives back the int64, for every int64 and both bases |
| Numbers.MagnitudeLeadingZero | monocanthus.go:101-105 | one leading zero does not change a digit string's value |
| Numbers.MagnitudeLeadingZeros | monocanthus.go:101-105 | any number of leading zeros does not change a digit string's value |
| Numbers.ParseLeadingZeros | monocanthus.go:101-105 | zero-padded addresses parse to the same result as unpadded ones |
| Status.FindName | monocanthus.go:53-58 | the search fails only by the slicing panic, and a name it returns has no white space at either end |
| Status.FindNameStops | monocanthus.go:53-56 | after lines that are long enough and not the name line, a line shorter than five bytes panics and the first "Name:" line gives its trimmed remainder |
| Status.FindNameAbsent | monocanthus.go:53-58 | with no short line and no name line, the name is empty |
| Status.FindNameHead | monocanthus.go:54-55 | a name line at the front ends the search with its trimmed remainder |
| Status.ExtractProcessName | monocanthus.go:51-59 | the only failure is the slicing panic, and the name has no white space at either end |
| Status.ExtractName | monocanthus.go:51-59 | the loop over the lines returns exactly what `ExtractProcessName` specifies |
| Status.NameLine | monocanthus.go:54-55 | "Name:", a tab and a name is a name line whose trimmed remainder is the name |
| Status.ExtractNameFirstLine | monocanthus.go:51-59 | a record whose first line is "Name:", a tab and a name gives back that name, whatever follows |
| MemoryMap.DecodeLine | monocanthus.go:87-109 | fewer than two fields is an index panic; a line is passed over exactly when it has at least two fields and the second is not readable; a readable line whose mem file does not open is fatal; printed bounds are never negative |
| MemoryMap.UnreadableAddressIgnored | monocanthus.go:88-90 | for an unreadable line the address field is never examined: any two address fields give the same pass-over |
| MemoryMap.DecodeAddress | monocanthus.go:97-109 | for a readable line with one '-', the line decodes exactly when both halves parse as base-16 int64, to those two values; otherwise it fails with a number error |
| MemoryMap.AddressNeedsOneHyphen | monocanthus.go:97-100 | a readable line whose address field does not hold exactly one '-' is fatal |
| MemoryMap.OverflowIsFatal | monocanthus.go:101-108 | a bound above 2^63-1 is fatal and no sentinel stands in for it |
| MemoryMap.DecodeMapLine | monocanthus.go:85-109 | a readable maps line written from a range, with any zero padding, any white space before the permissions and any trailing fields, decodes to that range |
| MemoryMap.MapLineFields | monocanthus.go:87-88 | the fields of a maps line are the address range, the permissions, then the fields of the rest |
| MemoryMap.FieldsAfterGap | monocanthus.go:87 | a word after white space is the first field |
| MemoryMap.RangeNoSpace | monocanthus.go:97 | an address range written from two space-free addresses has no white space |
| MemoryMap.HexAddressShape | monocanthus.go:101-105 | a zero-padded lower-case hex address is a digit string with no '-' and no white space, and it parses to its value |
| MemoryMap.ScanMap | monocanthus.go:85-111 | the scan prints at most one pair per line |
| MemoryMap.ScanMapFatal | monocanthus.go:85-111 | the scan ends without failure exactly when every line decodes, and a failure it ends with is that of the first line that fails |
| MemoryMap.ScanMapAppend | monocanthus.go:85-111 | scanning a listing in two parts is scanning it whole: the second part runs only if the first ends cleanly, and its pairs come after the first part's |
| MemoryMap.UnreadableLineDropped | monocanthus.go:88-90 | removing an unreadable line changes neither the pairs printed nor how the scan ends |
| MemoryMap.ProcMap | monocanthus.go:76-112 | a read error is fatal with nothing printed; otherwise the run is the scan of the listing's lines |
| Processes.CollectAppend | monocanthus.go:27-31 | collecting over two sequences one after the other gives their contributions one after the other |
| Processes.CollectMembers | monocanthus.go:27-31 | a value is collected exactly when some item contributes it |
| Processes.CollectLength | monocanthus.go:27-31 | when every item contributes at most one value, there are at most as many values as items |
| Processes.PidsOf | monocanthus.go:27-31 | there are at most as many pids as listing entries |
| Processes.PidsOfAppend | monocanthus.go:27-31 | the pids of two listings one after the other are their pids one after the other |
| Processes.PidsOfMembers | monocanthus.go:28-29 | a pid is listed exactly when some entry is a directory whose name Atoi parses to it |
| Processes.PidsAround | monocanthus.go:27-31 | a process directory between two stretches of a listing contributes its pid between their pids |
| Processes.PidEntry | monocanthus.go:28-29 | a directory named by the decimal writing of a pid yields that pid |
| Processes.NonPidEntryDropped | monocanthus.go:28 | an entry that is not a directory, or whose name is not decimal, contributes no pid |
| Processes.PidList | monocanthus.go:22-33 | an unreadable /proc is fatal; otherwise the loop returns exactly `PidsOf` of the listing |
| Processes.FindPid | monocanthus.go:61-74 | a non-sentinel result is a listed pid whose status record names the target; the only failures are a missing status record and the slicing panic |
| Processes.FindPidStops | monocanthus.go:62-71 | after pids whose records name something else, a missing record is fatal, a panicking record panics, and the first record naming the target gives its pid |
| Processes.FindPidAbsent | monocanthus.go:73 | when no record names the target, and none is missing or panics, the result is -1 |
| Processes.FindPidAfter | monocanthus.go:62-71 | a pid whose record names the target is found when every pid before it has a record naming something else, whatever pids follow |
| Processes.FindsNamedProcess | monocanthus.go:61-74 | a process directory anywhere in the listing, whose status record starts with its "Name:" line, is the one found, provided every process listed before it has a status record naming something else |
| Processes.ProcessPid | monocanthus.go:61-74 | the loop of getProcessPid returns exactly what `FindPid` specifies |
| Processes.Inspect | monocanthus.go:125-131 | an unreadable /proc or a failed search ends the run; a negative pid is "not found"; otherwise the run is procMap on the maps listing of the pid found |

## Left out

- The root check (`whoami` compared with `root`) and flag parsing at monocanthus.go:115-124 are left out. The requested name is a parameter.
- All I/O results are inputs:
  - the `/proc` listing is an optional sequence of entries, each with a name and a directory flag;
  - the status and maps files are maps from pid to contents, and a missing key is a read error;
  - opening the `mem` file is a boolean.
- The mem-file open: the source opens the file once per readable line and never closes it explicitly; a discarded file is closed only when the garbage collector finalizes it. The model treats every open in a run as succeeding or failing alike. A failure caused by running out of file descriptors after many regions, which depends on when the collector runs, is not modelled.
- `fmt.Println` is not modelled as text. The printed pairs are the `printed` field of the outcome, in order.
- `log.Fatal` is not modelled as a message and an exit. It is the `fatal` field of the outcome, and each kind of failure is distinct.
- Numbers.ParseInt: strconv's syntax errors and range errors are collapsed into one failure kind, because the tool handles both with the same `log.Fatal`.
- Text.Fields: only ASCII white space separates fields. Go's strings.Fields also splits on Unicode spaces such as U+0085 and U+00A0 in UTF-8, which the model does not decode.
- Text.TrimSpace: only ASCII white space is trimmed, for the same reason.
- The directory walk behind `ioutil.ReadDir` (its sorting by name) is not modelled. The listing is taken in the order given.
- The paths the tool builds with `path.Join` are not modelled. Files are looked up by the pid value, as `strconv.Itoa` gives one path per value.
- Not modelled, because the source does not have them:
  - grouping by backing file and the `"anonymous"` key;
  - per-path totals, the grand total and the timestamp;
  - reading region bytes;
  - the -1 sentinel for an overflowing address.
