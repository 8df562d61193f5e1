# kcx `ip` command: trace parsing and reporting, in Dafny

This project models the `ip` subcommand of the `kcx` command-line utility
(`cmd/ip.go`). The command fetches a trace body from a fixed endpoint. The body is
newline-separated `key=value` text. The command splits it into lines and takes the
first line that starts with `ip=`. The rest of that line is the caller's address.
Then the command either reports why it has no address or prints the address and
asks for it to be copied to the clipboard.

Three modules, one per concern:

- `GoStrings` (`go_strings.dfy`): the parts of Go's `strings` package that the
  parser calls. These are `Split` (Go's semantics: n separators give n + 1 pieces,
  so `""` gives `[""]`), `HasPrefix` and `TrimPrefix`. `Join` is also here, as the
  reference inverse of `Split`. Both directions of the round trip are proved.
- `Trace` (`trace.dfy`): the parse itself. `ParseTrace` is the find-first
  specification. `ParseBody` is the source's `for range` loop with its early
  `return`, proved equal to `ParseTrace`. The lemmas state what the parse promises
  for every body.
- `IpCommand` (`ip_command.dfy`): `getIpAddress`, `copyToClipboard` and
  `printAndCopyIpAddress`. `GetIpAddress` returns the address and the error, as
  the Go function does. The other two return the events they cause: lines printed
  with `fmt.Println` and clipboard writes requested. The outcome of the HTTP fetch
  and the outcome of the clipboard write are inputs.

The address is not trimmed (cmd/ip.go:72): spaces or a `\r` at the end of the
`ip=` line stay in the address (`Trace.CarriageReturnKeptExample`). A line that is
exactly `ip=` gives `""`, and the caller then treats it exactly like a body with no
`ip=` line (cmd/ip.go:37-40).

## Model

| member | source | states |
|---|---|---|
| `GoStrings.Split` | cmd/ip.go:68 | splitting on a one-character separator gives one more piece than there are separators, and no piece contains the separator |
| `GoStrings.SplitThenJoin` | cmd/ip.go:68 | joining the pieces of a split with the same separator gives back the original text |
| `GoStrings.JoinThenSplit` | cmd/ip.go:68 | splitting the join of separator-free pieces gives back exactly those pieces |
| `GoStrings.SplitConcat` | cmd/ip.go:68 | splitting `a + sep + b` gives the pieces of `a` followed by the pieces of `b` |
| `GoStrings.SplitPlain` | cmd/ip.go:68 | text with no separator splits into one piece, itself |
| `GoStrings.HasPrefixIff` | cmd/ip.go:71 | `HasPrefix(s, p)` holds exactly when `s` is `p` followed by something |
| `GoStrings.TrimPrefix` | cmd/ip.go:72 | when `s` starts with `p`, then `p` + result is `s`; otherwise the result is `s` unchanged |
| `GoStrings.TrimPrefixOfConcat` | cmd/ip.go:72 | trimming `p` from `p + x` gives `x` |
| `Trace.Lines` | cmd/ip.go:68 | a body has at least one line, and no line contains a newline |
| `Trace.FirstWithPrefix` | cmd/ip.go:70-75 | the index found is that of a line with the prefix, and no earlier line has it; none is found exactly when no line has it |
| `Trace.AddressInLines` | cmd/ip.go:69-77 | a non-empty address, with `ip=` put back in front, is one of the lines |
| `Trace.ParseTrace` | cmd/ip.go:67-77 | the address holds no newline; a non-empty address, with `ip=` put back in front, is a line of the body |
| `Trace.ParseBody` | cmd/ip.go:67-77 | the source's line loop with its early return gives exactly `ParseTrace(body)` |
| `Trace.MatchIsExactPrefix` | cmd/ip.go:71 | a line matches exactly when its first three characters are `i`, `p`, `=`: case-sensitive and anchored at the start |
| `Trace.ParseTraceFirstMatch` | cmd/ip.go:70-73 | when line k is the first with `ip=`, the address is line k minus that prefix |
| `Trace.ParseTraceNoMatch` | cmd/ip.go:77 | when no line starts with `ip=`, the address is `""` |
| `Trace.ParseTraceEarliest` | cmd/ip.go:70-73 | a non-empty address, with `ip=` put back in front, is a line of the body, and no earlier line starts with `ip=` |
| `Trace.FirstWithPrefixAppend` | cmd/ip.go:70-74 | once a line matches, appending lines does not change which line is found first |
| `Trace.NonMatchingLineIgnored` | cmd/ip.go:70-71 | inserting a line without the prefix anywhere among the lines does not change the address |
| `Trace.LaterTextIgnored` | cmd/ip.go:70-74 | when the text before a newline already holds an `ip=` line, the text after it has no effect on the address |
| `Trace.NonMatchingBodyLineIgnored` | cmd/ip.go:68-71 | removing a line without the prefix (such as ` ip=...` or `IP=...`) from anywhere in the body leaves the address unchanged |
| `Trace.LeadingLineSkipped` | cmd/ip.go:70-71 | a first line without the prefix is skipped, and the address comes from the rest of the body |
| `Trace.FirstLineAddress` | cmd/ip.go:68-73 | a body whose first line is `ip=` followed by `x` gives `x`, whatever follows, other `ip=` lines included |
| `Trace.SingleLineAddress` | cmd/ip.go:68-77 | a one-line body gives the line minus `ip=` when it starts with `ip=`, and `""` otherwise |
| `Trace.ParseJoinedLines` | cmd/ip.go:68-77 | a body made by joining newline-free lines is parsed line by line |
| `Trace.TraceExample` | cmd/ip.go:67-73 | the body `fl=29f`, `h=1.1.1.1`, `ip=203.0.113.7`, `ts=...` gives exactly `203.0.113.7` |
| `Trace.TwoAddressLinesExample` | cmd/ip.go:70-74 | with two `ip=` lines, the first one is used |
| `Trace.EmptyFirstAddressExample` | cmd/ip.go:70-74 | a first line that is exactly `ip=` gives `""`, even when a later line has an address |
| `Trace.CarriageReturnKeptExample` | cmd/ip.go:72 | the value is not trimmed: `ip=203.0.113.7\r` gives `203.0.113.7\r` |
| `Trace.UpperCaseExample` | cmd/ip.go:71 | `IP=203.0.113.7` does not match |
| `Trace.IndentedExample` | cmd/ip.go:71 | ` ip=203.0.113.7` does not match |
| `Trace.EmptyBodyExample` | cmd/ip.go:68-77 | an empty body gives `""` |
| `IpCommand.GetIpAddress` | cmd/ip.go:47-78 | a transport error is returned as the error with an empty address; a read body gives `ParseTrace` of it and no error |
| `IpCommand.CopyToClipboard` | cmd/ip.go:80-88 | exactly one write of the given text is requested, followed by the success line or the error line |
| `IpCommand.PrintAndCopyIpAddress` | cmd/ip.go:30-45 | on a transport error, only the fetch-failure line is emitted. On an empty address, only the not-connected line is emitted. Otherwise the address line comes first, then one copy of that same address, then the clipboard success line or the clipboard error line with its reason. At most one copy is ever requested, and every copy directly follows the printed line for the same address |

## Left out

- The HTTP request, the response read and the endpoint URL (cmd/ip.go:17, 47-65) are network I/O. `FetchResult` stands for their outcome: a transport error with its message, or the body text.
- The clipboard library call inside `copyToClipboard` (cmd/ip.go:81) is a foreign call. Its outcome is the `ClipboardWrite` parameter, and the model records only that a write of a given text was requested.
- Standard output is the event sequence. The actual terminal writes are not modelled.
- `GoStrings.Split` is defined for a one-character separator only. The parser only ever passes `"\n"`. Go's multi-character and empty separators are not modelled.
- Go strings are byte sequences. The model uses `seq<char>`, which makes no difference for the ASCII prefix `ip=` and the separator `\n`.
- The `now` subcommand (cmd/now.go) is not part of this model. It formats the current instant through Go's `time` package and a colour library, and its continuous mode is an OS-signal and sleep loop.
- The command registration in the `init` functions (cmd/ip.go:90-92) and the `ipCmd` descriptor (cmd/ip.go:21-28) are framework wiring.
