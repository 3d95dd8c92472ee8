# CTC100 driver model

A Dafny model of the host-side driver for the CTC100 programmable
temperature controller (`CTC100.py`). The driver talks to the instrument
over a serial line. It builds textual commands (`<name>?`,
`<name> = (<value>)` and `<name> += (<value>)`), sends each one
terminated by a newline, then polls the line until the reply ends in
CR LF or 100 ms have passed. `read` finds the first decimal number in
the reply.

The model has these parts:

- `Utf8`: byte strings, with UTF-8 encoding as `str.encode()` does it and
  strict decoding as `bytes.decode("utf-8")` does it, following the
  encoding table in section 3 of RFC 3629.
- `Strings` and `Decimals`: `str(n)` for integers, the literal
  `[-+]?\d*\.\d+` and the exact decimal value of a literal.
- `Commands`: space removal, command formatting, and the bytes that
  `write` puts on the line.
- `Channels`: the `isinstance(channel, str)` idiom, which turns a channel
  number into `In<n>`.
- `Framing`: the serial port, seen as the chunks its successive
  non-blocking reads return. It also holds the terminator test and the
  reply the polling loop of `write` collects. The 100 ms deadline becomes
  a poll budget `polls`. This is the number of reads inside the loop that
  complete before the deadline. So `write` makes at most `polls + 2`
  reads.
- `Extraction`: `re.search` for the numeric pattern (leftmost, then
  greedy), and the error of `read`.
- `Driver`: the `CTC100` class. `write` is an imperative method with its
  polling loop, and every wrapper is a method over it. A ghost log of the
  requests written ties each write on the port to the command that
  produced it.

Two details of the code decide the model's behaviour:

- `str.replace(" ", "")` removes only the space character from variable
  names. Tabs and other whitespace stay.
- `decode("utf-8")` raises before the search on a reply that is not valid
  UTF-8. So `read` fails with its own error (`NotUtf8`), distinct from
  "no number found".

## Model

| member | source | states |
|---|---|---|
| Utf8.DecodeEncode | CTC100.py:35 | `Decode` (`bytes.decode("utf-8")`, lines 118 and 164) inverts `Encode` (`str.encode()`, line 35): decoding the UTF-8 bytes of any text gives back exactly that text. |
| Utf8.EncodeDecode | CTC100.py:164 | Decoding is injective: bytes that decode are exactly the encoding of their text. So a decoded comparison with a fixed text is a comparison of the bytes. |
| Utf8.EncodeAvoids | CTC100.py:118 | An ASCII character absent from a text has no byte equal to it in the text's UTF-8 encoding. So a CR can only come from the terminator. |
| Commands.RemoveSpacesLeavesNone | CTC100.py:56 | `RemoveSpaces` (`replace(" ", "")`) leaves no space character in the name. |
| Commands.RemoveSpacesCounts | CTC100.py:56 | Every character other than a space occurs as often after the removal as before. The length drops by exactly the number of spaces. |
| Commands.RemoveSpacesConcat | CTC100.py:56 | The removal works piece by piece: removing spaces from a concatenation gives the concatenation of the removals. So the characters that remain keep their order. |
| Commands.RemoveSpacesIdempotent | CTC100.py:56 | Removing spaces a second time changes nothing. |
| Commands.Normalize | CTC100.py:56 | The normalized command's name holds no space. |
| Commands.ParseFormat | CTC100.py:56-57 | `Format` (the `"{}?"`, `"{} = {}"` and `"{} += {}"` strings of lines 57, 67-68 and 78-79) has the independent `Parse` as its left inverse. The formatted text of any command reads back as that command with the spaces taken out of its name. The operator is recovered, and so is the value, verbatim, even when it holds spaces, operators or parentheses. |
| Commands.FormatParse | CTC100.py:66-68 | Any text that reads back as a command is exactly that command's formatted text. With `ParseFormat`, this means format and parse are inverses on space-free names. |
| Commands.FormatIgnoresNameSpaces | CTC100.py:77-78 | A name with spaces produces the same command text as the name without them. |
| Commands.FormatCharacters | CTC100.py:66-68 | A query is the space-free name plus '?'. An assignment or increment holds exactly the space-free name, the value, the operator and one added pair of parentheses. |
| Commands.WireFraming | CTC100.py:35 | `Wire`, that is `(command + "\n").encode()`: every formatted command goes out as its UTF-8 bytes followed by exactly one newline byte. The byte before that newline is not a newline, and the bytes decode to the command text plus "\n". |
| Commands.WireOfLine | CTC100.py:35 | The same framing holds for each fixed command line of the wrappers ("outputEnable on", "menu 4"). |
| Channels.Resolve | CTC100.py:85-86 | A string channel is kept as it is. A number `n` becomes "In" followed by exactly `IntText(n)`, the canonical `str(n)`, which parses back to `n`. |
| Channels.ResolveInjectiveOnIndices | CTC100.py:112-113 | Two channel numbers resolve to the same name only when they are equal. |
| Decimals.IntTextCanonical | CTC100.py:86 | `IntText` (`"{}".format(n)`) is the canonical decimal form: a '-' exactly for negative numbers, then at least one digit, no leading zero, denoting the magnitude. |
| Decimals.ParseIntText | CTC100.py:86 | The text `"{}".format(n)` gives for an integer parses back to `n`. |
| Decimals.DecimalTextRoundTrip | CTC100.py:121 | `LiteralValue` is the exact value `float()` approximates (two digit runs as a mantissa, the fraction length as the scale). A decimal written with at least one fractional digit is a literal of the pattern, and its exact value is that decimal again. |
| Framing.LoopConditionIncomplete | CTC100.py:42 | The loop condition, compared at byte level, holds exactly when the buffer is not a complete reply. A one-byte buffer never ends the loop. |
| Framing.ReadCount | CTC100.py:40-46 | The number of reads `write` makes is at least 1 and at most `polls + 2`. Either the buffer is complete at that count or the deadline fired, and no smaller count gave a complete buffer. |
| Framing.ReadCountIs | CTC100.py:41-47 | Any count with those properties is the read count. The reply is then what that many reads return, and the next call starts right after them. |
| Framing.ResponseShape | CTC100.py:41-47 | `Response`, the reply of the intended loop: it is the in-order concatenation of the reads and a prefix of what the device still has to send. It is complete unless the deadline fired, and no shorter run of reads was already complete. |
| Framing.TimeoutReturnsPartial | CTC100.py:43-46 | When no reply completes in time, `write` still returns: it gives back the possibly partial or empty bytes of all `polls + 2` reads, and raises no error. |
| Framing.ChunkingIrrelevant | CTC100.py:41-43 | A reply whose only CR LF is at its end comes back exactly, however the device splits it across reads, empty reads included, provided it arrives within the deadline. |
| Framing.TerminatedOnce | CTC100.py:42 | Bytes without CR, followed by CR LF, are complete, and no shorter prefix of them is. |
| Framing.LineReply | CTC100.py:42 | A text line without CR, sent with CR LF, is complete in its UTF-8 bytes. No shorter prefix of those bytes is complete, and they decode to the line. |
| Framing.AfterAfter | CTC100.py:155-167 | `j` consecutive calls of `write`, then `k` more, leave the port where `j + k` calls do. |
| Framing.AsWrittenReadsPastTerminator | CTC100.py:42 | `ResponseAsWritten`, the loop as Python 3 runs it, always makes all `polls + 2` reads. As written, the loop returns the intended reply followed by whatever else the device sends before the deadline. |
| Framing.AsWrittenCounterexample | CTC100.py:42 | The device sends "1.0\r\n" and then a stray "X", one byte per read, with a budget of four polls. The intended loop returns "1.0\r\n"; the as-written loop also takes the "X". |
| Framing.Port.Send | CTC100.py:35 | One write adds its bytes to the port's writes and makes no read. |
| Framing.Port.Read | CTC100.py:41 | A non-blocking read returns the next chunk (one byte or none in the source), which is empty once the device has sent everything, and advances the read index by one. |
| Extraction.SearchFrom | CTC100.py:118 | The search stops at the first position, from its start on, where the pattern matches, and no earlier attempt succeeded. A miss means no attempt succeeded. |
| Extraction.MatchAtSound | CTC100.py:118 | A successful attempt covers one whole, non-empty literal. |
| Extraction.MatchAtLongest | CTC100.py:118 | An attempt at a position ends no earlier than any literal starting there. It ends exactly at a literal that no digit follows. |
| Extraction.SearchLeftmostLongest | CTC100.py:118 | `Search`, built from the attempts `MatchAt` at each position, is `re.search`: it finds the leftmost literal and, at that start, the longest one. It finds nothing exactly when no substring is a literal. |
| Extraction.Extract | CTC100.py:118-123 | On decoded text, `read` fails exactly when no substring is a literal, and the failure names the channel. Otherwise it returns the leftmost-longest literal and its exact value. |
| Extraction.Interpret | CTC100.py:117-123 | Bytes that are not UTF-8 fail with the decode error and nothing else. Decodable bytes give the extraction on their text. |
| Extraction.SearchFindsLabelledLiteral | CTC100.py:117-118 | A number behind a verbose-mode label is what the search finds, provided no digit follows it. The label may hold digits and signs, such as the channel name "In1: ". It must hold no point and must not end in a digit or sign. |
| Extraction.NoMatchInLabel | CTC100.py:118 | No attempt starting inside such a label succeeds. |
| Extraction.ExtractLabelled | CTC100.py:117-121 | Such a labelled number is what `read` returns, with its text and its value. |
| Extraction.ExtractDecimal | CTC100.py:118-121 | A decimal sent behind such a label and before CR LF reads back as exactly that decimal. |
| Extraction.NoPointNoMatch | CTC100.py:120-123 | A reply without a decimal point holds no reading. |
| Extraction.ReadDocExample | CTC100.py:14-15 | The usage example: channel 1 replying "300.841\r\n" reads 300.841. |
| Extraction.ReadChannelLabelExample | CTC100.py:117-121 | "In1: 300.841\r\n" reads 300.841: the digit in the label is skipped. |
| Extraction.ReadVerboseExample | CTC100.py:117-121 | "Temp: -0.5 C\r\n" reads -0.5. |
| Extraction.ReadNoValueExample | CTC100.py:120-123 | "No Value\r\n" fails with the error naming channel "In3". |
| Driver.TunedExactly | CTC100.py:164 | `TuneResult`, the test of line 164: tuning counts as successful exactly when the reply is the bytes "On\r\n" and nothing else. Any other decodable reply is a failure. |
| Driver.TuneResultOnReply | CTC100.py:164 | The bytes "On\r\n" mean success. |
| Driver.ReadsBackDecimal | CTC100.py:104-123 | End to end over `write` and `read`: the device's pending output is one decimal line behind a label without CR, ending in CR LF, split into reads in any way and sent within the deadline. `read` then returns exactly that decimal. |
| Driver.Ctc100.constructor | CTC100.py:21-27 | The driver owns a fresh port that has made no read and no write. |
| Driver.Ctc100.Write | CTC100.py:29-47 | `write` sends the command's UTF-8 bytes plus "\n" as a single write, then returns the reply the terminator-or-deadline loop collects. The port is left right after the reads it made. |
| Driver.Ctc100.SendCommand | CTC100.py:35 | Only the one write of the command's wire form is added to the port, and no read is made. |
| Driver.Ctc100.AwaitResponse | CTC100.py:40-46 | The loop reads once, then reads again while the buffer is incomplete and the deadline has not fired. Its result is the reply `ReadCount` specifies, and it makes exactly `ReadCount` reads. |
| Driver.Ctc100.GetVariable | CTC100.py:49-57 | Sends the query for the space-free name and returns its reply. |
| Driver.Ctc100.SetVariable | CTC100.py:59-68 | Sends the assignment of the parenthesised value to the space-free name and returns its reply. |
| Driver.Ctc100.IncrementVariable | CTC100.py:70-79 | Sends the increment of the parenthesised value to the space-free name and returns its reply. |
| Driver.Ctc100.SetAlarm | CTC100.py:81-95 | `AlarmRequests` (lines 88-93): on the resolved channel, sends exactly the four assignments, in order: sound "4 beeps", min, max, mode "Level". Returns the reply to the last of them. |
| Driver.Ctc100.DisableAlarm | CTC100.py:97-102 | Sends the one assignment that sets the resolved channel's alarm mode to "Off". |
| Driver.Ctc100.Read | CTC100.py:104-123 | Queries `<resolved>.value` and returns the extraction on the reply: a reading, the decode error, or the error naming the resolved channel. |
| Driver.Ctc100.EnableHeater | CTC100.py:125-126 | Sends "outputEnable on". |
| Driver.Ctc100.DisableHeater | CTC100.py:128-129 | Sends "outputEnable off". |
| Driver.Ctc100.EnablePID | CTC100.py:131-134 | `EnablePidRequests`: sends "outputEnable on", then `Out<channel>.PID.Mode = (On)`, and nothing else. |
| Driver.Ctc100.DisablePID | CTC100.py:136-138 | `DisablePidRequests`: sends "outputEnable off", then `Out<channel>.PID.Mode = (Off)`, and nothing else. |
| Driver.Ctc100.ReadSetpoint | CTC100.py:140-141 | Reads the channel named `Out<channel>.PID.setpoint`, taken as a full name, and returns that extraction. |
| Driver.Ctc100.WriteSetpoint | CTC100.py:143-145 | Assigns the setpoint to `Out<channel>.PID.setpoint` and returns the reply. |
| Driver.Ctc100.StartTuning | CTC100.py:155-161 | `StartTuningRequests`: sends, in order: StepY, Lag, "outputEnable on", tune type "Auto", tune mode "Auto". |
| Driver.Ctc100.TunePID | CTC100.py:147-169 | Sends the five starting writes, then queries the PID mode. The outcome is read off that query's reply. Only on "On\r\n" does it go on to disable PID and send "menu 4"; otherwise nothing more is written. |
| Driver.Ctc100.FinishTuning | CTC100.py:166-167 | Sends "outputEnable off", PID mode "Off", then "menu 4". |

## Left out

- Opening the serial port (`serial.Serial(address, timeout=0)`) is left out. The port is modelled by the chunks its reads return, given to the constructor in place of the address.
- Real time is left out: `time.time()` and `time.sleep(Lag)`. The deadline is the poll budget `polls`, a parameter of every operation. The sleep in `tunePID` changes only when the reply arrives, and the chunk sequence already fixes that.
- `float()` rounding is left out. A reading is the matched text and its exact decimal value (mantissa and scale), which the float approximates.
- Python's `\d` also matches non-ASCII Unicode decimal digits. The model matches only '0' to '9'.
- The `print` diagnostics of `tunePID` are left out. Their case is the returned `TuneOutcome`; the method in the source itself returns nothing.
- A channel argument that is neither an integer nor a string is left out. `"{}".format` of other objects is not modelled.
- `str(Tmin)`, `str(Tmax)`, `StepY`, `Lag` and the setpoint are taken as the text the caller's value formats to. Their conversion from numbers is not modelled.
- The serial line carries the concatenation of all writes. The port keeps the bytes of each write separately, and the ghost log `written` records the request behind each one.
- Driver.Ctc100.DisableAlarm, EnableHeater, DisableHeater, EnablePID and DisablePID return nothing, like the source. Their contracts state what is written and how far the port's reads advance, not the discarded replies.
- Framing.Port.Read: a read may return a chunk of any length. `read()` in the source returns at most one byte, so the source's reads are the special case of chunks of length zero or one. Every framing lemma holds for all chunkings, including that one.
- Driver.Ctc100.SetAlarm, EnablePID, DisablePID, StartTuning, TunePID and FinishTuning: all writes of one call get the same poll budget `polls`. In the source each `write` restarts its own 100 ms deadline, and `tunePID` sleeps between writes, so the number of reads before each deadline may differ from write to write. The model covers only runs where it is the same for every write of the call.
- `str.encode()` raises UnicodeEncodeError on a command that holds a lone surrogate. A Dafny `char` cannot hold one, so that error path of `write` is not modelled.
- Exceptions from the serial layer (a closed or failing port) are left out: reads and writes always succeed.

## Findings

| source | as written | input that shows it | evidently intended | confidence | as-written member | corrected member |
|---|---|---|---|---|---|---|
| CTC100.py:42 | Under Python 3, `response[-2:]` is `bytes` and `"\r\n"` is `str`, so `!=` is always true: only the deadline ends the loop. | The device sends the bytes of "1.0\r\nX", one per read, and four reads fit in the loop before the deadline. The loop goes on past the terminator and returns "1.0\r\nX". | Stop at the first read after which the buffer ends in the bytes CR LF (the loop as Python 2 ran it). | not executed | Framing.ResponseAsWritten, Framing.AsWrittenCounterexample | Framing.Response, Framing.ResponseShape |
