# StatsD client core in Dafny

A verified model of `StatsdClient`, the class that holds all the logic of a
PHP client for StatsD metrics servers. It has three parts.

- **Packet reducer** (`doReduce`, folded by `reduceCount`). A greedy left fold
  that merges newline-separated metric messages into UDP packets of at most
  `MAX_UDP_SIZE_STR` = 548 bytes. The etsy/statsd README allows this kind of
  batching. The fold is modelled exactly as written, with two quirks:
  - On overflow the new message is pushed *before* the popped last packet.
    That old packet stays last and open for merging, so packet order is not
    input order: `["a"*300, "b"*300]` reduces to `["b"*300, "a"*300]`.
  - Popping an empty accumulator yields null. Both `strlen` and `sprintf`
    read null as the empty string. So a first message of 548 bytes or more
    leaves an empty packet behind it, and a later message may fill it.
- **Sample-rate annotator** (`appendSampleRate`). With a rate of one or more
  the array is returned unchanged. Below one, the evidently intended
  behaviour is that each message gets the suffix `|@<rate>` under the same
  key and in the same order, and that is what the model does. The code as
  written cannot do it: its `sprintf` (line 130) gets no argument and fails
  for every message (see "## Findings" and "## Left out").
- **Client** (`send`, `throwException`, the constructor and the accessors). A
  class over the configuration fields. `send` normalises its argument,
  optionally samples and reduces it, then opens a connection through the
  sender, writes each element in order and closes it. A sender exception is
  rethrown unchanged only when `failSilently` is false.

Files, one module each: `php_values.dfy` (PHP argument values and arrays),
`reducer.dfy`, `sampling.dfy`, `transport.dfy` (the sender port and a
scripted sender that records calls), `client.dfy`, and `wrappers.dfy`
(Option).

How the model works:
- A message is a Dafny `string` whose characters stand for the bytes of a
  PHP string, so `strlen` is the sequence length.
- Exceptions are values. `Send` and `ThrowException` return the exception
  that escapes, or `None`.
- The sender is a scripted stand-in. It answers `open` with a handle, a falsy
  value or an exception. Writes fail at chosen positions, and `close` may
  fail. It records every call as an event. `Send` is proved to leave exactly
  the events of the `Transaction` specification function in the trace, and
  lemmas state what that trace contains.
- `Layout` is an index-level account of the same fold. It lists the input
  positions each packet is built from. `LayoutReduce` proves that `Reduce`
  builds exactly those packets. Lemmas over `Layout` then prove the
  partition, in-packet order, size bound and oversized-message properties.

Packets are not in input order: on overflow the new message goes before the
still-open last packet (lines 89-90), so concatenating the split packets
does not give back the input in order. `Reducer.ScenarioOverflowOrder` pins down the order the code produces.
`Reducer.ReduceRecoversMessages` states what does hold: splitting each packet
gives back the messages of its group in input order.

## Model

| member | source | states |
|---|---|---|
| `Reducer.DoReduce` | src/Liuggio/StatsdClient/StatsdClient.php:80-101 | earlier packets are untouched; when `len(last)+len(item)+1 <= 548` only the last packet changes, to last joined with item, and the count stays the same (0 becomes 1); otherwise item is inserted before the old last packet, which stays last, and the count grows by one (0 becomes 2, the popped null kept as "") |
| `Reducer.Join` | src/Liuggio/StatsdClient/StatsdClient.php:93-97 | the merged packet is no shorter than the message and at most one separator byte longer than the two parts together |
| `Reducer.Reduce` | src/Liuggio/StatsdClient/StatsdClient.php:112 | the fold yields at most n+1 packets for n messages, and no packet exactly when there is no message |
| `Reducer.ReduceCount` | src/Liuggio/StatsdClient/StatsdClient.php:109-115 | a non-array value is returned unchanged; an array becomes the list (keys 0, 1, ...) of the reduced packets |
| `Reducer.LayoutReduce` | src/Liuggio/StatsdClient/StatsdClient.php:80-115 | every packet is the join of the messages of one Layout group: the fold builds exactly the grouping Layout describes |
| `Reducer.LayoutPartition` | src/Liuggio/StatsdClient/StatsdClient.php:80-115 | the groups together hold each input position exactly as often as the input does: nothing is lost, duplicated or invented |
| `Reducer.InExactlyOnePacket` | src/Liuggio/StatsdClient/StatsdClient.php:80-115 | the packets of Reduce are the joined Layout groups, and every input position occurs in exactly one group, once: every message is placed in exactly one packet |
| `Reducer.LayoutOrdered` | src/Liuggio/StatsdClient/StatsdClient.php:85-98 | the messages inside each packet keep their relative input order |
| `Reducer.LayoutBound` | src/Liuggio/StatsdClient/StatsdClient.php:85-98 | every group of two or more messages joins to at most 548 bytes |
| `Reducer.PacketBound` | src/Liuggio/StatsdClient/StatsdClient.php:85-98 | every packet that merges two or more messages is at most 548 bytes, so if every message is at most 548 bytes, every packet is too |
| `Reducer.OversizedAlone` | src/Liuggio/StatsdClient/StatsdClient.php:87-90 | a message of 548 bytes or more forms a group of its own, and that group is never the open last one |
| `Reducer.OversizedPassThrough` | src/Liuggio/StatsdClient/StatsdClient.php:87-90 | an oversized message comes out unsplit and unmodified as a packet that no later message joins |
| `Reducer.SplitJoinAll` | src/Liuggio/StatsdClient/StatsdClient.php:93-97 | splitting a packet joined from non-empty newline-free messages on newlines gives back those messages |
| `Reducer.ReduceRecoversMessages` | src/Liuggio/StatsdClient/StatsdClient.php:80-115 | for newline-free non-empty messages, splitting each packet gives back exactly its group's messages, unmodified and in input order |
| `Reducer.ReduceBlanks` | src/Liuggio/StatsdClient/StatsdClient.php:80-101 | any non-empty run of empty messages folds into exactly one empty packet: the size test always passes and no separator follows an empty packet |
| `Reducer.EdgeCases` | src/Liuggio/StatsdClient/StatsdClient.php:80-115 | an empty array reduces to none; one message under 548 bytes to itself; one of 548 bytes or more to itself followed by the empty placeholder |
| `Reducer.ScenarioOverflowOrder` | src/Liuggio/StatsdClient/StatsdClient.php:87-90 | two 300-byte messages come out in reverse order: the second before the first |
| `Reducer.ScenarioMerge` | src/Liuggio/StatsdClient/StatsdClient.php:91-98 | two 10-byte messages share one packet, joined by one newline |
| `Reducer.ScenarioPlaceholder` | src/Liuggio/StatsdClient/StatsdClient.php:82-98 | a later message fills the empty placeholder left behind an oversized first message |
| `Sampling.Annotate` | src/Liuggio/StatsdClient/StatsdClient.php:130 | the annotated message is the message followed by the suffix "\|@" and the rate |
| `Sampling.UnannotateAnnotate` | src/Liuggio/StatsdClient/StatsdClient.php:130 | stripping the suffix from an annotated message gives back the message |
| `Sampling.AppendSampleRate` | src/Liuggio/StatsdClient/StatsdClient.php:125-135 | with a rate of 1 or more the input is returned unchanged; the keys are always kept in order, one entry per input entry; below 1 every message is annotated |
| `Sampling.SampledMessagesRecoverable` | src/Liuggio/StatsdClient/StatsdClient.php:125-135 | below a rate of 1 every original message can be read back from its annotated entry |
| `Sampling.FormatNoArgsPlain` | src/Liuggio/StatsdClient/StatsdClient.php:130 | sprintf with no argument prints a format that contains no "%" unchanged |
| `Sampling.AnnotateAsWritten` | src/Liuggio/StatsdClient/StatsdClient.php:130 | sprintf on the two-directive format with message and rate concatenated onto it and no argument: the call fails (None) for every message and rate |
| `Sampling.AnnotateAsWrittenFails` | src/Liuggio/StatsdClient/StatsdClient.php:130 | for the counter `foo:1\|c` sampled at 0.5 the call as written fails, where the intended annotation gives "foo:1\|c\|@0.5" |
| `Client.Normalise` | src/Liuggio/StatsdClient/StatsdClient.php:144-150 | a string or entity becomes a one-element array under key 0; a non-empty array is kept; nothing is sent exactly for a non-array or the empty array |
| `Client.Batch` | src/Liuggio/StatsdClient/StatsdClient.php:142-158 | the messages written: nothing to send exactly when normalisation gives nothing; otherwise at least one message; without reduction one per entry, annotated iff the rate is below 1; with reduction the reduced packets of the sampled messages |
| `Client.FirstFault` | src/Liuggio/StatsdClient/StatsdClient.php:171-173 | the first failing write position: every earlier write succeeds, and it fails unless it is past the last message |
| `Client.Transaction` | src/Liuggio/StatsdClient/StatsdClient.php:160-177 | the first call of every exchange is open with the given protocol, host and port |
| `Client.OpenFailureTrace` | src/Liuggio/StatsdClient/StatsdClient.php:167-170 | when open returns a falsy value or throws, open is the only call: no write, no close; only the thrown exception is met |
| `Client.CleanTrace` | src/Liuggio/StatsdClient/StatsdClient.php:160-174 | with a handle and no failing write: one open, one write per message in array order on that handle, one close |
| `Client.WriteFaultTrace` | src/Liuggio/StatsdClient/StatsdClient.php:171-177 | a write exception stops the loop: the messages up to the failing one are written, close is skipped, the write's exception is met |
| `Client.StatsdClient.constructor` | src/Liuggio/StatsdClient/StatsdClient.php:50-57 | host, port, sender and both flags take the arguments (reducePacket false and failSilently true by default); protocol is never assigned and stays null |
| `Client.StatsdClient.SetFailSilently` | src/Liuggio/StatsdClient/StatsdClient.php:183-194 | changes only failSilently; getFailSilently returns the value set |
| `Client.StatsdClient.SetHost` | src/Liuggio/StatsdClient/StatsdClient.php:199-210 | changes only host; getHost returns the value set |
| `Client.StatsdClient.SetPort` | src/Liuggio/StatsdClient/StatsdClient.php:215-226 | changes only port; getPort returns the value set |
| `Client.StatsdClient.SetProtocol` | src/Liuggio/StatsdClient/StatsdClient.php:231-242 | changes only protocol; getProtocol returns the value set |
| `Client.StatsdClient.SetSender` | src/Liuggio/StatsdClient/StatsdClient.php:247-258 | changes only sender; getSender returns the value set |
| `Client.StatsdClient.SetReducePacket` | src/Liuggio/StatsdClient/StatsdClient.php:263-274 | changes only reducePacket; getReducePacket returns the value set |
| `Client.Rethrown` | src/Liuggio/StatsdClient/StatsdClient.php:64-67 | an exception escapes exactly when one was met and failSilently is false, and it is the one met, unchanged |
| `Client.StatsdClient.ThrowException` | src/Liuggio/StatsdClient/StatsdClient.php:64-68 | returns the given exception iff failSilently is false, and nothing otherwise |
| `Client.StatsdClient.Send` | src/Liuggio/StatsdClient/StatsdClient.php:142-178 | with nothing to send the sender sees no call and nothing escapes; otherwise the sender sees exactly the Transaction for the batch, with host, port and protocol from the fields, and the exception met escapes iff failSilently is false |
| `Client.StatsdClient.Transmit` | src/Liuggio/StatsdClient/StatsdClient.php:160-177 | the try block: the trace grows by exactly the Transaction events, and the result is the exception met filtered by the failure policy |

## Left out

- The sender's socket I/O. `SenderInterface` and its implementations are not part of this model. A scripted sender stands in for them, and the `$errno`/`$errstr` out-parameters of `open` are ignored.
- The null that `array_pop` yields on an empty accumulator is modelled as "". `strlen` and `sprintf` treat the two alike. Where PHP would pass null to `write` for the placeholder packet, the model passes "".
- `PHP_EOL` is fixed to the single newline byte that the `+1` of the size test counts.
- Sample rates are not floating point. A rate is a real number plus the text PHP's conversion gives for it, and that conversion is not modelled.
- Metric entities (`StatsdDataInterface`) are carried as their wire text. The entity classes are not part of this model.
- PHP exception classes are not told apart (Error vs Exception).
- `Sampling.AppendSampleRate`, `Client.Batch` and `Client.StatsdClient.Send` model the intended `msg + "|@" + rate` below rate 1, not the failing `sprintf` of line 130 (`Sampling.AnnotateAsWritten` models that call). As written, PHP 7 turns every sampled entry into `false`: without reducePacket `send` writes those `false` values; with reducePacket they fold into one empty packet (`Reducer.ReduceBlanks`), which `send` writes; PHP 8 raises an ArgumentCountError from the sampling step (line 153), outside the try block, so it escapes whatever `failSilently` is.
- Key uniqueness of PHP arrays is not imposed. An array is an ordered sequence of key/message entries.
- `setSender` accepts any value in PHP. The model types the sender, so a call on a non-sender is not modelled.
- Releasing the handle when a write fails: the code skips `close` in that case, and so does the model. An unconditional release would be a change of behaviour.

## Findings

| source | as written | input that shows it | evidently intended | confidence | as-written member | corrected member |
|---|---|---|---|---|---|---|
| src/Liuggio/StatsdClient/StatsdClient.php:130 | the message and the rate are concatenated onto the two-directive format, and sprintf gets no argument, so it cannot fill the directives and fails (false in PHP 7, ArgumentCountError in PHP 8) | any message with rate 0.5, e.g. `foo:1` as a counter | each message followed by the suffix "\|@" and the rate, e.g. "foo:1\|c\|@0.5" | high; not executed | `Sampling.AnnotateAsWrittenFails` | `Sampling.UnannotateAnnotate` |
