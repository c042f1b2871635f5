# KeeLoq code-word decoder

A Dafny model of the sigrok protocol decoder for Microchip KeeLoq (HCS-series
code-hopping encoders) in `pd.py`. The decoder receives the sample numbers of
the edges on one logic channel. It measures the time from the previous
reference edge (`prevN`) to each new edge and uses those durations to find:

- a preamble: 23 standard TE pulses (280–580 µs) or 45 short ones (140–290 µs);
- a header gap: 3–6 ms, arriving as the 24th or the 46th counted edge;
- the 66 PWM-encoded bits of a code word.

The bits fill these fields in order:

- bits 0–31: the encrypted portion;
- bits 32–59: the serial number;
- bits 60–63: the button code S3, S0, S1, S2;
- bit 64: the battery flag;
- bit 65: the repeat flag.

The two multi-bit fields arrive least significant bit first. They are
rendered as `0x` plus at least seven upper-case hex digits.

The project has six modules.

- `Numerals` (`numerals.dfy`): binary strings and their value (Python's
  `int(s, 2)`), the least-significant-first value of received bits, hex
  rendering (`"0x{0:07X}"`, the body of `Bin2Hex`), and decimal rendering for
  the preamble counter (`str`).
- `Timing` (`timing.dfy`): the timing windows as exact reals, and the duration
  between two edges.
- `Machine` (`machine.dfy`): the decoder state as a value (`State`), and one
  function per operation giving its exact effect on that value. Some Python
  methods are split: the preamble pulse branch is `Pulse`, each bit range of
  `Decode_DataPortion` has its own function, and one turn of the main loop is
  `EdgeStep` (`wait`, then `Body`).
- `KeeLoq` (`decoder.dfy`): class `Decoder`, whose fields are the decoder's
  fields. Its methods follow the same split. They update the fields in place,
  and each is proved to have exactly the effect of the matching `Machine`
  function (`ensures State() == Machine.X(old(State()))`). The sigrok-side
  methods `start` and `metadata` have no counterpart, and `Bin2Hex` is the
  function `Numerals.Bin2Hex`.
- `Properties` (`properties.dfy`): what one turn of the decoder promises,
  proved over the `Machine` functions, and so over every run of the class's
  methods.
- `Loop` (`loop.dfy`): several turns of the main loop in a row. `Feed(s, sr, k)`
  is `k` turns of `EdgeStep`, and `Durations(s, sr, k)` lists the durations
  those turns classify, each measured from `prevN` to the next edge. Over
  these, the module proves how a preamble is counted, how the header opens the
  data portion, how the 66 bits fill the fields, and what `decode` returns for
  a capture that holds one code word. Every turn that does not halt leaves
  the last edge it took as `prevN`, so these durations are gaps between
  consecutive edges of the capture: a pulse or header gap ends at the next
  edge, and a bit's gap ends at the edge after the one that closed the
  previous bit.

The Python fields map onto the model like this:

- `TEcnt` → `teCnt`.
- `Block_Init` → `blockInit`, and `Header_Completed` → `headerCompleted`. Both
  are 0/1 integers in Python and booleans here.
- `ssBlock`, `n` and `prevN` keep their names.
- `Bitcnt` → `bitCnt`, an integer that is -1 after an abandoned bit or bit 65,
  until the loop's increment.
- `BitString` → `bitString`, last received bit first.
- `KeyLoq` → `keyLoq`, a map from the eight field names to strings.

The edges are given as the sequence `edges`. `wait` takes `edges[cursor]` into
`samplenum` and advances `cursor`. Each call of `put` is appended to `anns` as
an `Annotation(start, end, class, text)`.

## Model

| member | source | states |
|---|---|---|
| Numerals.Bin2Hex | pd.py:221-225 | The result is "0x" followed by upper-case hex digits whose value is the binary string's value. There are exactly seven digits, or more with no leading zero, so nothing is truncated. |
| Numerals.ToHex | pd.py:224 | Upper-case hex digits with no leading zero that denote exactly the given number. |
| Numerals.BinValue | pd.py:222 | `int(s, 2)`: a binary string is worth zero exactly when every digit is '0'. |
| Numerals.PadLeft | pd.py:224 | The `0{w}` format: the digits are kept whole at the end, preceded only by '0's up to width `w`, and never cut. |
| Numerals.ToHexLength | pd.py:224 | A value below 16^k needs at most k hex digits. |
| Numerals.HexValueLeadingZeros | pd.py:224 | Left-padding with '0' keeps the hex value, so the 7-digit padding is value-preserving. |
| Numerals.FieldWidths | pd.py:224 | A field of at most 28 bits renders in exactly 9 characters; one of at most 32 bits renders in at most 10. |
| Numerals.BinValuePrepend | pd.py:232 | Prepending a bit adds its weight at the new top position of the value. |
| Numerals.BinValueBound | pd.py:222 | A binary string of length k is worth less than 2^k. |
| Numerals.AccumulatedValue | pd.py:230-232 | Prepending received bits one by one onto `acc` gives the bits read least significant first, shifted above `acc`'s value. |
| Numerals.ReverseValue | pd.py:230-232 | Reading the reversed received bits most significant first is reading the bits least significant first. |
| Numerals.ReceivedFieldRendering | pd.py:230-241 | The hex rendering of a field received onto `acc` denotes `LsbValue(bits) * 2^|acc| + value(acc)`, with the width bounds. |
| Numerals.FreshFieldRendering | pd.py:230-241 | The rendering of a field received onto an empty accumulation denotes the bits read least significant first. |
| Numerals.StaleZeroValue | pd.py:212-213 | Received bits stacked on a single '0' are worth twice their least-significant-first value. |
| Numerals.StaleZeroRendering | pd.py:232-241 | The rendering of a field received onto a stale "0" denotes twice the value of its bits. |
| Numerals.ZerosValue | pd.py:222 | A string of zeros is worth 0. |
| Numerals.ZeroAndOneFields | pd.py:221-225 | An all-zero field renders as "0x0000000" and a field of value one as "0x0000001". |
| Numerals.Decimal | pd.py:119 | `str(TEcnt)`: decimal digits with no leading zero that denote the count. |
| Numerals.ReverseBinary | pd.py:232 | Reversing a binary string keeps it binary and of the same length. |
| Timing.InStdTe | pd.py:109 | The standard TE window, 280–580 µs, which is also the logical-1 half-bit window; any duration in it is shorter than a logical-0 half-bit and than the header gap. |
| Timing.InShortTe | pd.py:70-73 | The short TE window, half the standard one (140–290 µs); it lies below the logical-0 window and the header gap, and from 280 µs up it is inside the standard window. |
| Timing.InBit0 | pd.py:174-176 | The logical-0 half-bit window, 700–1000 µs, lies above both TE windows and below the header gap. |
| Timing.InHeader | pd.py:151 | The header window, 3–6 ms, lies above every other window. |
| Timing.WindowsClassify | pd.py:63-73 | A duration is never both a logical-1 and a logical-0 half-bit; a header duration is in no other window; 580–700 µs is in no half-bit or TE window; the short and standard TE windows overlap exactly on 280–290 µs; the short window is 140–290 µs. |
| Timing.Duration | pd.py:366 | `(n - prevN) / samplerate`: the duration times the sample rate is the sample distance, and it is non-negative when the edges are in order. |
| Machine.Reset | pd.py:57-90 | `reset` gives the invariant, no edge consumed, no annotation, counter, flags and bit counter at 0, an empty accumulation, and exactly the eight code-word fields, each "". |
| Machine.Emit | pd.py:195-200 | `put` appends its annotation after all earlier ones and changes nothing else. |
| Machine.StartBlock | pd.py:100-103 | `Start_Block` sets the block flag, takes `prevN` as the block start only when the flag was clear, and changes nothing else. |
| Machine.ResetDPCnts | pd.py:216-218 | `Reset_DP_Cnts` clears the block flag and the accumulation and changes nothing else. |
| Machine.Preamble | pd.py:106-162 | The preamble detector leaves the acquisition, the bit counter, the accumulation and the fields unchanged. |
| Machine.Pulse | pd.py:110-147 | A TE pulse changes neither the counter, nor the phase, nor the bit counter, nor the fields. Its effect is limited to annotations and the block start. |
| Machine.Wait | pd.py:186 | `wait` yields an edge exactly when one is left. |
| Machine.LogicalBit | pd.py:165-213 | The returned bit is '0' or '1'. The edge cursor only moves forward and stays within the edges. |
| Machine.ValidHalfBit | pd.py:174-176 | A valid half-bit lies between 280 µs and 1 ms, and never in the 580–700 µs gap between the two windows. |
| Machine.BitOf | pd.py:190-193 | A half-bit in the standard TE window gives '1', one in the logical-0 window gives '0'. |
| Machine.CloseField | pd.py:234-249 | Closing a field stores `Bin2Hex(bitString)` under its name, clears the accumulation and keeps the counters. |
| Machine.FieldBit | pd.py:228-268 | A field bit either leaves the bit counter and the data phase as they were, or abandons the data phase with the counter at -1. The accumulation stays binary. |
| Machine.ButtonBit | pd.py:271-310 | The same outcome for bits 60-63. |
| Machine.SetButton | pd.py:274-307 | A button bit is stored under its name, with the counters and the accumulation unchanged. |
| Machine.LastButton | pd.py:298-309 | Bit 63 stores S2, clears the accumulation, and keeps the counters and the other fields. |
| Machine.BatteryBit | pd.py:312-327 | The same outcome for bit 64. |
| Machine.BatteryText | pd.py:316-319 | The battery flag is stored as "Battery High" exactly when the bit is '0', otherwise "Battery Low". |
| Machine.RepeatBit | pd.py:330-344 | Bit 65 never halts and always leaves the data phase with the counter at -1. |
| Machine.RepeatText | pd.py:334-337 | The repeat flag is stored as "No" exactly when the bit is '0', otherwise "Yes". |
| Machine.DataPortion | pd.py:228-344 | The dispatch on `bitCnt`: the counter either stays below 65 in the data phase, or becomes -1 with the data phase left. |
| Machine.Body | pd.py:368-377 | The loop body keeps the decoder invariant: counter in 0..65, 0 outside the data phase, accumulation binary. |
| Machine.EdgeStep | pd.py:360-377 | Each turn of the loop takes at least one edge and keeps the invariant. |
| Machine.Run | pd.py:360-377 | The decode loop keeps the invariant until the edges run out. |
| Machine.Decode | pd.py:347-377 | `decode` keeps the invariant. |
| KeeLoq.Decoder.constructor | pd.py:54-55 | A new decoder is in the reset state, which satisfies the invariant. |
| KeeLoq.Decoder.Reset | pd.py:57-90 | All counters and flags are 0, and all eight fields are "". |
| KeeLoq.Decoder.StartBlock | pd.py:100-103 | The fields change exactly as `Machine.StartBlock` says. |
| KeeLoq.Decoder.ResetDPCnts | pd.py:216-218 | The block flag and the accumulation are cleared. |
| KeeLoq.Decoder.Put | pd.py:195-200 | The fields change exactly as `Machine.Emit` says. |
| KeeLoq.Decoder.DecodePreamble | pd.py:106-162 | The fields change exactly as `Machine.Preamble` says. |
| KeeLoq.Decoder.CountPulse | pd.py:110-147 | The fields change exactly as `Machine.Pulse` says. |
| KeeLoq.Decoder.Wait | pd.py:186 | The fields change exactly as `Machine.Wait` says. |
| KeeLoq.Decoder.DecodeLogicalBit | pd.py:165-213 | The fields change, and the bit is returned, exactly as `Machine.LogicalBit` says. |
| KeeLoq.Decoder.CloseField | pd.py:234-249 | The fields change exactly as `Machine.CloseField` says. |
| KeeLoq.Decoder.DecodeFieldBit | pd.py:228-268 | The fields change exactly as `Machine.FieldBit` says. |
| KeeLoq.Decoder.DecodeButtonBit | pd.py:271-310 | The fields change exactly as `Machine.ButtonBit` says. |
| KeeLoq.Decoder.DecodeBatteryBit | pd.py:312-327 | The fields change exactly as `Machine.BatteryBit` says. |
| KeeLoq.Decoder.DecodeRepeatBit | pd.py:330-344 | The fields change exactly as `Machine.RepeatBit` says. |
| KeeLoq.Decoder.DecodeDataPortion | pd.py:228-344 | The fields change exactly as `Machine.DataPortion` says. |
| KeeLoq.Decoder.Step | pd.py:360-377 | One loop turn changes the fields exactly as `Machine.EdgeStep` says. |
| KeeLoq.Decoder.Advance | pd.py:368-377 | The loop body after `wait` changes the fields exactly as `Machine.Body` says. |
| KeeLoq.Decoder.Decode | pd.py:347-377 | The `while` loop ends in `Machine.Decode` of the initial state. Loop invariant: the invariant holds, and the rest of the run is unchanged. |
| Properties.StartBlockOnce | pd.py:100-103 | `Start_Block` sets `ssBlock := prevN` only when the block flag was clear, always sets the flag, and a second call changes nothing. |
| Properties.PreamblePulseCounts | pd.py:108-147 | A duration in either TE window counts the edge and never resets the counter or completes the header, at any count. The block start is taken only while the count is below the variant's threshold. |
| Properties.HeaderRecognised | pd.py:149-158 | The header completes iff the duration is in [3 ms, 6 ms] and the incremented counter is 24 or 46. That edge zeroes the counter and the block flag and emits "Header". |
| Properties.PreambleRestarts | pd.py:160-162 | Any other duration zeroes the counter and the block flag, and the header stays incomplete. |
| Properties.HalfBitClassified | pd.py:174-213 | A half-bit is valid iff it lies in [280, 580] µs ∪ [700, 1000] µs. It is '1' iff it is in the first window, so 580–700 µs is invalid. An invalid one returns '0', clears the phase and the flag, and sets the counter to -1. A valid one halts only when the closing edge is missing. |
| Properties.InvalidBitAbandons | pd.py:203-213 | After an invalid half-bit the phase is preamble and the counter is 0. `bitString` is "0" at bits 0–59. Bit 64 still writes "Battery High" and bit 65 still writes "No". |
| Properties.FieldBitRouted | pd.py:228-268 | A valid field bit is prepended. At bit 31 the accumulation becomes Encrypted, and at bit 59 Serial-Number, and it is cleared. The counter rises by one. |
| Properties.ButtonBitRouted | pd.py:271-310 | Bits 60, 61, 62 and 63 write S3, S0, S1 and S2 in that order, each as its one-character bit. |
| Properties.FlagBitRouted | pd.py:312-344 | Bit 64 writes "Battery High" for '0' and "Battery Low" for '1'. Bit 65 writes "No" for '0' and "Yes" for '1', takes no further edge, and leaves the phase at preamble with the counter at 0. |
| Properties.EdgesPerBit | pd.py:183-193 | A valid bit 0–64 takes two edges. Its "Bit b" annotation spans from the previous edge to the closing edge, which becomes `prevN`. |
| Properties.DataPortionExtendsBit | pd.py:228-344 | Routing a valid bit keeps the edge and the annotation that the bit produced. |
| Properties.LastBitPadded | pd.py:183-184 | Bit 65 takes one edge, and its annotation ends 8 samples after it. |
| Properties.InvalidBitOneEdge | pd.py:203-213 | An invalid bit takes one edge, which becomes `prevN`. |
| Properties.BodyKeepsFields | pd.py:228-344 | No loop turn empties a field that held a value. |
| Properties.RunKeepsFields | pd.py:81-90 | Over a whole decode run no field is emptied. Only `reset` clears the code word, so stale fields persist. |
| Properties.HaltedBitKeepsFields | pd.py:186 | A bit whose closing edge never comes changes no field. |
| Loop.Feed | pd.py:360-377 | `k` turns of the main loop keep the invariant and the edges, and never move the edge cursor back. |
| Loop.FeedAppend | pd.py:360-377 | `a + b` turns are `a` turns then `b` more, and the durations they classify are those of the two runs in turn. |
| Loop.EdgeStepHaltsAtEnd | pd.py:183-187 | A turn halts only when it has used up the last edge. |
| Loop.RunAfterFeed | pd.py:360-377 | The whole loop from a state passes through the state reached after any number of turns. |
| Loop.PulseStep | pd.py:108-147 | One pulse in a TE window takes one edge, raises the count by one and leaves the accumulation and the fields alone. |
| Loop.PulsesCounted | pd.py:106-147 | `k` pulses in the TE windows take `k` edges, raise the count by `k`, never open the data portion and leave the accumulation and the fields alone. |
| Loop.HeaderStep | pd.py:149-158 | After 23 or 45 counted pulses a header gap takes one edge and opens the data portion at bit 0 with the count back at 0. |
| Loop.FieldStep | pd.py:228-268 | One valid field bit takes two edges: it is prepended to the accumulation, which becomes Encrypted at bit 31 and Serial-Number at bit 59. |
| Loop.BitsAccumulate | pd.py:230-232 | Inside a field, `k` valid bits take `2k` edges, raise the bit counter by `k`, leave the fields alone and give `bitString == reverse(bits) + old bitString`. |
| Loop.FieldText | pd.py:221-225 | A field's stored text is `Bin2Hex` of its bits, last received first: "0x" and upper-case digits that denote the bits read least significant first, 9 characters for 28 bits and at most 10 for 32. |
| Loop.FieldCloses | pd.py:230-268 | The bits that end a field take two edges each; the field then holds `Bin2Hex(reverse(bits) + acc)`, the accumulation is empty and the counter is one past the field. |
| Loop.EncryptedValue | pd.py:230-249 | Bits 0–31 take 64 edges; Encrypted denotes Σ bᵢ·2ⁱ, shifted above the old accumulation, and the other fields are unchanged. |
| Loop.EncryptedLsbFirst | pd.py:230-249 | From an empty accumulation, Encrypted denotes Σ bᵢ·2ⁱ over bits 0–31, in 7 or 8 digits. |
| Loop.StaleZeroDoublesEncrypted | pd.py:210-232 | After an invalid bit the stale "0" makes the next Encrypted denote 2·Σ bᵢ·2ⁱ. |
| Loop.SerialNumberLsbFirst | pd.py:251-268 | Bits 32–59 take 56 edges; Serial-Number denotes Σ b₃₂₊ᵢ·2ⁱ in exactly 7 digits, and the counter reaches 60. |
| Loop.TailStep | pd.py:271-344 | One valid bit from 60 on: bits 60–64 take two edges and bit 65 one; the bit goes to S3, S0, S1, S2, V-Low or RPT by position, and bit 65 returns the decoder to the preamble. |
| Loop.TailDecoded | pd.py:271-344 | Bits 60–65 take 11 edges and store S3, S0, S1, S2, then "Battery High"/"Battery Low" and "No"/"Yes"; the decoder is then back at the preamble with the bit counter at 0. |
| Loop.KeyAndSerial | pd.py:230-268 | Bits 0–59 take 120 edges and leave Encrypted from bits 0–31 and Serial-Number from bits 32–59, each read least significant first. |
| Loop.CodeWordDecoded | pd.py:228-344 | 66 valid bits after a header take 131 edges and fill all eight fields from their bits, as `CodeWordFields` lists (`KeyFields` for bits 0–59, `StatusFields` for bits 60–65): Encrypted and Serial-Number are exactly the `Bin2Hex` texts of bits 0–31 and 32–59 (`FieldText`), the other six are the bits and flag texts; the decoder is then back at the preamble with the bit counter at 0. |
| Loop.CodeWordAfterPreamble | pd.py:360-377 | A preamble of 23 or 45 pulses, a header and 66 valid bits take `p + 132` edges and leave that code word's fields. |
| Loop.Anchored | pd.py:353-356 | `decode` enters its loop with the first edge consumed as `prevN`, in the reset state. |
| Loop.DecodeOneCodeWord | pd.py:347-377 | For a capture of one first edge, a preamble, a header and 66 valid bits, `decode` from a reset decoder ends with exactly that code word's fields, back at the preamble. |
| Loop.BitPastEndHalts | pd.py:183-187 | A valid bit 0–64 whose closing edge would lie past the end of the capture halts the loop (the converse of `EdgeStepHaltsAtEnd`). |
| Loop.StepLinksEdges | pd.py:366-377 | Every turn that does not halt leaves the last edge it took as `prevN`, whatever the turn decoded. |
| Loop.PreambleGaps | pd.py:366-374 | When the `k` gaps between consecutive edges from the cursor on are pulses, they are exactly the durations the loop classifies, and the last edge taken is `prevN`. |
| Loop.DataGaps | pd.py:366-377 | When the gaps before every second edge are `k` valid bits below bit 65, they are exactly the durations classified; the bits take `2k` edges, raise the counter by `k` and do not halt. |
| Loop.WordFromGaps | pd.py:366-377 | After a header, 66 valid gaps taken before every second edge are exactly the durations of the 66 bits, and the code word does not halt. |
| Loop.DecodeFromGaps | pd.py:347-377 | For a capture of `p + 133` edges whose first `p` gaps are pulses, whose next gap is a header and whose gaps before every second edge after it are 66 valid half-bits, `decode` from a reset decoder ends with the fields of exactly those half-bits, back at the preamble. |

## Left out

- The sigrok framework is not modelled. That covers `register`, `metadata`, the annotation and channel class attributes, and `start` (pd.py:24-52, 92-97). The annotation sink is the `anns` field.
- `wait`'s trigger conditions (pd.py:354-362, 186) are not modelled. `wait` takes the next edge, and the first rising edge is the first element of `edges`.
- When no edge is left, sigrok ends the session from inside `wait`. Here that end is the `halted` result, and the model stops.
- Machine.Reset: `reset` in the model also rewinds `cursor` and `samplenum` and empties `anns`: a reset starts a new session that receives the same edges from the start, with an empty annotation sink. Python's `reset` (pd.py:57-90) leaves the annotations already sent to sigrok alone.
- Floating-point rounding is not modelled: the `* 0.5` of the short window and the float division (pd.py:70-73, 366). Durations and windows are exact reals.
- The exception for a missing sample rate (pd.py:348-349) becomes the precondition `samplerate > 0`.
- Python's `int("", 2)` raises. `Bin2Hex` is only reached with a non-empty accumulation, so `Numerals.Bin2Hex` requires a non-empty binary string.
- KeeLoq decryption is not modelled, because the code does not perform it.
- Machine.LogicalBit: its own contract frames the state, and says that a valid half-bit leaves the phase, the counter and the accumulation alone while an invalid one sets `bitCnt` to -1, outside the invariant until `Body` increments it; its exact effect is stated by the lemmas in `Properties`.
- Machine.FieldBit: its own contract frames the state, keeps `bitString` binary and says that `bitCnt` is either unchanged or -1 (an invalid bit), outside the invariant until `Body` increments it; its exact effect is stated by the lemmas in `Properties`.
- Machine.ButtonBit: its own contract frames the state, keeps `bitString` binary and says that `bitCnt` is either unchanged or -1 (an invalid bit), outside the invariant until `Body` increments it; its exact effect is stated by the lemmas in `Properties`.
- Machine.BatteryBit: its own contract frames the state, keeps `bitString` binary and says that `bitCnt` is either unchanged or -1 (an invalid bit), outside the invariant until `Body` increments it; its exact effect is stated by the lemmas in `Properties`.
- Machine.RepeatBit: its own contract frames the state, keeps `bitString` binary and says that the header flag is cleared and `bitCnt` is -1, outside the invariant until `Body` increments it; its exact effect is stated by the lemmas in `Properties`.
- Machine.DataPortion: its own contract frames the state, keeps `bitString` binary and says that `bitCnt` is either unchanged or -1 (an invalid bit), outside the invariant until `Body` increments it; its exact effect is stated by the lemmas in `Properties`.
- Machine.Body: its own contract only frames the state and keeps the invariant; its exact effect is stated by the lemmas in `Properties`.
- Machine.EdgeStep: its own contract only frames the state and keeps the invariant; its exact effect is stated by the lemmas in `Properties` and, for a whole turn, by `Loop.PulseStep`, `Loop.HeaderStep`, `Loop.FieldStep` and `Loop.TailStep`.
- Machine.Run: its own contract states only the invariant. `Loop.RunAfterFeed` and `Loop.DecodeOneCodeWord` give its result for a capture that holds one preamble, header and code word, and `Properties.RunKeepsFields` shows that it never empties a field. Its full result for captures with several code words or noise between them is not stated as one lemma.
- Machine.Decode: its own contract states only the invariant. `Loop.DecodeOneCodeWord` and `Loop.DecodeFromGaps` give its result for a capture that holds one code word.
- Loop.DecodeOneCodeWord and the other `Loop` lemmas state their conditions on the durations the model classifies (`Loop.Durations`). Conditions on the raw gaps between the capture's edges are stated for one whole code word only, by `Loop.DecodeFromGaps`; a capture with noise or several code words is not restated that way.
