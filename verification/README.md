# ArduinoEncoder core, modelled in Dafny

The ArduinoEncoder sketch counts pulses from a rotary encoder and shows a value on a
TM1638 LED/button panel. This project models its two pure-logic parts.

- **Encoder** (`Encoder.dfy`): the pulse counter. Its state is `forward`, `backward`, `dir`,
  `lastPulse` and the two pins. `handlePulseA` reads channel B once and counts a forward or a
  backward step. `reset` clears the state. `getValue(mode)` projects the state by mode
  selector. The level of channel B and the `millis()` tick are parameters. A run is a sequence
  of events (pulse, reset, read). It is specified against an independent history view: the
  counts, direction and timestamp of the pulses since the last reset.
- **Mode convention** (`Modes.dfy`): selector 0/1/2 means difference/forward/backward, shown as
  'd'/'f'/'b'.
- **C formatting** (`CFormat.dfy`): the parts of ISO/IEC 9899:2011 the frame relies on. These are
  the `%ld` and `%0<width>ld` conversions of section 7.21.6.1, the truncation `snprintf` performs
  in a fixed buffer (section 7.21.6.5), and the null-terminated string a buffer holds. A decimal
  parser is the inverse used in the round-trip lemmas.
- **DisplayController** (`DisplayController.dfy`): `renderValue` as a pure function from panel
  letter, value and mode to the string handed to `displayText`. It is `"%c%c%06ld"` written
  into a 9-byte buffer.

Two consequences of the code are stated explicitly:

- `DisplayController.h:5` documents the frame as `<id><mode><value>`, for example "Ld000123".
  Values outside -99999..999999 do not fit the 6-character field, and `snprintf` truncates
  them to the buffer. `FieldTruncated` states what remains.
- `displayText` receives a C string, so a null panel letter makes it receive the empty string.
  Every other letter gives exactly 8 characters, because `%06ld` never produces fewer than 6.
  `RenderValue` states both cases.

## Model

| member | source | states |
|---|---|---|
| Encoder.New | src/ArduinoEncoder/Encoder.cpp:8-11 | The constructor stores both pins; with the zero initialisers of the field declarations, both counters, `dir` and `lastPulse` start at 0, and the state satisfies the invariant. |
| Encoder.HandlePulseA | src/ArduinoEncoder/Encoder.cpp:13-23 | B high: `forward` +1, `dir` = +1, `backward` kept. B low: `backward` +1, `dir` = -1, `forward` kept. The total grows by exactly 1, `dir` is never 0 afterwards, `lastPulse` is the given tick, and the pins and the invariant are kept. |
| Encoder.Reset | src/ArduinoEncoder/Encoder.cpp:25-30 | Counters, `dir` and `lastPulse` become 0, the pins are kept, the result equals a new encoder, and every mode then reads 0. |
| Encoder.ResetIdempotent | src/ArduinoEncoder/Encoder.cpp:25-30 | Resetting twice equals resetting once. |
| Encoder.GetValue | src/ArduinoEncoder/Encoder.cpp:32-37 | Difference selector gives `forward - backward`, forward gives `forward`, backward gives `backward`, any other selector gives 0. In a valid state the magnitude never exceeds the pulse total. |
| Encoder.ReadingsAgree | src/ArduinoEncoder/Encoder.h:29-30 | In a valid state, reading 0 is reading 1 minus reading 2, and readings 1 and 2 are non-negative. |
| Encoder.RunPreservesValid | src/ArduinoEncoder/Encoder.h:14-16 | From a valid state, every sequence of pulses, resets and reads keeps both counters non-negative and `dir` in {+1, -1, 0}. |
| Encoder.RunMatchesHistory | src/ArduinoEncoder/Encoder.cpp:13-30 | After any event sequence from a new encoder: `forward` and `backward` count the B-high and B-low pulses since the last reset; `dir` and `lastPulse` come from the last such pulse, or are 0 when there is none. |
| Encoder.CountersMonotone | src/ArduinoEncoder/Encoder.cpp:13-23 | With no reset in a run, each counter grows by exactly the number of pulses in its direction and never decreases. After at least one pulse `dir` is non-zero; with none it is unchanged. |
| Encoder.ReadsLeaveStateUnchanged | src/ArduinoEncoder/Encoder.h:30 | Reads are no-ops in a run: removing every read event from a run leaves its final state the same. (`GetValue` is const by construction: it returns an integer from an immutable state.) |
| Modes.FromSelector | src/ArduinoEncoder/Encoder.h:29 | Exactly the selectors 0..2 name a mode, and each named mode's selector is the one given. |
| Modes.CodesAreBijective | src/ArduinoEncoder/DisplayController.h:24 | Selectors and letters are one-to-one codes for the three modes, and a selector maps back to its mode. |
| DisplayController.ModeChar | src/ArduinoEncoder/DisplayController.cpp:18-21 | The letter is 'd' iff the mode is 0 and 'f' iff it is 1. It is 'b' iff the mode is neither, so every unknown selector shows 'b'. It agrees with the shared mode letters. |
| DisplayController.UnknownModeLooksLikeBackward | src/ArduinoEncoder/DisplayController.cpp:19-21 | Any selector outside 0..2 draws the same frame as selector 2. |
| DisplayController.RenderValue | src/ArduinoEncoder/DisplayController.cpp:17-26 | The frame never exceeds 8 characters. With a non-null panel letter it is exactly 8: the panel letter, the mode letter, then the first 6 characters of the `%06ld` output. A null panel letter gives the empty string. |
| DisplayController.FitsField | src/ArduinoEncoder/DisplayController.cpp:23-24 | The `%ld` rendering fits the 6-character field iff -99999 <= value <= 999999. |
| DisplayController.FieldInRange | src/ArduinoEncoder/DisplayController.cpp:24 | In range, characters 3-8 are the value right-aligned and zero-filled: the digits padded to 6, or '-' then the digits padded to 5. |
| DisplayController.FieldTruncated | src/ArduinoEncoder/DisplayController.cpp:23-24 | Out of range, characters 3-8 are the leading 6 characters of the value's `%ld` rendering. |
| DisplayController.FieldRoundTrip | src/ArduinoEncoder/DisplayController.cpp:23-24 | Parsing characters 3-8 as a signed decimal returns the value iff -99999 <= value <= 999999. |
| DisplayController.ExampleDifference | src/ArduinoEncoder/DisplayController.h:5 | Mode 0, value 123 renders the panel letter then "d000123"; on panel 'L' that is "Ld000123". |
| DisplayController.ExampleNegative | src/ArduinoEncoder/DisplayController.cpp:24 | Mode 1, value -5 renders the panel letter then "f-00005"; on panel 'r' that is "rf-00005". |
| DisplayController.ExampleBackward | src/ArduinoEncoder/DisplayController.cpp:19-24 | Value 7 renders the panel letter then "b000007" in mode 2 and also in unknown mode 9. |
| DisplayController.ExampleTruncatedHigh | src/ArduinoEncoder/DisplayController.cpp:23-24 | 1000000 renders the panel letter then "d100000": the seventh digit is dropped. |
| DisplayController.ExampleTruncatedLow | src/ArduinoEncoder/DisplayController.cpp:23-24 | -100000 renders the panel letter then "d-10000": the last digit is dropped. |
| DisplayController.FrameFromField | src/ArduinoEncoder/DisplayController.cpp:23-24 | With a non-null panel letter, the frame is the first 8 characters of the two letters followed by the `%06ld` field. |
| CFormat.ZeroPadded | src/ArduinoEncoder/DisplayController.cpp:24 | `%0Nld` is as long as the wider of N and the `%ld` rendering, and equals that rendering when it is at least N wide. It starts with '-' iff the value is negative, and otherwise holds only digits. |
| CFormat.ZeroPaddedNullFree | src/ArduinoEncoder/DisplayController.cpp:24-25 | No `%0Nld` output contains a null character, so it never cuts the string `displayText` receives. |
| CFormat.ZeroPaddedLayout | src/ArduinoEncoder/DisplayController.cpp:24 | Within the width, `%0Nld` is zeros then digits, with the sign placed before the zeros. |
| CFormat.ZeroPaddedRoundTrip | src/ArduinoEncoder/DisplayController.cpp:24 | Parsing any `%0Nld` output returns the value it renders. |
| CFormat.SnprintfStore | src/ArduinoEncoder/DisplayController.cpp:23-24 | A buffer of n bytes keeps a prefix of the output of length min(len, n - 1), and nothing when n is 0. |
| CFormat.CString | src/ArduinoEncoder/DisplayController.cpp:24-25 | The string a buffer holds is a null-free prefix of it, ending at the buffer's end or at a null character. |
| CFormat.Decimal | src/ArduinoEncoder/DisplayController.cpp:24 | The digits of a non-negative number at the default precision 1: at least one character, digits only, and a leading '0' exactly when the number is 0. |
| CFormat.SignedDecimal | src/ArduinoEncoder/DisplayController.cpp:24 | The `%ld` rendering that `ZeroPadded`, `FitsField` and `FieldTruncated` are stated against: it is non-empty, starts with '-' iff the value is negative, and is otherwise digits. |
| CFormat.SignedDecimalRoundTrip | src/ArduinoEncoder/DisplayController.cpp:24 | Parsing any `%ld` rendering returns the value it renders. |
| CFormat.DecimalValue | src/ArduinoEncoder/DisplayController.cpp:24 | The digits `%ld` prints for a non-negative number read back as that number. |
| CFormat.DecimalFits | src/ArduinoEncoder/DisplayController.cpp:24 | A number has at most k digits iff it is below 10^k. |

## Left out

- Pin set-up, pin reads and the clock (`pinMode`, `digitalRead`, `millis`). Channel B's level is a `bool` parameter and the tick is a `nat` parameter. The 32-bit wrap of `millis()` is not modelled.
- Interrupt context and `volatile`. The non-atomic reads of several fields while a pulse interrupt runs are concurrency, not sequential logic. The model is a sequential state machine.
- Overflow of the `long` counters on `forward++`/`backward++` and in `forward - backward`. Counters and values are unbounded integers.
- The TM1638 panel driver (`TM1638plus`) is not part of this model. This covers `begin` (`displayBegin`, `reset`, `brightness(2)`), `readButtons`, the panel's `reset`, and the `displayText` call: `RenderValue` returns the string instead of sending it. The driver's strobe, clock and data pins and the `high_freq` flag are left out too.
- C `char` is a byte; the model uses Dafny's `char` for the panel letter without restricting its width.
