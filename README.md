# Tide clock — a verified model

The tide clock is a browser widget that estimates the state of a semidiurnal
tide from one user-supplied reference high-tide instant, using a fixed cycle
of 12 hours 25 minutes. Every second it recomputes, from the reference and
the current instant, whether the tide is Falling, Rising, at High Tide or at
Low Tide, how long until the next named event, and when the next high and
next low occur. This project models that computation, its two text
formatters and the rule that replaces the reference, and proves what they
promise.

Files:

- `wrappers.dfy` — `Option`, standing for a JavaScript value that may be null or a parse that may fail.
- `js_text.dfy` — module `JsText`: JavaScript's truncated `%` (`JsRem`), `Math.abs`, `String(n)` of an integer, `padStart(w, '0')`, and the decimal reading of digit strings used as their inverse.
- `formatting.dfy` — module `Formatting`: `formatTime` and `formatDateTimeLocal`, with read-back lemmas.
- `tide.dfy` — module `Tide`: the constants, the predictor as a method with its two stepping loops (`UpdateTideClock`), the reference function `Predict` it is proved equal to, and the lemmas about `Predict`.
- `page.dfy` — module `Page`: the class `TideClock` holding the stored reference, the set-button handler, the load-time commit of a default reference, and the countdown text of a refresh.

All instants and durations are integer epoch milliseconds. The source works
in floating-point minutes (elapsed time divided by 60000, a half-cycle of
372.5 minutes); the model replaces that with exact milliseconds: cycle
44,700,000 ms, half-cycle 22,350,000 ms, override margin 300,000 ms. The
test `cyclePosition < HALF_TIDE_CYCLE_MINUTES` becomes
`JsRem(now - ref, 44_700_000) < 22_350_000`, where `JsRem` is JavaScript's
truncated remainder (Dafny's own `%` is Euclidean).

Where the widget's documented behaviour and its code differ, the model follows the code:

- A stored timestamp of 0 is falsy in JavaScript, so a reference at the epoch instant reads as "no reference" (`Tide.HasReference`).
- The phase is documented as lying in [0, cycle). For a reference in the future the truncated remainder is negative instead, so the phase test says Rising. The exception is a reference a whole number of cycles ahead: the remainder is then zero and the test says Falling (`Tide.FutureReference`).
- The override is documented as a distance on either side of the event. But the next high and next low are never before the current instant, so the `Math.abs` in the override has no effect. High Tide is therefore shown only from 5 minutes before a high up to the high itself, not after it; the same holds for Low Tide (`Tide.StatusByPhase`).

## Model

| member | source | states |
|---|---|---|
| `JsText.JsRem` | index.js:51 | JavaScript's `%` for a positive divisor: the dividend is the truncated quotient times the divisor plus the result, which has the sign of the dividend and magnitude below the divisor |
| `JsText.Abs` | index.js:84-86 | `Math.abs`: non-negative and equal to the argument or its negation |
| `JsText.NatToString` | index.js:7 | `String(n)` of a non-negative integer is a non-empty digit string with no leading zero |
| `JsText.IntToString` | index.js:30 | `String(n)` of any integer: digits for a non-negative n reading back as n, a minus sign followed by the digits of -n otherwise, never with a leading zero (other than "0" itself) |
| `JsText.NatToStringRoundTrip` | index.js:7 | reading the digits of `String(n)` back gives `n` |
| `JsText.NatToStringWidth` | index.js:7 | `String(n)` fits in `k` characters exactly when `n < 10^k` |
| `JsText.PadStartZero` | index.js:24-27 | `padStart(w, '0')` yields length max(len, w), keeps the original as suffix and fills the front with '0' |
| `JsText.PaddedNatRoundTrip` | index.js:24-27 | a zero-padded `String(n)` is still all digits and still reads as `n` |
| `Formatting.Pad2` | index.js:24-27 | `String(n).padStart(2, '0')` is at least two characters; for n >= 0 all digits reading back as n, zero-padded only up to two characters; for n < 0 `String(n)` unchanged |
| `Formatting.TwoDigitField` | index.js:7 | a field in 0..99 is shown as exactly two digits that read back as it |
| `Formatting.WideField` | index.js:7 | a non-negative field is shown with at least two digits, exactly two when below 100, and reads back as it |
| `Formatting.ClockArithmetic` | index.js:3-6 | the hours, minutes and seconds computed from whole seconds satisfy h*3600 + m*60 + s = total, with 0 <= m, s < 60 |
| `Formatting.FormatTime` | index.js:2-8 | the text is at least 8 characters; for a non-negative duration it is HH:MM:SS with an hour field of two or more digits (no leading zero beyond two) and minute and second fields below 60 that recombine to floor(ms / 1000) |
| `Formatting.ClockTextOfSeconds` | index.js:3-7 | the fields built from non-negative whole seconds form a clock text of those seconds (hour field without a leading zero beyond two digits), 8 characters exactly when the hours are below 100 |
| `Formatting.FormatTimeWidth` | index.js:2-8 | the text of a non-negative duration is exactly 8 characters iff the duration is under 100 hours |
| `Formatting.FourDigitYear` | index.js:23 | a year in 1000..9999 is shown as four digits that read back as it |
| `Formatting.FormatDateTimeLocal` | index.js:20-33 | "N/A" exactly for a missing date; for a four-digit year and in-range components the text is the 16 characters YYYY-MM-DDTHH:MM and each field reads back as its component, the month as month0 + 1 |
| `Tide.ConstantsAgree` | index.js:112-113 | the millisecond cycle is 745 minutes, the half-cycle is exactly half of it, the margin is 5 minutes |
| `Tide.StatusText` | index.js:41 | the status line asks for a reference exactly when there is none |
| `Tide.StatusTextInjective` | index.js:69-87 | the texts "Falling", "Rising", "High Tide", "Low Tide" and the request are pairwise different, so the text determines the status |
| `Tide.HasReference` | index.js:40 | a null or 0 (falsy) timestamp reads as no reference, every other timestamp as a reference |
| `Tide.NextOccurrence` | index.js:55-64 | the next instant on the grid start + k*cycle (k >= 0) is at or after now, on the grid, and its predecessor on the grid is before now |
| `Tide.NextOccurrenceUnique` | index.js:59-64 | those three properties determine the next instant uniquely |
| `Tide.InFallingHalf` | index.js:67 | falling only below half a cycle into the Euclidean phase, and always at a whole number of cycles from the reference, past or future |
| `Tide.CyclePositionTest` | index.js:49-51 | the truncated-remainder phase test is equivalent to: first half of the cycle for a past reference, an exact whole number of cycles for a future one |
| `Tide.Classify` | index.js:79-88 | High Tide exactly within the margin before the next high; Low Tide exactly within the margin before the next low and not before a high (High takes precedence); otherwise Falling only in the falling half and Rising only outside it |
| `Tide.Predict` | index.js:40-88 | no prediction exactly when there is no (truthy) reference; otherwise both next instants are at or after now and the countdown is non-negative; its value is pinned by `StatusByPhase`, `NextHighByPhase`/`NextLowByPhase` and `FutureReference` |
| `Tide.UpdateTideClock` | index.js:36-95 | the method with the two stepping loops computes exactly `Predict` for every reference and instant |
| `Tide.NextHighByPhase` | index.js:59-61 | for a past reference the next high is now plus (cycle - phase), or now itself at phase 0 |
| `Tide.NextLowByPhase` | index.js:62-64 | for a past reference the next low is now plus (half - phase), or a further cycle once the phase is past half |
| `Tide.StatusByPhase` | index.js:67-88 | for a past reference: High Tide at phase 0 and in the last 5 minutes of the cycle, Low Tide in the 5 minutes up to half-cycle, Falling before half, Rising after; countdown to the low while falling and to the high while rising, in (0, half-cycle] |
| `Tide.ReferenceInstantIsHighTide` | index.js:84-85 | at the reference instant the status is High Tide |
| `Tide.HalfCycleLaterIsLowTide` | index.js:86-87 | half a cycle after the reference, and 372 minutes after it, the status is Low Tide |
| `Tide.HighLowHalfCycleApart` | index.js:55-64 | the next high and next low are always exactly half a cycle apart |
| `Tide.FutureReference` | index.js:49-77 | for a future reference the next high is the reference, the next low half a cycle later, the status is High Tide within 5 minutes of it, else Falling at whole cycles ahead and Rising otherwise, with the matching countdown |
| `Tide.Periodicity` | index.js:49-64 | for a past reference, one cycle later status and countdown are the same and both next instants are one cycle later |
| `Page.CountdownFitsClock` | index.js:92 | for a past reference the countdown is shown as exactly 8 characters HH:MM:SS that read back as its whole seconds |
| `Page.CountdownText` | index.js:42 | "N/A" exactly without a reference; otherwise for a non-negative countdown a clock text of its whole seconds (hour field without a leading zero beyond two digits) |
| `Page.MessageText` | index.js:133 | a message box exactly for the two rejected commits, with the texts of index.js:133 and 145 |
| `Page.TideClock.constructor` | index.js:116-117 | the page starts from the stored reference, before `StartUp` runs |
| `Page.TideClock.Refresh` | index.js:36-46 | a refresh shows the prediction for the current reference |
| `Page.TideClock.StartUp` | index.js:155-168 | on load a truthy stored reference is kept; otherwise the default "2025-08-11T13:15" is committed as by the set button, so a parsable default becomes the reference and the clock is refreshed |
| `Page.TideClock.SetReference` | index.js:120-151 | an empty field or an unparsable date leaves the reference unchanged and yields its message; otherwise the parsed instant becomes the reference and the refreshed prediction is shown |

## Left out

- `formatDateTime` (index.js:11-18): it delegates to `toLocaleString` with locale options, whose output is not visible in the repository; the next high and next low are given as instants.
- DOM lookups, `textContent` writes, icon setup and the message-box markup (index.js:91-94, 98-109, 128-149): display only; the outcome of a commit is returned as `CommitOutcome`, with its message text.
- `localStorage` (index.js:116-117, 125): the stored value enters as the constructor's argument; saving it is not modelled, nor is `parseInt` of a stored string that is not a number.
- `setInterval` and `window.onload` (index.js:171-176): they only call the refresh.
- Showing a stored reference in the input field on load (index.js:155-157): it needs the `Date` getters of the stored instant; `formatDateTimeLocal` itself is modelled. The other load branch, which commits the default reference when nothing is stored, is `Page.TideClock.StartUp`.
- `new Date(string)` parsing and the local-timezone `Date` getters: the parser is a parameter `string -> Option<int>` (None for NaN) and the getters are the integer fields of `LocalDateTime`.
- Floating-point minutes (index.js:49-51, 113): replaced by exact integer milliseconds; rounding in the division by 60000 and in `%` on floats is not modelled.
- `JsText.NatToString`: does not model JavaScript's exponent notation for integers of 10^21 and more.
- `Formatting.FormatDateTimeLocal`: the components are integers, so an invalid `Date` (all getters NaN) is not modelled.
