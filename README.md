# Real-time clock text formatting

This project models the text formatting inside `realTimeClock` in `js/script.js`.
Each time it runs, the function reads six values from the current `Date`:

- the hours (`getHours`, 0..23);
- the minutes and seconds (0..59);
- the weekday index (`getDay`, 0..6);
- the zero-based month (`getMonth`, 0..11);
- the full year.

From these it builds three strings for the page:

- **clock:** `hh : mm : ss` in 12-hour form;
- **ampm:** the marker, `am` or `pm`;
- **date:** `dd / mm / year`.

The project is in three modules:

- `Wrappers` (`wrappers.dfy`): an `Option` type for reads that can fail.
- `JsText` (`js_text.dfy`): the pieces of JavaScript that the formatting relies on implicitly:
  - turning an integral Number into its decimal string (`Decimal`, `NumberString`);
  - `String.prototype.slice` with one argument (`Slice`);
  - reading digit strings back (`ParseNat`, `ParseInt`), which the proofs use.
- `Clock` (`clock.dfy`): the formatting itself.
  - `Moment` holds the six getter values. `Moment.Valid()` states the ranges the getters guarantee.
  - `Display` holds the three output strings.
  - The steps of the script are `Tod`, `To12`, `Pad2`, `ClockText` and `DateText`. `Render` puts them together.
  - The partner of `Render` is `Read`. It parses a display back into a moment, and `To24` undoes the 12-hour fold using the am/pm marker.
  - The main theorem is `ReadRender`: every moment the getters can produce is recovered from its display. So no two distinct moments show the same texts (`RenderInjective`).

The formatting functions are total on non-negative integers, as the script is. The ranges of the `Date` getters appear only as hypotheses, where a property needs them (the read-back).

The script's quirks are modelled as written:

- Midnight shows hour `00` (with `am`), because the fold only changes hours above 12.
- The month is zero-based, so January shows `00`.
- The "day" is the weekday index, so Sunday shows `00`.

`MidnightNoonAndOne` and `ZeroBasedFields` show these on concrete values. The file itself notes that the clock is "not yet working" (`js/script.js:3`).

## Model

| member | source | states |
|---|---|---|
| `Clock.Tod` | js/script.js:16 | The marker is `am` or `pm`, and it is `am` exactly when the 24-hour value is below 12. |
| `Clock.To12` | js/script.js:19 | The folded hour is 0 only at midnight. It is at most 12 for hours 0..24. For 0..23 it is unchanged exactly when the hour is 12 or less. |
| `Clock.To12Congruent` | js/script.js:19 | The folded hour is congruent to the 24-hour value modulo 12. |
| `Clock.HourRoundTrip` | js/script.js:16-19 | The marker is decided before the fold. For every hour 0..23, the marker and the folded hour together give back the 24-hour value. |
| `Clock.Pad2` | js/script.js:22-26 | Padding any non-negative number gives exactly two decimal-digit characters. |
| `Clock.Pad2Digits` | js/script.js:22-26 | The two padded characters are the tens digit and the units digit of the number. |
| `Clock.Pad2Value` | js/script.js:22-26 | Reading the padded text back gives the number modulo 100. Only the last two digits survive. |
| `Clock.Pad2RoundTrip` | js/script.js:22-26 | Below 100, padding is lossless. 0..9 gain a leading `0`, and 10..99 are their plain decimal string. |
| `Clock.ClockText` | js/script.js:29 | The clock text is always 12 characters long. |
| `Clock.ClockTextRead` | js/script.js:19-29 | The clock text reads back as the folded hour, the minutes and the seconds, each modulo 100, in that order between ` : ` separators. |
| `Clock.DateText` | js/script.js:31 | The date text is 10 characters longer than the year's decimal string. |
| `Clock.DateTextRead` | js/script.js:25-31 | The date text reads back as the weekday index and the month index as passed in (modulo 100, with no +1), then the whole year, between ` / ` separators. |
| `Clock.DateTextLength` | js/script.js:31 | With a four-digit year, the date text has 14 characters (`dd / mm / yyyy`). |
| `Clock.Render` | js/script.js:16-31 | The clock text has 12 characters, and the marker is `am` exactly when the hour is below 12. |
| `Clock.ReadRender` | js/script.js:8-31 | Every moment within the getters' ranges is recovered from the three texts it is shown as. |
| `Clock.RenderInjective` | js/script.js:16-31 | Two different valid moments never produce the same three texts. |
| `Clock.MidnightNoonAndOne` | js/script.js:16-22 | Midnight shows `00` am, noon shows `12` pm, and 13 o'clock shows `01` pm. |
| `Clock.ZeroBasedFields` | js/script.js:25-26 | Weekday 0 with month 0 (January) shows `00 / 00`. Weekday 6 with month 11 (December) shows `06 / 11`. |
| `JsText.Decimal` | js/script.js:22-26 | A non-negative Number's string is a non-empty run of digits. It has no leading zero and ends with the units digit. |
| `JsText.NumberString` | js/script.js:31 | An integral Number's string is non-empty, and it starts with `-` exactly when the number is negative. |
| `JsText.Slice` | js/script.js:22-26 | `slice(start)` gives a suffix of the string. With a negative start, the suffix has length `-start`, capped at the string's length. |
| `JsText.DecimalRoundTrip` | js/script.js:22-26 | Reading a non-negative Number's string back gives the number. |
| `JsText.NumberStringRoundTrip` | js/script.js:31 | Reading the year's string back, sign included, gives the year. |
| `JsText.DecimalLength` | js/script.js:31 | A number with k digits is written with k characters. |

## Left out

- Reading the system time (`new Date()` and its getters, js/script.js:6-13). The six values are parameters (`Moment`), and their ranges are `Moment.Valid()`.
- The writes to the page and the rescheduling (`innerHTML` and `setTimeout`, js/script.js:29-32). The model stops at the three strings that would be written. Whether the page interprets them as markup is not modelled.
- JavaScript Numbers are doubles. The getters return small integers, which doubles represent exactly, so the model uses unbounded integers.
- `js/dithergrad.js` (the Three.js scene, the GLSL dithering shader and the animation loop) is not part of this model. It is calls into a rendering library plus floating-point code that runs on the GPU.
