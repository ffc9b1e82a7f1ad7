# Odds predictor widget: clock formatter and "Next game" controller

The widget (`script.js`) shows a 12-hour wall clock, a clock five minutes
ahead, and an "odds" value that a "Next game" button re-draws and animates.
This project models the two parts of it that have exact behaviour:

- `Clock` (`clock.dfy`): `formatTime`, which renders an hours/minutes reading
  as `H:MM AM` / `H:MM PM`. It is written over the two numbers a `Date`
  supplies (`getHours()` in 0..23, `getMinutes()` in 0..59), with the two
  library calls it makes on the minutes (`toString`, `padStart`) written out.
  A reader `ParseClock` for the rendered strings is used to prove that the
  rendering is lossless and that the reader accepts nothing else.
- `NextGame` (`next_game.dfy`): the button's click handler and the callbacks
  of the animation it starts, as a class `Controller` whose fields are the
  spinner's visibility, the button's disabled flag, the stored odds
  (`currentOdds`) and the value on display. `Click`, `Frame` (`onUpdate`) and
  `Complete` (`onComplete`) are the three events. Each event appends to a
  ghost `history` whether the button is disabled and what the stored odds are
  once it has run; `Round` runs one whole round in the order the browser
  delivers the events and states the round's part of that history.

## Model

| member | source | states |
|---|---|---|
| Clock.DisplayHour | script.js:15 | `hours % 12 \|\| 12` lies in 1..12, is 12 exactly for hours 0 and 12, and agrees with the hour modulo 12 |
| Clock.DecimalString | script.js:16 | `toString()` of a number below 100 is a one- or two-digit numeral denoting it, one digit exactly below 10, with a leading `0` only for 0 |
| Clock.MinuteField | script.js:16 | `minutes.toString().padStart(2,"0")` is exactly two digits denoting the minute, starting with `0` exactly for minutes below 10 |
| Clock.FormatTimeFields | script.js:16 | the rendered string is the hour numeral, `:`, the minute field, a space and the suffix, at fixed places counted from the end |
| Clock.FormatTimeShape | script.js:15-16 | every reading renders as `H:MM AM\|PM` with no leading zero on H; 7 characters for shown hours 1..9, 8 for 10..12 |
| Clock.FormatTimeHour | script.js:15 | the shown hour denotes a number in 1..12 congruent to the hour modulo 12, and is `"12"` exactly for hours 0 and 12 |
| Clock.FormatTimeSuffix | script.js:14 | the suffix is `"PM"` exactly when hours >= 12 and `"AM"` exactly when hours < 12 |
| Clock.FormatTimeMinutes | script.js:16 | the minute part is two decimal digits denoting the minute, zero-padded exactly below ten |
| Clock.FormatTimeExamples | script.js:11-17 | 0:05 renders as `12:05 AM`, 13:00 as `1:00 PM`, 15:07 as `3:07 PM`, 12:30 as `12:30 PM` |
| Clock.HourOfDisplayHour | script.js:14-15 | the (shown hour, suffix) pair determines the 24-hour hour |
| Clock.ParseFormatTime | script.js:11-17 | reading back `formatTime(h, m)` gives (h, m) for every h in 0..23 and m in 0..59 |
| Clock.FormatTimeInjective | script.js:11-17 | two different readings never render as the same string |
| Clock.FormatParseClock | script.js:11-17 | every string the reader accepts is the rendering of the valid reading it returns |
| NextGame.Controller.constructor | script.js:94-98 | at load the widget is idle (spinner hidden, button enabled) with the first value stored and shown, and no event recorded |
| NextGame.Controller.Click | script.js:72-75 | a click on the enabled button shows the spinner and disables the button; the stored and shown odds are unchanged; the event is recorded |
| NextGame.Controller.Frame | script.js:80-81 | a frame of the animation only changes the shown value; the button stays disabled and the stored odds unchanged; the event is recorded |
| NextGame.Controller.Complete | script.js:82-87 | completion hides the spinner, enables the button and stores the round's target, whatever value the last frame showed; the event is recorded |
| NextGame.Controller.Round | script.js:72-90 | over click, at least one frame and completion, the recorded history shows the button disabled and the old odds stored after every event up to the last frame, then the button enabled and the target stored; the last frame's value stays on display |

The spinner-shown-exactly-while-disabled invariant (`Controller.Valid`) is
established by the constructor and kept by every event.

## Left out

- `computePrediction` (script.js:37-49): draws from `Math.random()` and rounds
  in floating point; the model takes the round's target as a parameter of
  `Complete` and `Round`.
- `animateValue` (script.js:53-64): its timing (`performance.now()`,
  `requestAnimationFrame`) and the ease-out curve are floating-point and clock
  behaviour; the frames' values are a parameter of `Round`, and whether the
  last frame equals the target is not modelled.
- `setOdds` (script.js:66-68): the `toFixed(2) + "x"` text is not modelled;
  `shownOdds` holds the value it would format.
- `updateClock` and `updatePredictTime` (script.js:20-33): `Date`,
  `setInterval` and `setMinutes` carrying into hours and days are library
  behaviour; the clock is modelled from the (hours, minutes) reading on.
- The 700 ms `setTimeout` (script.js:77, 89), the opacity styling
  (script.js:75, 85) and the element lookups (script.js:2-6) are UI and timer
  glue; the delay is the gap between `Click` and the first `Frame`.
- The page's markup is not part of this model: the constructor takes the
  spinner to be hidden and the button enabled at load.
- Clock.DecimalString: models `Number.prototype.toString` only below 100,
  because the formatter never passes it anything larger (shown hours 1..12,
  minutes 0..59).
- Clock.PadStart: states only the length of the result; what the padding is
  made of is stated for its one use, in `Clock.MinuteField`.
