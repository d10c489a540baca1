# Study helper: session timer and menu input, in Dafny

This project models the study helper's console program (`main.py`). The user
picks a study method from `config.study_methods` by id or by name. The
"custom" method asks for study minutes, break minutes and a cycle count. The
timer then runs `cycles` cycles. Each cycle is a work countdown followed by a
break countdown, and each countdown shows `mm:ss remaining` once per second.

Modules:

- `Timer` (timer.dfy) holds `run_timer` and `countdown`. What they print is
  modelled as a trace of `Event`s. `Countdown` and `RunTimer` are methods
  with the source's loops. They are proved equal to the trace functions
  `CountdownTrace` and `SessionTrace`. Lemmas about those functions give the
  number of ticks, the order of the phases and the count-down of each tick.
- `Input` (console_input.dfy) covers the lines typed at the prompts. It has
  `str.strip()` and `str.lower()` as applied to a menu choice, and
  `get_positive_int` as the method `GetPositiveInt`.
- `Menu` (menu.dfy) holds the selection loop and the custom branch of
  `main`, and `StudyHelper`, which chooses the settings and runs the timer.
- `Wrappers` (wrappers.dfy) defines `Option`.

Input is a given sequence of `Line`s. Each line carries its text and the
value `int()` gives for it. `None` stands for the `ValueError` that `int()`
raises. When the lines run out, `input()` raises `EOFError`. No loop in the
program catches it, so the operations return `None` (or `InputEnded`). With
finitely many lines every loop therefore ends. The program itself would keep
prompting for as long as input keeps arriving.

The program never checks the configured values. A non-custom method with
`cycles <= 0` runs no cycle. A duration `<= 0` gives a countdown with no
ticks. The model keeps both behaviours. `Max0` appears in the contracts for
this reason.

A menu entry whose name is the empty string is a special case. The choice
matches it, but `selected_method = ""` is false in Python. So the prompt
repeats, and later entries are not tried for that choice. `Accepted` models
this.

## Model

| member | source | states |
|---|---|---|
| `Timer.Divmod60` | main.py:68 | the displayed minutes and seconds satisfy `mins * 60 + secs == seconds` and `0 <= secs < 60` |
| `Timer.DivmodUnique` | main.py:68 | any pair with those two properties is the one `divmod` gives, so the display is the floor quotient and remainder |
| `Timer.CountdownTrace` | main.py:64-73 | what `countdown(seconds)` prints: a tick for `seconds`, then what the countdown from `seconds - 1` prints; just the closing line once `seconds <= 0` |
| `Timer.CountdownShape` | main.py:64-73 | `countdown(seconds)` shows exactly `max(seconds, 0)` ticks with values `seconds, seconds - 1, ..., 1`, then finishes; with `seconds <= 0` it shows none |
| `Timer.CountdownTickCount` | main.py:67-71 | a countdown of `seconds` shows `max(seconds, 0)` ticks |
| `Timer.CountdownNoPhases` | main.py:64-73 | a countdown starts no phase |
| `Timer.CountdownCountsDown` | main.py:67-71 | every tick of a countdown shows a positive value split as `divmod` does, each next tick shows one second less, and the countdown does not end on a tick |
| `Timer.Countdown` | main.py:64-73 | the loop that decrements `seconds` while positive prints exactly `CountdownTrace`, the ticks described by `CountdownShape` followed by the closing line |
| `Timer.PhaseProperties` | main.py:50-57 | one phase (its start line and its countdown) shows `max(seconds, 0)` ticks, starts exactly that phase, counts down and does not end on a tick |
| `Timer.CycleTickCount` | main.py:48-59 | one cycle shows `max(work, 0) + max(break, 0)` ticks |
| `Timer.CyclePhases` | main.py:48-59 | one cycle starts exactly two phases: Work, then Break, both under its own cycle number |
| `Timer.CycleCountsDown` | main.py:48-59 | the ticks of one cycle count down within each countdown, and the cycle ends with its completion line |
| `Timer.CyclesTickCount` | main.py:48-59 | cycles 1 to n show `max(n, 0) * (max(work, 0) + max(break, 0))` ticks |
| `Timer.PhasePlanShape` | main.py:48-59 | the planned phases of cycles 1 to n number `2 * max(n, 0)`; phase `i` is in cycle `i / 2 + 1`, Work for even `i` and Break for odd `i` |
| `Timer.CyclesPhases` | main.py:48-59 | cycles 1 to n start exactly the planned phases: Work then Break for each cycle, in increasing cycle order |
| `Timer.CyclesCountDown` | main.py:48-59 | the ticks of cycles 1 to n count down within each countdown |
| `Timer.SessionTrace` | main.py:44-61 | what `run_timer` prints: the settings line, cycles 1 to `cycles` in order, then the closing line |
| `Timer.SessionTickCount` | main.py:44-61 | a session shows `max(cycles, 0) * (max(work, 0) + max(break, 0))` ticks, so `cycles * (work + break)` for non-negative durations and none for zero cycles |
| `Timer.SessionPhases` | main.py:44-61 | a session runs `2 * max(cycles, 0)` phases, cycles numbered 1 to `cycles` in increasing order, each Work then Break |
| `Timer.SessionCountsDown` | main.py:44-73 | every tick of a session shows a positive value split as `divmod` does, and two ticks in a row are in the same cycle and phase with the second one second lower |
| `Timer.PhasesAlternate` | main.py:48-59 | the phases strictly alternate, start with Work in cycle 1 and end with Break in the last cycle; zero cycles run no phase |
| `Timer.RunCycle` | main.py:48-59 | one iteration of the cycle loop prints exactly `CycleTrace`: the cycle header, the work phase, the break phase and the completion line |
| `Timer.RunTimer` | main.py:44-61 | the `for cycle in range(1, cycles + 1)` loop prints exactly `SessionTrace`, with the tick total and the phase count above |
| `Input.IsSpace` | main.py:106 | the characters Python's `str.isspace()` accepts, which `strip()` removes: TAB to CR, FS to US, the space, NEL, NO-BREAK SPACE and the Unicode space, line and paragraph separators |
| `Input.TrimStartSpec` | main.py:106 | dropping leading whitespace leaves a suffix that does not start with whitespace, and only whitespace is dropped |
| `Input.TrimEndSpec` | main.py:106 | dropping trailing whitespace leaves a prefix that does not end with whitespace, and only whitespace is dropped |
| `Input.Strip` | main.py:106 | `strip()` with no argument: the leading, then the trailing whitespace dropped |
| `Input.StripSlice` | main.py:106 | `strip()` returns the slice of the text between its leading and its trailing whitespace |
| `Input.StripEnds` | main.py:106 | the stripped choice has whitespace at neither end |
| `Input.StripUnchanged` | main.py:106 | a text with no whitespace at either end is left unchanged by `strip()` |
| `Input.Lower` | main.py:106 | `lower()`, character by character |
| `Input.LowerSpec` | main.py:106 | `lower()` keeps the length, leaves no upper-case ASCII letter, lowers each upper-case letter and keeps every other character |
| `Input.Normalize` | main.py:106 | the choice as `.strip().lower()` leaves it |
| `Input.NormalizeIdempotent` | main.py:106 | normalising a normalised choice changes nothing |
| `Input.FirstPositive` | main.py:78-87 | the first line at or after a position whose integer value is at least 1, with every line before it rejected; `None` exactly when no such line remains |
| `Input.GetPositiveInt` | main.py:77-87 | returns only a value of at least 1, namely that of the first acceptable line, and rejects every non-integer and every integer below 1 before it; `None` (EOF) when no acceptable line remains |
| `Menu.Matches` | main.py:110 | the choice equals the entry's id string or its name |
| `Menu.FirstMatch` | main.py:109-112 | the first entry, in iteration order, whose id string or name equals the choice, with no earlier entry matching; `None` exactly when no entry matches |
| `Menu.FindMethod` | main.py:109-112 | the inner `for` loop stops at that first matching entry and finds none only when no entry matches |
| `Menu.UppercaseNameOnlyById` | main.py:106-110 | an entry whose name holds an upper-case ASCII letter is matched by a typed choice only through its id |
| `Menu.Accepted` | main.py:105-115 | a choice ends the selection loop when some entry matches it and the first such entry's name is not the empty string, which Python treats as false |
| `Menu.FirstAccepted` | main.py:105-115 | the first line whose normalised text selects an entry, with every earlier line rejected |
| `Menu.SelectMethod` | main.py:102-115 | the selection loop returns the first matching entry for the first accepted line, never an entry with an empty name, and reads nothing past that line; `None` (EOF) when no line is accepted |
| `Menu.CustomAnswers` | main.py:124-126 | the three answers of the custom branch, read in order after the choice, are each at least 1 |
| `Menu.ChosenSettings` | main.py:102-132 | the settings for an input: the three values of the entry the first accepted line selects, or for "custom" the first two answers after that line times 60 and the third unchanged; `None` when the input ends before they are known |
| `Menu.ChooseSettings` | main.py:102-132 | the settings equal `ChosenSettings`, and the selected entry is the first match of the first accepted line; for "custom" the settings are the first two answers times 60 and the third unchanged, or none if the input ends first; for any other entry they are its three values unchanged |
| `Menu.CustomSettingsPositive` | main.py:124-126 | custom durations are positive multiples of 60 and the cycle count is at least 1 |
| `Menu.CustomSessionLength` | main.py:124-135 | a custom session of `w` and `b` minutes and `c` cycles shows `c * 60 * (w + b)` ticks in `2 * c` phases |
| `Menu.StudyHelper` | main.py:94-135 | the program ends without running the timer exactly when no choice is accepted or the custom answers run out; otherwise the timer runs with exactly `ChosenSettings`, prints `SessionTrace` for them and shows the tick total above |

## Left out

- `time.sleep(1)`: real-time waiting is not modelled. A tick is one event in the trace.
- Console output: each `print` call of the timer is one `Event`. The exact text is not modelled, including the `:02d` padding and the `\r` ending. The menu listing (main.py:95-100) is not modelled, and neither are the messages printed in `main` and `get_positive_int`.
- The cycle and phase on a `Tick` event are labels that `run_timer` passes to `Countdown`. The source's `countdown` prints neither.
- `input()` and the parsing done by `int()`: each line comes with the value `int()` gives for it.
- `config.study_methods` is not part of this model. It is a given sequence of entries in dictionary order, with `str(details["id"])` already a string and integer timer values. `details["description"]` is only printed, so the model leaves it out. The selected entry is taken by its index in that sequence. Dictionary keys are distinct, so this is the entry that `study_methods[selected_method]` looks up.
- Configured values that are not integers, such as floats, are not modelled.
- Input.LowerSpec: models `str.lower()` on ASCII letters only. Python's full Unicode case mapping is not modelled.
- The ideas in the module docstring (camera, phone detection, buzzer, remote text generation, milestones) are not implemented in the program and are not modelled.
- The `if __name__ == "__main__"` start-up (main.py:138-140) only prints and calls `main`.
