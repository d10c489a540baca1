/**
 The main menu: the user picks a study method by id or by name, the custom
 method asks for its own durations and cycle count, and the timer runs with
 the resulting settings.

 `config.study_methods` is a dictionary from a method's name to its details;
 it is modelled as the sequence of its entries in iteration order, each with
 the name, `str(details["id"])`, and the three timer values. The values are
 not assumed positive: the program uses them as they are.
 */
module Menu {
  import opened Wrappers
  import opened Input
  import opened Timer

  datatype StudyMethod = StudyMethod(name: string, id: string, workTime: int, breakTime: int, cycles: int)

  /** The values `run_timer` is called with. */
  datatype Settings = Settings(workTime: int, breakTime: int, cycles: int)

  /** What the program does with a given input: it runs the timer with some
      settings, or the input ends (an `EOFError`) before the settings are
      known. */
  datatype Outcome = Ran(settings: Settings, trace: seq<Event>) | InputEnded

  const Custom: string := "custom"

  /** The test of the inner `for` loop: the choice equals the entry's id
      string or its name. */
  predicate Matches(m: StudyMethod, choice: string)
  {
    choice == m.id || choice == m.name
  }

  /** The first entry at or after `k` that the choice matches. */
  function FirstMatch(methods: seq<StudyMethod>, choice: string, k: nat): (r: Option<nat>)
    requires k <= |methods|
    ensures r.Some? ==> k <= r.value < |methods| && Matches(methods[r.value], choice)
    ensures r.Some? ==> forall j :: k <= j < r.value ==> !Matches(methods[j], choice)
    ensures r.None? ==> forall j :: k <= j < |methods| ==> !Matches(methods[j], choice)
    decreases |methods| - k
  {
    if k == |methods| then None
    else if Matches(methods[k], choice) then Some(k)
    else FirstMatch(methods, choice, k + 1)
  }

  /** The inner `for` loop over `study_methods.items()`: stops at the first
      entry the choice matches. */
  method FindMethod(methods: seq<StudyMethod>, choice: string) returns (found: Option<nat>)
    ensures found == FirstMatch(methods, choice, 0)
    ensures found.Some? ==> found.value < |methods| && Matches(methods[found.value], choice)
    ensures found.None? ==> forall j :: 0 <= j < |methods| ==> !Matches(methods[j], choice)
  {
    found := None;
    var i := 0;
    while i < |methods|
      invariant 0 <= i <= |methods|
      invariant FirstMatch(methods, choice, 0) == FirstMatch(methods, choice, i)
    {
      if Matches(methods[i], choice) {
        found := Some(i);
        break;
      }
      i := i + 1;
    }
  }

  /** The choice is lower-cased before it is compared, so an entry whose
      name holds an upper-case ASCII letter can only be chosen by its id. */
  lemma UppercaseNameOnlyById(m: StudyMethod, text: string, k: nat)
    requires k < |m.name| && IsUpper(m.name[k])
    requires Matches(m, Normalize(text))
    ensures Normalize(text) == m.id
  {
    LowerSpec(Strip(text));
  }

  /** Whether a normalised choice ends the `while not selected_method` loop:
      some entry matches, and the name of the first one is not the empty
      string (which Python treats as false, so the prompt repeats). */
  predicate Accepted(methods: seq<StudyMethod>, choice: string)
  {
    var f := FirstMatch(methods, choice, 0);
    f.Some? && methods[f.value].name != ""
  }

  /** Whether a line typed at the menu prompt ends the selection loop. */
  predicate LineAccepted(methods: seq<StudyMethod>, line: Line)
  {
    Accepted(methods, Normalize(line.text))
  }

  /** The first line at or after `pos` whose normalised text is accepted. */
  function FirstAccepted(methods: seq<StudyMethod>, lines: seq<Line>, pos: nat): (r: Option<nat>)
    requires pos <= |lines|
    ensures r.Some? ==> pos <= r.value < |lines| && LineAccepted(methods, lines[r.value])
    ensures r.Some? ==> forall j :: pos <= j < r.value ==> !LineAccepted(methods, lines[j])
    ensures r.None? ==> forall j :: pos <= j < |lines| ==> !LineAccepted(methods, lines[j])
    decreases |lines| - pos
  {
    if pos == |lines| then None
    else if LineAccepted(methods, lines[pos]) then Some(pos)
    else FirstAccepted(methods, lines, pos + 1)
  }

  /** The selection loop: reads choices until one is accepted, and returns
      the index of the entry selected and the position after that line;
      `None` when the lines run out first. */
  method SelectMethod(methods: seq<StudyMethod>, lines: seq<Line>, pos: nat)
    returns (selected: Option<nat>, next: nat)
    requires pos <= |lines|
    ensures selected.Some? <==> FirstAccepted(methods, lines, pos).Some?
    ensures selected.Some? ==>
      next == FirstAccepted(methods, lines, pos).value + 1
      && selected == FirstMatch(methods, Normalize(lines[next - 1].text), 0)
      && selected.value < |methods| && methods[selected.value].name != ""
    ensures selected.None? ==> next == |lines|
  {
    next := pos;
    selected := None;
    while next < |lines|
      invariant pos <= next <= |lines|
      invariant FirstAccepted(methods, lines, pos) == FirstAccepted(methods, lines, next)
    {
      var choice := Normalize(lines[next].text);
      assert FirstAccepted(methods, lines, next)
             == if LineAccepted(methods, lines[next]) then Some(next)
                else FirstAccepted(methods, lines, next + 1);
      next := next + 1;
      var found := FindMethod(methods, choice);
      if found.Some? && methods[found.value].name != "" {
        selected := found;
        return;
      }
      // "Invalid choice. Try again."
    }
  }

  /** The three answers of the custom branch, read from `pos` on: study
      minutes, break minutes and cycles, each the first integer of at least 1
      after the previous one. */
  function CustomAnswers(lines: seq<Line>, pos: nat): (r: Option<(int, int, int)>)
    requires pos <= |lines|
    ensures r.Some? ==> r.value.0 >= 1 && r.value.1 >= 1 && r.value.2 >= 1
  {
    match FirstPositive(lines, pos)
    case None => None
    case Some(a) =>
      match FirstPositive(lines, a + 1)
      case None => None
      case Some(b) =>
        match FirstPositive(lines, b + 1)
        case None => None
        case Some(c) => Some((lines[a].asInt.value, lines[b].asInt.value, lines[c].asInt.value))
  }

  /** The settings `run_timer` is called with for the given input: those of
      the entry the first accepted line selects, or for the custom method
      its three answers (minutes times 60); `None` when the input ends
      before they are known. */
  function ChosenSettings(methods: seq<StudyMethod>, lines: seq<Line>): Option<Settings>
  {
    match FirstAccepted(methods, lines, 0)
    case None => None
    case Some(l) =>
      var m := methods[FirstMatch(methods, Normalize(lines[l].text), 0).value];
      if m.name == Custom then
        match CustomAnswers(lines, l + 1)
        case None => None
        case Some((w, b, c)) => Some(Settings(w * 60, b * 60, c))
      else Some(Settings(m.workTime, m.breakTime, m.cycles))
  }

  /** The settings the program arrives at: for the custom method, minutes
      times 60 and a validated cycle count; otherwise the selected entry's
      values, unchanged. */
  method ChooseSettings(methods: seq<StudyMethod>, lines: seq<Line>)
    returns (selected: Option<nat>, settings: Option<Settings>)
    ensures settings == ChosenSettings(methods, lines)
    ensures selected.Some? <==> FirstAccepted(methods, lines, 0).Some?
    ensures selected.Some? ==>
      var l := FirstAccepted(methods, lines, 0).value;
      selected == FirstMatch(methods, Normalize(lines[l].text), 0)
      && selected.value < |methods| && methods[selected.value].name != ""
    ensures settings.Some? ==> selected.Some?
    ensures selected.Some? && methods[selected.value].name == Custom ==>
      var l := FirstAccepted(methods, lines, 0).value;
      match CustomAnswers(lines, l + 1)
      case None => settings.None?
      case Some((w, b, c)) => settings == Some(Settings(w * 60, b * 60, c))
    ensures selected.Some? && methods[selected.value].name != Custom ==>
      var m := methods[selected.value];
      settings == Some(Settings(m.workTime, m.breakTime, m.cycles))
  {
    var next;
    selected, next := SelectMethod(methods, lines, 0);
    settings := None;
    if selected.None? {
      return;
    }
    var m := methods[selected.value];
    if m.name == Custom {
      var w, b, c;
      w, next := GetPositiveInt(lines, next);
      if w.None? {
        return;
      }
      b, next := GetPositiveInt(lines, next);
      if b.None? {
        return;
      }
      c, next := GetPositiveInt(lines, next);
      if c.None? {
        return;
      }
      settings := Some(Settings(w.value * 60, b.value * 60, c.value));
    } else {
      settings := Some(Settings(m.workTime, m.breakTime, m.cycles));
    }
  }

  /** In the custom branch the durations are positive whole minutes and
      there is at least one cycle. */
  lemma CustomSettingsPositive(lines: seq<Line>, pos: nat)
    requires pos <= |lines| && CustomAnswers(lines, pos).Some?
    ensures var (w, b, c) := CustomAnswers(lines, pos).value;
      w * 60 >= 60 && (w * 60) % 60 == 0 && b * 60 >= 60 && (b * 60) % 60 == 0 && c >= 1
  {
  }

  /** A custom session of w study minutes, b break minutes and c cycles
      shows exactly `c * 60 * (w + b)` ticks, in 2 * c alternating phases. */
  lemma CustomSessionLength(w: int, b: int, c: int)
    requires w >= 1 && b >= 1 && c >= 1
    ensures TickCount(SessionTrace(w * 60, b * 60, c)) == c * 60 * (w + b)
    ensures |PhaseStarts(SessionTrace(w * 60, b * 60, c))| == 2 * c
  {
    SessionTickCount(w * 60, b * 60, c);
    SessionPhases(w * 60, b * 60, c);
    assert c * (w * 60 + b * 60) == c * 60 * (w + b);
  }

  /** `main` after the menu listing: choose the settings, then run the
      timer with them. */
  method StudyHelper(methods: seq<StudyMethod>, lines: seq<Line>) returns (r: Outcome)
    ensures r.InputEnded? <==>
      FirstAccepted(methods, lines, 0).None?
      || (var l := FirstAccepted(methods, lines, 0).value;
          methods[FirstMatch(methods, Normalize(lines[l].text), 0).value].name == Custom
          && CustomAnswers(lines, l + 1).None?)
    ensures r.Ran? <==> ChosenSettings(methods, lines).Some?
    ensures r.Ran? ==> r.settings == ChosenSettings(methods, lines).value
    ensures r.Ran? ==> r.trace == SessionTrace(r.settings.workTime, r.settings.breakTime, r.settings.cycles)
    ensures r.Ran? ==> TickCount(r.trace)
                       == Max0(r.settings.cycles) * (Max0(r.settings.workTime) + Max0(r.settings.breakTime))
  {
    var selected, settings := ChooseSettings(methods, lines);
    if settings.None? {
      return InputEnded;
    }
    var s := settings.value;
    var trace := RunTimer(s.workTime, s.breakTime, s.cycles);
    r := Ran(s, trace);
  }
}
