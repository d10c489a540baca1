/**
 Console input as the program reads it: the lines typed at the prompts, the
 `str.strip()` and `str.lower()` normalisation applied to a menu choice, and
 `get_positive_int`, which keeps prompting until it reads an integer of at
 least 1.

 `input()` is modelled as a given sequence of lines, read from a position
 onwards. Each line carries its text and what `int()` makes of it (`None`
 standing for the `ValueError` it raises); Python's integer parser itself is
 not modelled. When the lines run out, `input()` raises `EOFError`, which no
 loop here catches: the operations then report `None`.
 */
module Input {
  import opened Wrappers

  datatype Line = Line(text: string, asInt: Option<int>)

  // ---------------------------------------------------------------------
  // str.strip() and str.lower()

  /** Python's `str.isspace()` for one character: the ASCII controls
      TAB to CR and FS to US, the space, NEL, NO-BREAK SPACE and the Unicode
      space separators and line/paragraph separators. */
  predicate IsSpace(c: char)
  {
    var n := c as int;
    (9 <= n <= 13) || (28 <= n <= 32) || n == 0x85 || n == 0xA0 || n == 0x1680
    || (0x2000 <= n <= 0x200A) || n == 0x2028 || n == 0x2029 || n == 0x202F
    || n == 0x205F || n == 0x3000
  }

  /** Drops the leading whitespace. */
  function TrimStart(s: string): string
  {
    if s != [] && IsSpace(s[0]) then TrimStart(s[1..]) else s
  }

  /** Drops the trailing whitespace. */
  function TrimEnd(s: string): string
  {
    if s != [] && IsSpace(s[|s| - 1]) then TrimEnd(s[..|s| - 1]) else s
  }

  /** `TrimStart(s)` is a suffix of `s` that does not start with
      whitespace, and everything it drops is whitespace. */
  lemma {:induction false} TrimStartSpec(s: string)
    ensures var r := TrimStart(s);
      |r| <= |s| && r == s[|s| - |r|..] && (r == [] || !IsSpace(r[0]))
      && forall i :: 0 <= i < |s| - |r| ==> IsSpace(s[i])
    decreases |s|
  {
    if s != [] && IsSpace(s[0]) {
      TrimStartSpec(s[1..]);
    }
  }

  /** `TrimEnd(s)` is a prefix of `s` that does not end with whitespace, and
      everything it drops is whitespace. */
  lemma {:induction false} TrimEndSpec(s: string)
    ensures var r := TrimEnd(s);
      |r| <= |s| && r == s[..|r|] && (r == [] || !IsSpace(r[|r| - 1]))
      && forall i :: |r| <= i < |s| ==> IsSpace(s[i])
    decreases |s|
  {
    if s != [] && IsSpace(s[|s| - 1]) {
      TrimEndSpec(s[..|s| - 1]);
    }
  }

  /** `str.strip()` with no argument. */
  function Strip(s: string): string
  {
    TrimEnd(TrimStart(s))
  }

  /** `Strip(s)` is the slice of `s` between its leading and its trailing
      whitespace. */
  lemma StripSlice(s: string)
    ensures var r := Strip(s);
      var i := |s| - |TrimStart(s)|;
      0 <= i <= |s| - |r| && r == s[i..i + |r|]
      && (forall k :: 0 <= k < i ==> IsSpace(s[k]))
      && (forall k :: i + |r| <= k < |s| ==> IsSpace(s[k]))
  {
    var t := TrimStart(s);
    var r := TrimEnd(t);
    var i := |s| - |t|;
    TrimStartSpec(s);
    TrimEndSpec(t);
    assert t == s[i..];
    assert r == t[..|r|];
    forall k | i + |r| <= k < |s|
      ensures IsSpace(s[k])
    {
      assert s[k] == t[k - i];
    }
  }

  /** `Strip(s)` has whitespace at neither end. */
  lemma StripEnds(s: string)
    ensures var r := Strip(s);
      r == [] || (!IsSpace(r[0]) && !IsSpace(r[|r| - 1]))
  {
    var t := TrimStart(s);
    var r := TrimEnd(t);
    TrimStartSpec(s);
    TrimEndSpec(t);
    if r != [] {
      assert r[0] == t[0];
    }
  }

  predicate IsUpper(c: char)
  {
    'A' <= c <= 'Z'
  }

  function LowerChar(c: char): char
  {
    if IsUpper(c) then (c as int + 32) as char else c
  }

  /** `str.lower()` on ASCII letters: every upper-case letter becomes its
      lower-case partner and every other character stays as it is. */
  function Lower(s: string): string
  {
    seq(|s|, i requires 0 <= i < |s| => LowerChar(s[i]))
  }

  /** The normalisation applied to a menu choice: `.strip().lower()`. */
  function Normalize(text: string): string
  {
    Lower(Strip(text))
  }

  lemma StripUnchanged(s: string)
    requires s == [] || (!IsSpace(s[0]) && !IsSpace(s[|s| - 1]))
    ensures Strip(s) == s
  {
    assert TrimStart(s) == s;
  }

  /** Normalising a normalised choice changes nothing: typing the normalised
      form of a choice selects what the choice itself selects. */
  lemma NormalizeIdempotent(text: string)
    ensures Normalize(Normalize(text)) == Normalize(text)
  {
    var s := Strip(text);
    var n := Lower(s);
    StripEnds(text);
    if n != [] {
      assert IsSpace(n[0]) == IsSpace(s[0]);
      assert IsSpace(n[|n| - 1]) == IsSpace(s[|s| - 1]);
    }
    StripUnchanged(n);
    assert Lower(n) == n;
  }

  /** `Lower(s)` holds no upper-case ASCII letter, maps each upper-case
      letter of `s` to the letter 32 code points above it and keeps every
      other character. */
  lemma LowerSpec(s: string)
    ensures var r := Lower(s);
      |r| == |s|
      && (forall i :: 0 <= i < |s| ==> !IsUpper(r[i]))
      && (forall i :: 0 <= i < |s| && !IsUpper(s[i]) ==> r[i] == s[i])
      && (forall i :: 0 <= i < |s| && IsUpper(s[i]) ==> r[i] as int == s[i] as int + 32)
  {
  }

  // ---------------------------------------------------------------------
  // get_positive_int

  /** A line that `get_positive_int` accepts: `int()` succeeds and gives at
      least 1. */
  predicate IsPositive(line: Line)
  {
    line.asInt.Some? && line.asInt.value >= 1
  }

  /** The first accepted line at or after `pos`, if any. */
  function FirstPositive(lines: seq<Line>, pos: nat): (r: Option<nat>)
    requires pos <= |lines|
    ensures r.Some? ==> pos <= r.value < |lines| && IsPositive(lines[r.value])
    ensures r.Some? ==> forall j :: pos <= j < r.value ==> !IsPositive(lines[j])
    ensures r.None? ==> forall j :: pos <= j < |lines| ==> !IsPositive(lines[j])
    decreases |lines| - pos
  {
    if pos == |lines| then None
    else if IsPositive(lines[pos]) then Some(pos)
    else FirstPositive(lines, pos + 1)
  }

  /** `get_positive_int`: reads lines from `pos` on, rejecting non-integers
      and integers below 1, and returns the first integer of at least 1
      together with the position after it. `None` when the lines run out
      first (the `EOFError` of `input()`). */
  method GetPositiveInt(lines: seq<Line>, pos: nat) returns (value: Option<int>, next: nat)
    requires pos <= |lines|
    ensures value.Some? <==> FirstPositive(lines, pos).Some?
    ensures value.Some? ==> value.value >= 1
    ensures value.Some? ==> next == FirstPositive(lines, pos).value + 1 && lines[next - 1].asInt == value
    ensures value.None? ==> next == |lines|
  {
    next := pos;
    while next < |lines|
      invariant pos <= next <= |lines|
      invariant FirstPositive(lines, pos) == FirstPositive(lines, next)
    {
      var line := lines[next];
      next := next + 1;
      if line.asInt.Some? {
        if line.asInt.value < 1 {
          // "Value must be at least 1. Try again."
          continue;
        }
        return line.asInt, next;
      }
      // ValueError: "Invalid input. Please enter a whole number."
    }
    value := None;
  }
}
