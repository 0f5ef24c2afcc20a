/** The pieces of JavaScript semantics the error reporter relies on: optional
    values, the truthiness behind `x || y`, completions that may throw, the
    regular-expression character classes `\s`, `.` and `\d`, decimal coercion
    by unary `+`, and `String.prototype.split` on a one-character separator. */
module Js {

  /** An optional value; `None` stands for `undefined`. */
  datatype Option<+T> = None | Some(value: T)

  /** The completion of an expression that may throw. */
  datatype Completion<+T> = Normal(value: T) | Throw

  /** `s || fallback` for a string that may be undefined: `undefined` and the
      empty string are both falsy. */
  function StringOr(s: Option<string>, fallback: string): (r: string)
    ensures s.Some? && s.value != "" ==> r == s.value
    ensures s.None? || s.value == "" ==> r == fallback
    ensures r == "" ==> fallback == ""
  {
    if s.Some? && s.value != "" then s.value else fallback
  }

  /** `s || undefined`: a falsy string becomes absent. */
  function StringOrAbsent(s: Option<string>): (r: Option<string>)
    ensures r != Some("")
    ensures r.Some? ==> r == s
    ensures r.None? ==> s.None? || s == Some("")
  {
    if s.Some? && s.value != "" then s else None
  }

  /** `b || undefined`: `true` is kept, `false` becomes absent. */
  function BoolOrAbsent(b: bool): (r: Option<bool>)
    ensures r != Some(false)
    ensures r.Some? <==> b
  {
    if b then Some(b) else None
  }

  /** Characters that `.` does not match (JavaScript line terminators). */
  predicate IsLineTerminator(c: char)
  {
    c == '\n' || c == '\r' || c == '\U{2028}' || c == '\U{2029}'
  }

  predicate NotLineTerminator(c: char)
  {
    !IsLineTerminator(c)
  }

  /** The class `\s`: JavaScript white space and line terminators. */
  predicate IsWhitespace(c: char)
  {
    || c == '\t' || c == '\n' || c == '\U{000B}' || c == '\U{000C}' || c == '\r'
    || c == ' ' || c == '\U{00A0}' || c == '\U{1680}' || ('\U{2000}' <= c <= '\U{200A}')
    || c == '\U{2028}' || c == '\U{2029}' || c == '\U{202F}' || c == '\U{205F}'
    || c == '\U{3000}' || c == '\U{FEFF}'
  }

  /** The class `\d`. */
  predicate IsDigit(c: char)
  {
    '0' <= c <= '9'
  }

  predicate All(s: string, p: char -> bool)
  {
    forall i | 0 <= i < |s| :: p(s[i])
  }

  /** The length of the longest run of characters satisfying `p` that starts
      at `i`: what a greedy `p*` consumes there. */
  function Run(s: string, i: nat, p: char -> bool): (n: nat)
    requires i <= |s|
    ensures i + n <= |s|
    ensures forall k | i <= k < i + n :: p(s[k])
    ensures i + n < |s| ==> !p(s[i + n])
    decreases |s| - i
  {
    if i < |s| && p(s[i]) then 1 + Run(s, i + 1, p) else 0
  }

  /** A run of exactly `n` characters that satisfy `p`, ended by the end of
      `s` or by a character that does not, is what `Run` measures. */
  lemma {:induction false} RunIs(s: string, i: nat, n: nat, p: char -> bool)
    requires i + n <= |s|
    requires forall k | i <= k < i + n :: p(s[k])
    requires i + n < |s| ==> !p(s[i + n])
    ensures Run(s, i, p) == n
    decreases n
  {
    if n > 0 {
      RunIs(s, i + 1, n - 1, p);
    }
  }

  /** A run of `n` characters that satisfy `p` is at most what `Run`
      measures. */
  lemma {:induction false} RunAtLeast(s: string, i: nat, n: nat, p: char -> bool)
    requires i + n <= |s|
    requires forall k | i <= k < i + n :: p(s[k])
    ensures Run(s, i, p) >= n
    decreases n
  {
    if n > 0 {
      RunAtLeast(s, i + 1, n - 1, p);
    }
  }

  /** The decimal value of a digit string. */
  function DigitsValue(s: string): nat
    requires All(s, IsDigit)
  {
    if s == [] then 0 else DigitsValue(s[..|s| - 1]) * 10 + (s[|s| - 1] as int - '0' as int)
  }

  /** A digit string denotes zero exactly when all its digits are `0`
      (the empty string included). */
  lemma {:induction false} DigitsValueZero(s: string)
    requires All(s, IsDigit)
    ensures DigitsValue(s) == 0 <==> forall i | 0 <= i < |s| :: s[i] == '0'
  {
    if s != [] {
      var init := s[..|s| - 1];
      DigitsValueZero(init);
      assert (forall i | 0 <= i < |s| :: s[i] == '0')
         <==> (forall i | 0 <= i < |init| :: init[i] == '0') && s[|s| - 1] == '0' by {
        assert forall i | 0 <= i < |init| :: init[i] == s[i];
      }
    }
  }

  /** `+s || undefined` for a group that may not have participated in the
      match: `+undefined` is NaN and `+"0…0"` is 0, both falsy. The groups
      coerced here only ever capture ASCII digits. */
  function NumberOrAbsent(s: Option<string>): (r: Option<nat>)
    requires s.Some? ==> All(s.value, IsDigit)
    ensures r.None? <==> s.None? || forall i | 0 <= i < |s.value| :: s.value[i] == '0'
    ensures r.Some? ==> r.value > 0 && r.value == DigitsValue(s.value)
  {
    match s
    case None => None
    case Some(digits) =>
      DigitsValueZero(digits);
      if DigitsValue(digits) == 0 then None else Some(DigitsValue(digits))
  }

  /** The index of the first `sep` in `s`, or `|s|` when there is none. */
  function FirstIndex(s: string, sep: char): (n: nat)
    ensures n <= |s|
    ensures forall k | 0 <= k < n :: s[k] != sep
    ensures n < |s| ==> s[n] == sep
  {
    if s == [] || s[0] == sep then 0 else 1 + FirstIndex(s[1..], sep)
  }

  /** `s.split(sep)` for a one-character separator. */
  function Split(s: string, sep: char): (parts: seq<string>)
    ensures |parts| >= 1
    ensures forall i | 0 <= i < |parts| :: sep !in parts[i]
    decreases |s|
  {
    var n := FirstIndex(s, sep);
    assert forall k | 0 <= k < n :: s[..n][k] != sep;
    if n == |s| then [s] else [s[..n]] + Split(s[n + 1..], sep)
  }

  /** `parts.join(sep)`. */
  function Join(parts: seq<string>, sep: char): string
  {
    if |parts| == 0 then "" else if |parts| == 1 then parts[0] else parts[0] + [sep] + Join(parts[1..], sep)
  }

  /** Splitting a string that starts with a separator-free piece and a
      separator yields that piece followed by the split of the rest. */
  lemma SplitCons(first: string, sep: char, rest: string)
    requires sep !in first
    ensures Split(first + [sep] + rest, sep) == [first] + Split(rest, sep)
  {
    var s := first + [sep] + rest;
    assert forall k | 0 <= k < |first| :: s[k] == first[k];
    assert s[|first|] == sep;
    assert FirstIndex(s, sep) == |first|;
    assert s[..|first|] == first;
    assert s[|first| + 1..] == rest;
  }

  /** A string without the separator splits into itself alone. */
  lemma SplitSingle(s: string, sep: char)
    requires sep !in s
    ensures Split(s, sep) == [s]
  {
    assert FirstIndex(s, sep) == |s|;
  }

  /** Joining the pieces of a split restores the string. */
  lemma {:induction false} JoinSplit(s: string, sep: char)
    ensures Join(Split(s, sep), sep) == s
    decreases |s|
  {
    var n := FirstIndex(s, sep);
    if n < |s| {
      var first, rest := s[..n], s[n + 1..];
      assert Split(s, sep) == [first] + Split(rest, sep);
      JoinSplit(rest, sep);
      assert Join([first] + Split(rest, sep), sep) == first + [sep] + Join(Split(rest, sep), sep);
      assert s == first + [sep] + rest;
    }
  }

  /** Splitting the join of separator-free pieces restores the pieces. */
  lemma {:induction false} SplitJoin(parts: seq<string>, sep: char)
    requires |parts| >= 1
    requires forall i | 0 <= i < |parts| :: sep !in parts[i]
    ensures Split(Join(parts, sep), sep) == parts
    decreases |parts|
  {
    if |parts| == 1 {
      SplitSingle(parts[0], sep);
    } else {
      SplitJoin(parts[1..], sep);
      SplitCons(parts[0], sep, Join(parts[1..], sep));
    }
  }
}
