/** The stack-trace parser: the text of `err.stack` is split into lines, the
    first line (the error's own banner) is dropped, and every other line
    becomes a frame when it is a dashed separator or matches the frame
    pattern

      at (?:(.+)\s+\()?(?:(.+?):(\d+)(?::(\d+))?|([^)]+))\)?

    and is dropped otherwise. The pattern is unanchored and is matched as a
    JavaScript regular expression does: at the leftmost `at ` from which it
    can match, with group 1 tried longest first, the lazy group 2 shortest
    first and the other quantifiers greedy. The trailing `\)?` always
    matches, so the first way the alternation succeeds decides the groups. */
module StackParser {
  import opened Js

  /** One parsed line; an absent field is one the JSON payload leaves out. */
  datatype Frame = Frame(
    functionName: Option<string>,
    filename: Option<string>,
    lineno: Option<nat>,
    colno: Option<nat>,
    inApp: Option<bool>)

  /** What the alternation captured: groups 2 to 4, or group 5. */
  datatype Location =
    | FileLocation(file: string, line: string, column: Option<string>)
    | BareToken(token: string)

  /** A match of the frame pattern: the index where `at ` starts, group 1
      and the alternation's groups. */
  datatype LineMatch = LineMatch(at: nat, callee: Option<string>, location: Location)

  predicate IsDash(c: char) { c == '-' }

  predicate IsWhitespaceOrDash(c: char) { IsWhitespace(c) || c == '-' }

  predicate NotCloseParen(c: char) { c != ')' }

  /** The separator pattern `^\s*[-]{4,}$`: white space, then at least four
      dashes up to the end of the line. */
  predicate IsSeparator(line: string)
    ensures IsSeparator(line) ==> |line| >= 4 && line[|line| - 1] == '-'
    ensures IsSeparator(line) ==> All(line, IsWhitespaceOrDash)
  {
    var n := Run(line, 0, IsWhitespace);
    |line| - n >= 4 && All(line[n..], IsDash)
  }

  /** The groups the digit quantifiers captured are digit strings. */
  predicate DigitGroups(loc: Location)
  {
    loc.FileLocation? ==> All(loc.line, IsDigit) && (loc.column.Some? ==> All(loc.column.value, IsDigit))
  }

  // ---------------------------------------------------------------- matcher

  /** The lazy `(.+?)` followed by `:\d`, resumed after it has consumed
      `u[..j]`: the first `:` at or after `j` that is followed by a digit,
      provided `.` can consume every character before it. */
  function ColonDigitFrom(u: string, j: nat): (r: Option<nat>)
    requires 1 <= j <= |u|
    requires All(u[..j], NotLineTerminator)
    ensures r.Some? ==> j <= r.value && r.value + 1 < |u| && u[r.value] == ':' && IsDigit(u[r.value + 1])
    ensures r.Some? ==> All(u[..r.value], NotLineTerminator)
    decreases |u| - j
  {
    if j + 1 < |u| && u[j] == ':' && IsDigit(u[j + 1]) then Some(j)
    else if j < |u| && NotLineTerminator(u[j]) then
      assert u[..j + 1] == u[..j] + [u[j]];
      ColonDigitFrom(u, j + 1)
    else None
  }

  /** The lazy group 2 with the colon-digit it stops at, when `.` can
      consume the first character. */
  function FileColon(u: string): (r: Option<nat>)
    ensures r.Some? ==> 1 <= r.value && r.value + 1 < |u| && u[r.value] == ':' && IsDigit(u[r.value + 1])
    ensures r.Some? ==> All(u[..r.value], NotLineTerminator)
  {
    if 1 <= |u| && NotLineTerminator(u[0]) then ColonDigitFrom(u, 1) else None
  }

  /** The groups of the file form once group 2 has stopped at `j`: the
      greedy `(\d+)` and the optional greedy `(?::(\d+))?`. */
  function FileForm(u: string, j: nat): (r: Location)
    requires j + 1 < |u|
    ensures r.FileLocation? && r.file == u[..j] && DigitGroups(r)
  {
    var e := j + 1 + Run(u, j + 1, IsDigit);
    var column :=
      if e + 1 < |u| && u[e] == ':' && IsDigit(u[e + 1])
      then Some(u[e + 1 .. e + 1 + Run(u, e + 1, IsDigit)])
      else None;
    FileLocation(u[..j], u[j + 1 .. e], column)
  }

  /** The alternation `(?:(.+?):(\d+)(?::(\d+))?|([^)]+))` at the start of
      `u`: the file form first, then the bare token. */
  function MatchAlternation(u: string): (r: Option<Location>)
    ensures r.Some? ==> DigitGroups(r.value)
  {
    var colon := FileColon(u);
    if colon.Some? then
      Some(FileForm(u, colon.value))
    else if 1 <= |u| && u[0] != ')' then
      Some(BareToken(u[..Run(u, 0, NotCloseParen)]))
    else
      None
  }

  /** `\s+\(` right after group 1 has consumed `t[..i]`: the index just past
      the parenthesis. */
  function OpenParenAfter(t: string, i: nat): (r: Option<nat>)
    requires i <= |t|
    ensures r.Some? ==> i < r.value <= |t|
  {
    var w := Run(t, i, IsWhitespace);
    if w >= 1 && i + w < |t| && t[i + w] == '(' then Some(i + w + 1) else None
  }

  /** `\s+\(` and the alternation after group 1 has consumed `t[..i]`. */
  function CalleeAt(t: string, i: nat): (r: Option<Location>)
    requires i <= |t|
    ensures r.Some? ==> OpenParenAfter(t, i).Some? && DigitGroups(r.value)
  {
    var q := OpenParenAfter(t, i);
    if q.Some? then MatchAlternation(t[q.value..]) else None
  }

  /** The greedy `(.+)\s+\(` followed by the alternation, with group 1
      tried at every length from `i` down to 1. */
  function CalleeFrom(t: string, i: nat): (r: Option<(nat, Location)>)
    requires i <= |t|
    ensures r.Some? ==> 1 <= r.value.0 <= i && DigitGroups(r.value.1)
    decreases i
  {
    if i == 0 then None
    else if CalleeAt(t, i).Some? then Some((i, CalleeAt(t, i).value))
    else CalleeFrom(t, i - 1)
  }

  /** The pattern after its literal `at `: with group 1 when some length of
      it lets the rest match, and without it otherwise. */
  function MatchTail(t: string): (r: Option<(Option<string>, Location)>)
    ensures r.Some? ==> DigitGroups(r.value.1)
  {
    var callee := CalleeFrom(t, Run(t, 0, NotLineTerminator));
    if callee.Some? then
      Some((Some(t[..callee.value.0]), callee.value.1))
    else
      match MatchAlternation(t)
      case Some(loc) => Some((None, loc))
      case None => None
  }

  /** The leftmost match of the frame pattern that starts at or after `p`. */
  function MatchFrom(line: string, p: nat): (r: Option<LineMatch>)
    ensures r.Some? ==> p <= r.value.at && DigitGroups(r.value.location)
    decreases |line| - p
  {
    if p + 3 > |line| then None
    else if line[p..p + 3] == "at " && MatchTail(line[p + 3..]).Some? then
      var tail := MatchTail(line[p + 3..]).value;
      Some(LineMatch(p, tail.0, tail.1))
    else
      MatchFrom(line, p + 1)
  }

  /** `line.match(...)` with the frame pattern. */
  function MatchFrameLine(line: string): (r: Option<LineMatch>)
    ensures r.Some? ==> DigitGroups(r.value.location)
  {
    MatchFrom(line, 0)
  }

  // ---------------------------------------------------------------- parser

  /** `x !== 'native' || undefined` on group 5. */
  function InApp(token: Option<string>): (r: Option<bool>)
    ensures r != Some(false)
    ensures r.None? <==> token == Some("native")
  {
    BoolOrAbsent(token != Some("native"))
  }

  /** The frame record built from a match of the frame pattern. */
  function FrameOf(m: LineMatch): (f: Frame)
    requires DigitGroups(m.location)
    ensures f.functionName != Some("") && f.filename != Some("") && f.lineno != Some(0) && f.colno != Some(0)
    ensures f.functionName.Some? ==> f.functionName == m.callee
    ensures m.location.FileLocation? ==>
      f.filename == StringOrAbsent(Some(m.location.file)) && f.inApp == Some(true)
    ensures m.location.BareToken? ==>
      f.filename.None? && f.lineno.None? && f.colno.None? &&
      (f.inApp.None? <==> m.location.token == "native")
  {
    match m.location
    case FileLocation(file, line, column) =>
      Frame(StringOrAbsent(m.callee), StringOrAbsent(Some(file)), NumberOrAbsent(Some(line)),
            NumberOrAbsent(column), InApp(None))
    case BareToken(token) =>
      Frame(StringOrAbsent(m.callee), None, None, None, InApp(Some(token)))
  }

  /** The map callback: a separator, a frame, or nothing (`undefined`). */
  function ParseLine(line: string): (r: Option<Frame>)
    ensures r.None? <==> !IsSeparator(line) && MatchFrameLine(line).None?
    ensures r.Some? && !IsSeparator(line) ==> r == Some(FrameOf(MatchFrameLine(line).value))
  {
    if IsSeparator(line) then Some(Frame(None, Some(line), None, None, None))
    else
      match MatchFrameLine(line)
      case None => None
      case Some(m) => Some(FrameOf(m))
  }

  /** The `map` then `filter(Boolean)` over the lines: frame records are
      always truthy, so exactly the `undefined` entries are dropped. */
  function FramesOf(lines: seq<string>): (frames: seq<Frame>)
    ensures |frames| <= |lines|
  {
    if lines == [] then []
    else
      var rest := FramesOf(lines[1..]);
      match ParseLine(lines[0])
      case Some(f) => [f] + rest
      case None => rest
  }

  /** `parse(err)`: the frames of every stack line but the first. */
  function Parse(stack: Option<string>): (frames: seq<Frame>)
    ensures |frames| < |Split(StringOr(stack, ""), '\n')|
    ensures stack.None? ==> frames == []
  {
    FramesOf(Split(StringOr(stack, ""), '\n')[1..])
  }

  // ------------------------------------- the pattern as a relation on text

  function ColumnText(column: Option<string>): string
  {
    if column.Some? then ":" + column.value else ""
  }

  /** `u` starts with a text that the alternation can match with these
      captures (not necessarily the captures the regex engine prefers). */
  ghost predicate AlternationMatches(u: string, loc: Location)
  {
    match loc
    case FileLocation(file, line, column) =>
      && |file| >= 1 && All(file, NotLineTerminator)
      && |line| >= 1 && All(line, IsDigit)
      && (column.Some? ==> |column.value| >= 1 && All(column.value, IsDigit))
      && file + ":" + line + ColumnText(column) <= u
    case BareToken(token) =>
      |token| >= 1 && All(token, NotCloseParen) && token <= u
  }

  /** `t` starts with a text that the pattern after `at ` can match with
      these captures. */
  ghost predicate TailMatches(t: string, callee: Option<string>, loc: Location)
  {
    match callee
    case None => AlternationMatches(t, loc)
    case Some(f) =>
      && |f| >= 1 && All(f, NotLineTerminator) && f <= t
      && exists k | |f| < k < |t| ::
           All(t[|f|..k], IsWhitespace) && t[k] == '(' && AlternationMatches(t[k + 1..], loc)
  }

  /** The frame pattern can match `line` at index `p` with these captures. */
  ghost predicate LineMatchesAt(line: string, p: nat, callee: Option<string>, loc: Location)
  {
    p + 3 <= |line| && line[p..p + 3] == "at " && TailMatches(line[p + 3..], callee, loc)
  }

  // ------------------------------------------- soundness and completeness

  lemma {:induction false} ColonDigitReaches(u: string, j: nat, m: nat)
    requires 1 <= j <= m && m + 1 < |u| && u[m] == ':' && IsDigit(u[m + 1])
    requires All(u[..m], NotLineTerminator)
    ensures All(u[..j], NotLineTerminator)
    ensures ColonDigitFrom(u, j).Some? && ColonDigitFrom(u, j).value <= m
    decreases m - j
  {
    assert forall k | 0 <= k < j :: u[..j][k] == u[..m][k];
    if !(u[j] == ':' && IsDigit(u[j + 1])) {
      assert u[j] == u[..m][j];
      ColonDigitReaches(u, j + 1, m);
    }
  }

  /** A prefix of `u` that reaches past a `:` at `j` splits there. */
  lemma PrefixAtColon(u: string, j: nat, e: nat)
    requires j < e <= |u| && u[j] == ':'
    ensures u[..e] == u[..j] + ":" + u[j + 1 .. e]
  {
    assert u[..e] == u[..j] + u[j .. j + 1] + u[j + 1 .. e];
    assert u[j .. j + 1] == ":";
  }

  /** The characters of a slice are those of the run that `Run` measured. */
  lemma RunSlice(u: string, i: nat, p: char -> bool)
    requires i <= |u|
    ensures All(u[i .. i + Run(u, i, p)], p)
  {
    var run := u[i .. i + Run(u, i, p)];
    forall k | 0 <= k < |run| ensures p(run[k]) {
      assert run[k] == u[i + k];
    }
  }

  /** Groups that spell a prefix of `u` are a match of the file form. */
  lemma FileMatchOfPrefix(u: string, file: string, line: string, column: Option<string>, end: nat)
    requires |file| >= 1 && All(file, NotLineTerminator) && |line| >= 1 && All(line, IsDigit)
    requires column.Some? ==> |column.value| >= 1 && All(column.value, IsDigit)
    requires end <= |u| && file + ":" + line + ColumnText(column) == u[..end]
    ensures AlternationMatches(u, FileLocation(file, line, column))
  {
  }

  lemma FileFormSoundPlain(u: string, j: nat)
    requires 1 <= j && j + 1 < |u| && u[j] == ':' && IsDigit(u[j + 1])
    requires All(u[..j], NotLineTerminator) && FileForm(u, j).column.None?
    ensures AlternationMatches(u, FileForm(u, j))
  {
    var e := j + 1 + Run(u, j + 1, IsDigit);
    var file, line := u[..j], u[j + 1 .. e];
    assert FileForm(u, j) == FileLocation(file, line, None);
    RunSlice(u, j + 1, IsDigit);
    PrefixAtColon(u, j, e);
    FileMatchOfPrefix(u, file, line, None, e);
  }

  /** Two colons at `j` and `e` split `u[..end]` into the three groups. */
  lemma ColumnPrefix(u: string, j: nat, e: nat, end: nat)
    requires j < e < end <= |u| && u[j] == ':' && u[e] == ':'
    ensures u[..j] + ":" + u[j + 1 .. e] + ColumnText(Some(u[e + 1 .. end])) == u[..end]
  {
    PrefixAtColon(u, j, e);
    PrefixAtColon(u, e, end);
  }

  lemma FileFormSoundColumn(u: string, j: nat)
    requires 1 <= j && j + 1 < |u| && u[j] == ':' && IsDigit(u[j + 1])
    requires All(u[..j], NotLineTerminator) && FileForm(u, j).column.Some?
    ensures AlternationMatches(u, FileForm(u, j))
  {
    var e := j + 1 + Run(u, j + 1, IsDigit);
    assert e + 1 < |u| && u[e] == ':' && IsDigit(u[e + 1]);
    var end := e + 1 + Run(u, e + 1, IsDigit);
    var file, line, c := u[..j], u[j + 1 .. e], u[e + 1 .. end];
    assert FileForm(u, j) == FileLocation(file, line, Some(c));
    RunSlice(u, j + 1, IsDigit);
    RunSlice(u, e + 1, IsDigit);
    ColumnPrefix(u, j, e, end);
    FileMatchOfPrefix(u, file, line, Some(c), end);
  }

  /** The file form's groups spell a prefix of `u`. */
  lemma FileFormSound(u: string, j: nat)
    requires 1 <= j && j + 1 < |u| && u[j] == ':' && IsDigit(u[j + 1])
    requires All(u[..j], NotLineTerminator)
    ensures AlternationMatches(u, FileForm(u, j))
  {
    if FileForm(u, j).column.Some? {
      FileFormSoundColumn(u, j);
    } else {
      FileFormSoundPlain(u, j);
    }
  }

  /** What the alternation finds is a match of the alternation. */
  lemma AlternationSound(u: string)
    requires MatchAlternation(u).Some?
    ensures AlternationMatches(u, MatchAlternation(u).value)
  {
    var colon := FileColon(u);
    if colon.Some? {
      FileFormSound(u, colon.value);
    } else {
      RunSlice(u, 0, NotCloseParen);
    }
  }

  /** When the alternation can match at all, the matcher finds a match. */
  lemma AlternationComplete(u: string, loc: Location)
    requires AlternationMatches(u, loc)
    ensures MatchAlternation(u).Some?
  {
    match loc
    case FileLocation(file, line, column) =>
      var text := file + ":" + line + ColumnText(column);
      assert u[|file|] == text[|file|] == ':';
      assert u[|file| + 1] == text[|file| + 1] == line[0];
      assert forall k | 0 <= k < |file| :: u[..|file|][k] == file[k];
      assert u[0] == file[0];
      ColonDigitReaches(u, 1, |file|);
    case BareToken(token) =>
      assert u[0] == token[0];
  }

  lemma {:induction false} CalleeFromSound(t: string, i: nat)
    requires i <= |t| && CalleeFrom(t, i).Some?
    ensures var (n, loc) := CalleeFrom(t, i).value;
            OpenParenAfter(t, n).Some? && MatchAlternation(t[OpenParenAfter(t, n).value..]) == Some(loc)
    decreases i
  {
    var q := OpenParenAfter(t, i);
    if !(q.Some? && MatchAlternation(t[q.value..]).Some?) {
      CalleeFromSound(t, i - 1);
    }
  }

  /** The greedy `(.+)`: the length chosen is the longest one at most `i`
      after which `\s+\(` and the alternation match. */
  lemma {:induction false} CalleeFromLongest(t: string, i: nat)
    requires i <= |t| && CalleeFrom(t, i).Some?
    ensures CalleeAt(t, CalleeFrom(t, i).value.0) == Some(CalleeFrom(t, i).value.1)
    ensures forall n | CalleeFrom(t, i).value.0 < n <= i :: CalleeAt(t, n).None?
    decreases i
  {
    var m := CalleeFrom(t, i).value.0;
    if CalleeAt(t, i).None? {
      assert CalleeFrom(t, i) == CalleeFrom(t, i - 1);
      CalleeFromLongest(t, i - 1);
      forall n | m < n <= i
        ensures CalleeAt(t, n).None?
      {
        if n == i {
          assert CalleeAt(t, i).None?;
        }
      }
    } else {
      assert m == i;
    }
  }

  /** No length of group 1 up to `i` lets the rest match when the search
      comes back empty. */
  lemma {:induction false} CalleeFromNoLength(t: string, i: nat)
    requires i <= |t| && CalleeFrom(t, i).None?
    ensures forall n | 1 <= n <= i :: CalleeAt(t, n).None?
    decreases i
  {
    if i > 0 {
      assert CalleeAt(t, i).None? && CalleeFrom(t, i - 1).None?;
      CalleeFromNoLength(t, i - 1);
      forall n | 1 <= n <= i
        ensures CalleeAt(t, n).None?
      {
        if n == i {
          assert CalleeAt(t, i).None?;
        }
      }
    }
  }

  lemma CalleeFromAt(t: string, i: nat)
    requires 1 <= i <= |t| && OpenParenAfter(t, i).Some?
    requires MatchAlternation(t[OpenParenAfter(t, i).value..]).Some?
    ensures CalleeFrom(t, i).Some? && CalleeFrom(t, i).value.0 == i
  {
  }

  lemma {:induction false} CalleeFromReaches(t: string, i: nat, n: nat)
    requires n <= i <= |t| && CalleeFrom(t, n).Some?
    ensures CalleeFrom(t, i).Some?
    decreases i
  {
    if n < i {
      CalleeFromReaches(t, i - 1, n);
    }
  }

  /** White space from `n` up to a `(` at `k` is what `\s+\(` consumes. */
  lemma OpenParenAt(t: string, n: nat, k: nat)
    requires n < k < |t| && All(t[n..k], IsWhitespace) && t[k] == '('
    ensures OpenParenAfter(t, n) == Some(k + 1)
  {
    forall x | n <= x < k ensures IsWhitespace(t[x]) {
      assert t[x] == t[n..k][x - n];
    }
    assert !IsWhitespace(t[k]);
    RunIs(t, n, k - n, IsWhitespace);
  }

  /** What `\s+\(` consumed after `n`: white space, then `(`. */
  lemma OpenParenShape(t: string, n: nat)
    requires n <= |t| && OpenParenAfter(t, n).Some?
    ensures var k := OpenParenAfter(t, n).value - 1;
      n < k < |t| && All(t[n..k], IsWhitespace) && t[k] == '('
  {
    RunSlice(t, n, IsWhitespace);
  }

  /** Group 1, white space, `(` and an alternation match make a match of the
      pattern after `at `. */
  lemma TailWitness(t: string, f: string, k: nat, loc: Location)
    requires |f| >= 1 && All(f, NotLineTerminator) && f <= t
    requires |f| < k < |t| && All(t[|f|..k], IsWhitespace) && t[k] == '('
    requires AlternationMatches(t[k + 1..], loc)
    ensures TailMatches(t, Some(f), loc)
  {
  }

  /** Group 1 ending at `n`, then `\s+\(` and an alternation match, is a
      match of the pattern after `at `. */
  lemma CalleeSound(t: string, n: nat, q: nat, loc: Location)
    requires 1 <= n <= |t| && All(t[..n], NotLineTerminator)
    requires OpenParenAfter(t, n) == Some(q) && AlternationMatches(t[q..], loc)
    ensures TailMatches(t, Some(t[..n]), loc)
  {
    OpenParenShape(t, n);
    TailWitness(t, t[..n], q - 1, loc);
  }

  /** What the matcher finds after `at ` is a match of the pattern there. */
  lemma MatchTailSound(t: string)
    requires MatchTail(t).Some?
    ensures TailMatches(t, MatchTail(t).value.0, MatchTail(t).value.1)
  {
    var max := Run(t, 0, NotLineTerminator);
    var callee := CalleeFrom(t, max);
    if callee.Some? {
      var (n, loc) := callee.value;
      assert MatchTail(t) == Some((Some(t[..n]), loc));
      CalleeFromSound(t, max);
      RunSlice(t, 0, NotLineTerminator);
      assert All(t[..n], NotLineTerminator) by {
        assert forall x | 0 <= x < n :: t[..n][x] == t[..max][x];
      }
      var q := OpenParenAfter(t, n).value;
      AlternationSound(t[q..]);
      CalleeSound(t, n, q, loc);
    } else {
      AlternationSound(t);
    }
  }

  /** When the pattern can match after `at `, the matcher finds a match. */
  lemma MatchTailComplete(t: string, callee: Option<string>, loc: Location)
    requires TailMatches(t, callee, loc)
    ensures MatchTail(t).Some?
  {
    match callee
    case None =>
      AlternationComplete(t, loc);
    case Some(f) =>
      var k :| |f| < k < |t| && All(t[|f|..k], IsWhitespace) && t[k] == '(' && AlternationMatches(t[k + 1..], loc);
      OpenParenAt(t, |f|, k);
      AlternationComplete(t[k + 1..], loc);
      CalleeComplete(t, f, k);
  }

  lemma CalleeComplete(t: string, f: string, k: nat)
    requires 1 <= |f| && f <= t && All(f, NotLineTerminator)
    requires k < |t| && OpenParenAfter(t, |f|) == Some(k + 1) && MatchAlternation(t[k + 1..]).Some?
    ensures MatchTail(t).Some?
  {
    CalleeFromAt(t, |f|);
    var max := Run(t, 0, NotLineTerminator);
    assert |f| <= max by {
      forall x | 0 <= x < |f| ensures NotLineTerminator(t[x]) {
        assert t[x] == f[x];
      }
      RunAtLeast(t, 0, |f|, NotLineTerminator);
    }
    CalleeFromReaches(t, max, |f|);
  }

  /** No match of the pattern starts at `p` when the matcher rejects it. */
  lemma NoMatchAt(line: string, p: nat)
    requires p + 3 <= |line| ==> !(line[p..p + 3] == "at " && MatchTail(line[p + 3..]).Some?)
    ensures forall c, loc :: !LineMatchesAt(line, p, c, loc)
  {
    forall c, loc ensures !LineMatchesAt(line, p, c, loc) {
      if LineMatchesAt(line, p, c, loc) {
        MatchTailComplete(line[p + 3..], c, loc);
      }
    }
  }

  lemma {:induction false} MatchFromFound(line: string, p0: nat)
    requires MatchFrom(line, p0).Some?
    ensures var m := MatchFrom(line, p0).value; LineMatchesAt(line, m.at, m.callee, m.location)
    decreases |line| - p0
  {
    if line[p0..p0 + 3] == "at " && MatchTail(line[p0 + 3..]).Some? {
      MatchTailSound(line[p0 + 3..]);
    } else {
      MatchFromFound(line, p0 + 1);
    }
  }

  lemma {:induction false} MatchFromLeftmost(line: string, p0: nat)
    requires MatchFrom(line, p0).Some?
    ensures forall p: nat, c, loc | p0 <= p < MatchFrom(line, p0).value.at :: !LineMatchesAt(line, p, c, loc)
    decreases |line| - p0
  {
    if !(line[p0..p0 + 3] == "at " && MatchTail(line[p0 + 3..]).Some?) {
      NoMatchAt(line, p0);
      MatchFromLeftmost(line, p0 + 1);
    }
  }

  lemma {:induction false} MatchFromComplete(line: string, p0: nat, p: nat, callee: Option<string>, loc: Location)
    requires p0 <= p && LineMatchesAt(line, p, callee, loc)
    ensures MatchFrom(line, p0).Some? && MatchFrom(line, p0).value.at <= p
    decreases p - p0
  {
    if p0 == p {
      MatchTailComplete(line[p + 3..], callee, loc);
    } else if !(line[p0..p0 + 3] == "at " && MatchTail(line[p0 + 3..]).Some?) {
      MatchFromComplete(line, p0 + 1, p, callee, loc);
    }
  }

  /** The matcher reports a match of the frame pattern, and it is the
      leftmost one: no earlier index admits any match at all. */
  lemma MatchFrameLineSound(line: string)
    requires MatchFrameLine(line).Some?
    ensures var m := MatchFrameLine(line).value;
            && LineMatchesAt(line, m.at, m.callee, m.location)
            && forall p: nat, c, loc | p < m.at :: !LineMatchesAt(line, p, c, loc)
  {
    MatchFromFound(line, 0);
    MatchFromLeftmost(line, 0);
  }

  /** Whenever the frame pattern can match `line` somewhere, the matcher
      reports a match that starts there or earlier. */
  lemma MatchFrameLineComplete(line: string, p: nat, callee: Option<string>, loc: Location)
    requires LineMatchesAt(line, p, callee, loc)
    ensures MatchFrameLine(line).Some? && MatchFrameLine(line).value.at <= p
  {
    MatchFromComplete(line, 0, p, callee, loc);
  }

  /** A line is dropped exactly when it is not a separator and the frame
      pattern can match it nowhere. */
  lemma ParseLineDropped(line: string)
    ensures ParseLine(line).None? <==>
              !IsSeparator(line) && forall p: nat, c, loc :: !LineMatchesAt(line, p, c, loc)
  {
    if MatchFrameLine(line).Some? {
      MatchFrameLineSound(line);
    }
    forall p: nat, c, loc | LineMatchesAt(line, p, c, loc) ensures MatchFrameLine(line).Some? {
      MatchFrameLineComplete(line, p, c, loc);
    }
  }

  // ---------------------------------------------------------- separators

  /** The separator test reads as its pattern: some white space, then four
      or more dashes and nothing else. */
  lemma SeparatorShape(line: string)
    ensures IsSeparator(line) <==>
              exists n | 0 <= n <= |line| - 4 :: All(line[..n], IsWhitespace) && All(line[n..], IsDash)
  {
    var run := Run(line, 0, IsWhitespace);
    RunSlice(line, 0, IsWhitespace);
    assert line[0 .. run] == line[..run];
    forall n | 0 <= n <= |line| - 4 && All(line[..n], IsWhitespace) && All(line[n..], IsDash)
      ensures IsSeparator(line)
    {
      forall k | 0 <= k < n ensures IsWhitespace(line[k]) {
        assert line[k] == line[..n][k];
      }
      assert line[n] == line[n..][0];
      RunIs(line, 0, n, IsWhitespace);
    }
  }

  lemma {:induction false} NoLetterANoMatch(line: string, p: nat)
    requires forall i | 0 <= i < |line| :: line[i] != 'a'
    ensures MatchFrom(line, p).None?
    decreases |line| - p
  {
    if p + 3 <= |line| {
      assert line[p..p + 3][0] == line[p];
      NoLetterANoMatch(line, p + 1);
    }
  }

  /** The separator test comes first, and it matters: a separator line is
      one the frame pattern could never match, so without the test it would
      be dropped. */
  lemma SeparatorPrecedence(line: string)
    requires IsSeparator(line)
    ensures MatchFrameLine(line).None?
    ensures ParseLine(line) == Some(Frame(None, Some(line), None, None, None))
  {
    var n := Run(line, 0, IsWhitespace);
    forall i | 0 <= i < |line| ensures line[i] != 'a' {
      if i >= n {
        assert line[i] == line[n..][i - n];
      }
    }
    NoLetterANoMatch(line, 0);
  }

  /** A line with an `a` in it is not a separator. */
  lemma NotSeparatorWithA(line: string, i: nat)
    requires i < |line| && line[i] == 'a'
    ensures !IsSeparator(line)
  {
    var n := Run(line, 0, IsWhitespace);
    assert n <= i;
    assert line[n..][i - n] == 'a';
  }

  /** Trailing white space after the dashes is not allowed: a separator
      followed by white space is dropped. */
  lemma SeparatorTrailingSpace(d: string, w: string)
    requires IsSeparator(d) && |w| >= 1 && All(w, IsWhitespace)
    ensures ParseLine(d + w).None?
  {
    var line := d + w;
    assert line[|line| - 1] == w[|w| - 1];
    forall i | 0 <= i < |line| ensures line[i] != 'a' {
      if i < |d| {
        assert line[i] == d[i] && IsWhitespaceOrDash(d[i]);
      } else {
        assert line[i] == w[i - |d|];
      }
    }
    NoLetterANoMatch(line, 0);
  }

  // ------------------------------------------------------------ coercion

  /** The coercions of the frame record, stated against the groups of the
      match: function and filename are present exactly when their groups
      took part (a group that takes part is never empty); line and column
      are the decimal values of their groups and are absent when the group
      did not take part or is all zeros; `in_app` is never `false` and is
      absent exactly when group 5 is `native`. */
  lemma FrameCoercion(line: string)
    requires !IsSeparator(line) && MatchFrameLine(line).Some?
    ensures ParseLine(line).Some?
    ensures var m, f := MatchFrameLine(line).value, ParseLine(line).value;
      && f.functionName == m.callee
      && (f.filename.Some? <==> m.location.FileLocation?)
      && (m.location.FileLocation? ==> f.filename == Some(m.location.file))
      && (f.lineno.None? <==> m.location.BareToken? || forall i | 0 <= i < |m.location.line| :: m.location.line[i] == '0')
      && (f.lineno.Some? ==> f.lineno.value == DigitsValue(m.location.line))
      && (f.colno.None? <==>
            m.location.BareToken? || m.location.column.None?
            || forall i | 0 <= i < |m.location.column.value| :: m.location.column.value[i] == '0')
      && (f.colno.Some? ==> f.colno.value == DigitsValue(m.location.column.value))
      && f.inApp != Some(false)
      && (f.inApp.None? <==> m.location == BareToken("native"))
  {
    var m := MatchFrameLine(line).value;
    MatchFrameLineSound(line);
    assert TailMatches(line[m.at + 3..], m.callee, m.location);
    assert m.callee.Some? ==> m.callee.value != "";
    assert m.location.FileLocation? ==> m.location.file != "";
  }

  // ---------------------------------------------------------- line shapes

  /** No `at ` occurs in `s`. */
  predicate NoAtIn(s: string)
  {
    forall p | 0 <= p && p + 3 <= |s| :: !(s[p] == 'a' && s[p + 1] == 't' && s[p + 2] == ' ')
  }

  /** No `:` after the first character is followed by a digit in `s`. */
  predicate NoColonDigit(s: string)
  {
    forall j | 1 <= j && j + 1 < |s| :: !(s[j] == ':' && IsDigit(s[j + 1]))
  }

  lemma {:induction false} SkipToAt(pre: string, t: string, p: nat)
    requires NoAtIn(pre) && p <= |pre|
    ensures MatchFrom(pre + "at " + t, p) == MatchFrom(pre + "at " + t, |pre|)
    decreases |pre| - p
  {
    var line := pre + "at " + t;
    if p < |pre| {
      if p + 3 <= |pre| {
        assert line[p] == pre[p] && line[p + 1] == pre[p + 1] && line[p + 2] == pre[p + 2];
        assert line[p..p + 3][0] == line[p] && line[p..p + 3][1] == line[p + 1] && line[p..p + 3][2] == line[p + 2];
      } else if p + 1 == |pre| {
        assert line[p..p + 3][1] == 'a';
      } else {
        assert line[p..p + 3][2] == 'a';
      }
      SkipToAt(pre, t, p + 1);
    }
  }

  /** A line made of a prefix without `at `, then `at ` and a tail the
      pattern matches, is matched right after the prefix. */
  lemma LineAfterPrefix(pre: string, t: string)
    requires NoAtIn(pre) && MatchTail(t).Some?
    ensures MatchFrameLine(pre + "at " + t) == Some(LineMatch(|pre|, MatchTail(t).value.0, MatchTail(t).value.1))
    ensures !IsSeparator(pre + "at " + t)
  {
    var line := pre + "at " + t;
    SkipToAt(pre, t, 0);
    assert line[|pre|..|pre| + 3] == "at ";
    assert line[|pre| + 3..] == t;
    NotSeparatorWithA(line, |pre|);
  }

  lemma {:induction false} ColonDigitFirst(u: string, j: nat, m: nat)
    requires 1 <= j <= m && m + 1 < |u| && u[m] == ':' && IsDigit(u[m + 1])
    requires All(u[..m], NotLineTerminator)
    requires forall k | j <= k < m :: !(u[k] == ':' && IsDigit(u[k + 1]))
    ensures All(u[..j], NotLineTerminator)
    ensures ColonDigitFrom(u, j) == Some(m)
    decreases m - j
  {
    assert forall k | 0 <= k < j :: u[..j][k] == u[..m][k];
    if j < m {
      assert u[j] == u[..m][j];
      ColonDigitFirst(u, j + 1, m);
    }
  }

  /** The lazy group 2 stops at the first `:` followed by a digit. */
  lemma FileColonAt(file: string, rest: string)
    requires |file| >= 1 && All(file, NotLineTerminator) && NoColonDigit(file)
    requires |rest| >= 2 && rest[0] == ':' && IsDigit(rest[1])
    ensures FileColon(file + rest) == Some(|file|)
  {
    var u := file + rest;
    var j := |file|;
    assert u[..j] == file;
    forall k | 1 <= k < j ensures !(u[k] == ':' && IsDigit(u[k + 1])) {
      assert u[k] == file[k];
      if k + 1 < j {
        assert u[k + 1] == file[k + 1];
      }
    }
    assert u[0] == file[0];
    ColonDigitFirst(u, 1, j);
  }

  /** A digit group ended by the end of the text or by a non-digit is what
      the greedy `\d+` consumes. */
  lemma DigitsThenOther(u: string, s: nat, g: string)
    requires |g| >= 1 && All(g, IsDigit) && s + |g| <= |u| && u[s..s + |g|] == g
    requires s + |g| < |u| ==> !IsDigit(u[s + |g|])
    ensures Run(u, s, IsDigit) == |g|
  {
    forall k | s <= k < s + |g| ensures IsDigit(u[k]) {
      assert u[k] == u[s..s + |g|][k - s];
    }
    RunIs(u, s, |g|, IsDigit);
  }

  lemma FileFormNoColumn(file: string, line: string, tail: string)
    requires |line| >= 1 && All(line, IsDigit)
    requires tail == [] || (!IsDigit(tail[0]) && tail[0] != ':')
    ensures |file| + 1 < |file + ":" + line + tail|
    ensures FileForm(file + ":" + line + tail, |file|) == FileLocation(file, line, None)
  {
    var u := file + ":" + line + tail;
    var j := |file|;
    var e := j + 1 + |line|;
    assert u[j + 1..e] == line;
    assert e < |u| ==> u[e] == tail[0];
    DigitsThenOther(u, j + 1, line);
    assert u[..j] == file;
  }

  /** The file form read off by the lengths of its digit runs. */
  lemma FileFormByRuns(u: string, j: nat, e: nat, f: nat)
    requires j + 1 < e && e + 1 < f <= |u| && u[e] == ':'
    requires Run(u, j + 1, IsDigit) == e - j - 1 && Run(u, e + 1, IsDigit) == f - e - 1
    ensures FileForm(u, j) == FileLocation(u[..j], u[j + 1..e], Some(u[e + 1..f]))
  {
  }

  /** The file form read off by positions: digits from `j + 1` to `e`, a
      `:` at `e`, digits from `e + 1` to `f` and no digit at `f`. */
  lemma FileFormByIndex(u: string, j: nat, e: nat, f: nat)
    requires j + 1 < e && e + 1 < f <= |u|
    requires forall k | j + 1 <= k < e :: IsDigit(u[k])
    requires u[e] == ':'
    requires forall k | e + 1 <= k < f :: IsDigit(u[k])
    requires f < |u| ==> !IsDigit(u[f])
    ensures FileForm(u, j) == FileLocation(u[..j], u[j + 1..e], Some(u[e + 1..f]))
  {
    RunIs(u, j + 1, e - j - 1, IsDigit);
    RunIs(u, e + 1, f - e - 1, IsDigit);
    FileFormByRuns(u, j, e, f);
  }

  /** The positions of `file:line:c` followed by `tail`. */
  lemma ColumnFormLayout(file: string, line: string, c: string, tail: string)
    ensures var u := file + ":" + line + (":" + c) + tail;
      var j, e := |file|, |file| + 1 + |line|;
      var f := e + 1 + |c|;
      && |u| == f + |tail|
      && u[..j] == file && u[j + 1..e] == line && u[e] == ':' && u[e + 1..f] == c
      && (f < |u| ==> u[f] == tail[0])
  {
    var u := file + ":" + line + (":" + c) + tail;
    var j, e := |file|, |file| + 1 + |line|;
    var f := e + 1 + |c|;
    assert u[..j] == file;
    assert u[j + 1..e] == line;
    assert u[e + 1..f] == c;
  }

  lemma FileFormColumn(file: string, line: string, c: string, tail: string)
    requires |line| >= 1 && All(line, IsDigit)
    requires |c| >= 1 && All(c, IsDigit)
    requires tail == [] || !IsDigit(tail[0])
    ensures |file| + 1 < |file + ":" + line + (":" + c) + tail|
    ensures FileForm(file + ":" + line + (":" + c) + tail, |file|) == FileLocation(file, line, Some(c))
  {
    var u := file + ":" + line + (":" + c) + tail;
    var j, e := |file|, |file| + 1 + |line|;
    var f := e + 1 + |c|;
    ColumnFormLayout(file, line, c, tail);
    DigitsAt(u, j + 1, e, line);
    DigitsAt(u, e + 1, f, c);
    FileFormByIndex(u, j, e, f);
  }

  /** A digit string spelt by a slice puts a digit at every index of it. */
  lemma DigitsAt(u: string, a: nat, b: nat, s: string)
    requires a <= b <= |u| && u[a..b] == s && All(s, IsDigit)
    ensures forall k | a <= k < b :: IsDigit(u[k])
  {
    forall k | a <= k < b ensures IsDigit(u[k]) {
      assert u[k] == s[k - a];
    }
  }

  /** The greedy digit groups after the colon take exactly `line` and
      `column`. */
  lemma FileFormOf(file: string, line: string, column: Option<string>, tail: string)
    requires |line| >= 1 && All(line, IsDigit)
    requires column.Some? ==> |column.value| >= 1 && All(column.value, IsDigit)
    requires tail == [] || (!IsDigit(tail[0]) && (column.None? ==> tail[0] != ':'))
    ensures |file| + 1 < |file + ":" + line + ColumnText(column) + tail|
    ensures FileForm(file + ":" + line + ColumnText(column) + tail, |file|) == FileLocation(file, line, column)
  {
    match column {
      case None =>
        assert file + ":" + line + ColumnText(column) + tail == file + ":" + line + tail;
        FileFormNoColumn(file, line, tail);
      case Some(c) =>
        FileFormColumn(file, line, c, tail);
    }
  }

  /** The file form `file:line[:column]` followed by a text that does not
      continue its digit groups is matched with exactly those groups, when
      the file has no earlier `:` followed by a digit. */
  lemma FileAlternation(file: string, line: string, column: Option<string>, tail: string)
    requires |file| >= 1 && All(file, NotLineTerminator) && NoColonDigit(file)
    requires |line| >= 1 && All(line, IsDigit)
    requires column.Some? ==> |column.value| >= 1 && All(column.value, IsDigit)
    requires tail == [] || (!IsDigit(tail[0]) && (column.None? ==> tail[0] != ':'))
    ensures MatchAlternation(file + ":" + line + ColumnText(column) + tail) == Some(FileLocation(file, line, column))
  {
    var u := file + ":" + line + ColumnText(column) + tail;
    var rest := ":" + line + ColumnText(column) + tail;
    assert u == file + rest;
    assert rest[1] == line[0];
    FileColonAt(file, rest);
    FileFormOf(file, line, column, tail);
  }

  /** A bare token, alone or before a `)`, is matched as group 5 when it
      holds no `)` and no `:` followed by a digit. */
  lemma TokenAlternation(token: string, tail: string)
    requires |token| >= 1 && All(token, NotCloseParen) && NoColonDigit(token)
    requires tail == "" || tail == ")"
    ensures MatchAlternation(token + tail) == Some(BareToken(token))
  {
    var u := token + tail;
    forall r | 1 <= r && r + 1 < |u| ensures !(u[r] == ':' && IsDigit(u[r + 1])) {
      assert u[r] == token[r];
      if r + 1 < |token| {
        assert u[r + 1] == token[r + 1];
      } else {
        assert u[r + 1] == ')';
      }
    }
    assert FileColon(u).None?;
    forall k | 0 <= k < |token| ensures NotCloseParen(u[k]) {
      assert u[k] == token[k];
    }
    assert |token| < |u| ==> u[|token|] == ')';
    RunIs(u, 0, |token|, NotCloseParen);
    assert u[0] == token[0];
    assert u[..|token|] == token;
  }

  lemma {:induction false} CalleeFromDown(t: string, i: nat, n: nat)
    requires n <= i <= |t|
    requires forall k | n < k <= i :: OpenParenAfter(t, k).None?
    ensures CalleeFrom(t, i) == CalleeFrom(t, n)
    decreases i
  {
    if n < i {
      CalleeFromDown(t, i - 1, n);
    }
  }

  lemma {:induction false} CalleeFromNone(t: string, i: nat)
    requires i <= |t| && '(' !in t
    ensures CalleeFrom(t, i).None?
    decreases i
  {
    if i > 0 {
      CalleeFromNone(t, i - 1);
    }
  }

  /** Past the last `(` of `t`, no length of group 1 is followed by `\s+\(`. */
  lemma NoParenBeyond(t: string, n: nat, max: nat)
    requires n <= max <= |t|
    requires forall x | n + 1 < x < |t| :: t[x] != '('
    ensures forall k | n < k <= max :: OpenParenAfter(t, k).None?
  {
  }

  /** The only `(` after `fn` in `fn (u` is the one that follows it, when `u`
      has none. */
  lemma ParenOnlyAfterCallee(fn: string, u: string)
    requires '(' !in u
    ensures var t := fn + " (" + u; forall x | |fn| + 1 < x < |t| :: t[x] != '('
  {
    var t := fn + " (" + u;
    forall x | |fn| + 1 < x < |t| ensures t[x] != '(' {
      assert t[x] == u[x - |fn| - 2];
    }
  }

  /** `fn (` starts a text with `.` able to consume its first `|fn| + 2`
      characters. */
  lemma CalleeRunLong(fn: string, u: string)
    requires All(fn, NotLineTerminator)
    ensures Run(fn + " (" + u, 0, NotLineTerminator) >= |fn| + 2
  {
    var t := fn + " (" + u;
    forall x | 0 <= x < |fn| + 2 ensures NotLineTerminator(t[x]) {
      if x < |fn| {
        assert t[x] == fn[x];
      }
    }
    RunAtLeast(t, 0, |fn| + 2, NotLineTerminator);
  }

  /** `fn (` followed by an alternation match with no further `(` is
      matched with group 1 equal to `fn`. */
  lemma CalleeTail(fn: string, u: string, loc: Location)
    requires |fn| >= 1 && All(fn, NotLineTerminator)
    requires '(' !in u && MatchAlternation(u) == Some(loc)
    ensures MatchTail(fn + " (" + u) == Some((Some(fn), loc))
  {
    var t := fn + " (" + u;
    var n := |fn|;
    assert t[..n] == fn;
    assert t[n + 2..] == u;
    assert t[n..n + 1] == " " && t[n + 1] == '(';
    OpenParenAt(t, n, n + 1);
    CalleeFromAt(t, n);
    CalleeRunLong(fn, u);
    var max := Run(t, 0, NotLineTerminator);
    ParenOnlyAfterCallee(fn, u);
    NoParenBeyond(t, n, max);
    CalleeFromDown(t, max, n);
  }

  /** A tail without any `(` is matched without group 1. */
  lemma PlainTail(u: string, loc: Location)
    requires '(' !in u && MatchAlternation(u) == Some(loc)
    ensures MatchTail(u) == Some((None, loc))
  {
    CalleeFromNone(u, Run(u, 0, NotLineTerminator));
  }

  /** The file form has no `(` when its file has none. */
  lemma FileTextNoParen(file: string, line: string, column: Option<string>, tail: string)
    requires '(' !in file && '(' !in tail && All(line, IsDigit)
    requires column.Some? ==> All(column.value, IsDigit)
    ensures '(' !in file + ":" + line + ColumnText(column) + tail
  {
    assert forall i | 0 <= i < |line| :: line[i] != '(';
    if column.Some? {
      assert forall i | 0 <= i < |column.value| :: column.value[i] != '(';
    }
  }

  /** A line the pattern matches in its file form yields the frame of the
      groups: a non-empty file is kept and `in_app` is `true`. */
  lemma FileFrame(line: string, m: LineMatch)
    requires !IsSeparator(line) && MatchFrameLine(line) == Some(m)
    requires m.location.FileLocation? && |m.location.file| >= 1
    ensures ParseLine(line) == Some(Frame(StringOrAbsent(m.callee), Some(m.location.file),
      NumberOrAbsent(Some(m.location.line)), NumberOrAbsent(m.location.column), Some(true)))
  {
  }

  /** `at fn (file:line[:column])`, after any prefix without `at `: all five
      fields are filled from the groups. */
  lemma ParseCallSite(pre: string, fn: string, file: string, line: string, column: Option<string>)
    requires NoAtIn(pre) && |fn| >= 1 && All(fn, NotLineTerminator)
    requires |file| >= 1 && All(file, NotLineTerminator) && NoColonDigit(file) && '(' !in file
    requires |line| >= 1 && All(line, IsDigit)
    requires column.Some? ==> |column.value| >= 1 && All(column.value, IsDigit)
    ensures ParseLine(pre + "at " + fn + " (" + file + ":" + line + ColumnText(column) + ")")
         == Some(Frame(Some(fn), Some(file), NumberOrAbsent(Some(line)), NumberOrAbsent(column), Some(true)))
  {
    var whole := pre + "at " + fn + " (" + file + ":" + line + ColumnText(column) + ")";
    var u := file + ":" + line + ColumnText(column) + ")";
    var t := fn + " (" + u;
    assert whole == pre + "at " + t;
    FileAlternation(file, line, column, ")");
    FileTextNoParen(file, line, column, ")");
    CalleeTail(fn, u, FileLocation(file, line, column));
    LineAfterPrefix(pre, t);
    FileFrame(whole, LineMatch(|pre|, Some(fn), FileLocation(file, line, column)));
  }

  /** `at file:line[:column]` and a tail that does not continue the digit
      groups: no function, in app. */
  lemma ParseFileLocationThen(pre: string, file: string, line: string, column: Option<string>, tail: string)
    requires NoAtIn(pre)
    requires |file| >= 1 && All(file, NotLineTerminator) && NoColonDigit(file) && '(' !in file
    requires |line| >= 1 && All(line, IsDigit)
    requires column.Some? ==> |column.value| >= 1 && All(column.value, IsDigit)
    requires tail == [] || (!IsDigit(tail[0]) && (column.None? ==> tail[0] != ':'))
    requires '(' !in tail
    ensures ParseLine(pre + "at " + file + ":" + line + ColumnText(column) + tail)
         == Some(Frame(None, Some(file), NumberOrAbsent(Some(line)), NumberOrAbsent(column), Some(true)))
  {
    var whole := pre + "at " + file + ":" + line + ColumnText(column) + tail;
    var u := file + ":" + line + ColumnText(column) + tail;
    assert whole == pre + "at " + u;
    FileAlternation(file, line, column, tail);
    FileTextNoParen(file, line, column, tail);
    PlainTail(u, FileLocation(file, line, column));
    LineAfterPrefix(pre, u);
    FileFrame(whole, LineMatch(|pre|, None, FileLocation(file, line, column)));
  }

  /** `at file:line[:column]`: no function, in app. */
  lemma ParseFileLocation(pre: string, file: string, line: string, column: Option<string>)
    requires NoAtIn(pre)
    requires |file| >= 1 && All(file, NotLineTerminator) && NoColonDigit(file) && '(' !in file
    requires |line| >= 1 && All(line, IsDigit)
    requires column.Some? ==> |column.value| >= 1 && All(column.value, IsDigit)
    ensures ParseLine(pre + "at " + file + ":" + line + ColumnText(column))
         == Some(Frame(None, Some(file), NumberOrAbsent(Some(line)), NumberOrAbsent(column), Some(true)))
  {
    var whole := pre + "at " + file + ":" + line + ColumnText(column);
    assert whole + "" == whole;
    ParseFileLocationThen(pre, file, line, column, "");
  }

  /** `at token`: only `in_app` can be present, and it is absent exactly
      for `native`. */
  lemma ParseBareToken(pre: string, token: string)
    requires NoAtIn(pre)
    requires |token| >= 1 && All(token, NotCloseParen) && '(' !in token && NoColonDigit(token)
    ensures ParseLine(pre + "at " + token) == Some(Frame(None, None, None, None, InApp(Some(token))))
  {
    TokenAlternation(token, "");
    assert token + "" == token;
    PlainTail(token, BareToken(token));
    LineAfterPrefix(pre, token);
  }

  /** `at fn (token)`, as in `at Array.forEach (native)`. */
  lemma ParseCalleeToken(pre: string, fn: string, token: string)
    requires NoAtIn(pre) && |fn| >= 1 && All(fn, NotLineTerminator)
    requires |token| >= 1 && All(token, NotCloseParen) && '(' !in token && NoColonDigit(token)
    ensures ParseLine(pre + "at " + fn + " (" + token + ")")
         == Some(Frame(Some(fn), None, None, None, InApp(Some(token))))
  {
    TokenAlternation(token, ")");
    CalleeTail(fn, token + ")", BareToken(token));
    LineAfterPrefix(pre, fn + " (" + (token + ")"));
    assert pre + "at " + fn + " (" + token + ")" == pre + "at " + (fn + " (" + (token + ")"));
  }

  // ------------------------------------------------------------ examples

  // Each example takes its line as a parameter fixed by `requires`, so that
  // the verifier reasons about the named line and does not unfold the
  // literal character by character.

  lemma BarJs()
    ensures |"bar.js"| >= 1 && All("bar.js", NotLineTerminator) && NoColonDigit("bar.js") && '(' !in "bar.js"
  {
  }

  lemma TenAndFive()
    ensures All("10", IsDigit) && NumberOrAbsent(Some("10")) == Some(10)
    ensures All("5", IsDigit) && NumberOrAbsent(Some("5")) == Some(5)
  {
    assert DigitsValue("10") == 10 by {
      assert "10"[..1] == "1";
    }
  }

  /** A V8 call site. */
  lemma ExampleCallSite(line: string)
    requires line == "    at foo (bar.js:10:5)"
    ensures ParseLine(line) == Some(Frame(Some("foo"), Some("bar.js"), Some(10), Some(5), Some(true)))
  {
    assert line == "    " + "at " + "foo" + " (" + "bar.js" + ":" + "10" + ColumnText(Some("5")) + ")";
    IndentNoAt();
    BarJs();
    TenAndFive();
    ParseCallSite("    ", "foo", "bar.js", "10", Some("5"));
  }

  lemma IndentNoAt()
    ensures NoAtIn("    ")
  {
  }

  lemma NativeToken()
    ensures |"native"| >= 1 && All("native", NotCloseParen) && '(' !in "native" && NoColonDigit("native")
  {
  }

  /** A native frame: nothing but the absent `in_app` survives. */
  lemma ExampleNative(line: string)
    requires line == "    at native"
    ensures ParseLine(line) == Some(Frame(None, None, None, None, None))
  {
    assert line == "    " + "at " + "native";
    ParseBareToken("    ", "native");
  }

  /** A callee before `(native)`. */
  lemma ExampleNativeCallee(line: string)
    requires line == "    at Array.forEach (native)"
    ensures ParseLine(line) == Some(Frame(Some("Array.forEach"), None, None, None, None))
  {
    assert line == "    " + "at " + "Array.forEach" + " (" + "native" + ")";
    IndentNoAt();
    NativeToken();
    ParseCalleeToken("    ", "Array.forEach", "native");
  }

  /** Line `0` is falsy and so is left out. */
  lemma ExampleLineZero(line: string)
    requires line == "at bar.js:0"
    ensures ParseLine(line) == Some(Frame(None, Some("bar.js"), None, None, Some(true)))
  {
    assert line == "" + "at " + "bar.js" + ":" + "0" + ColumnText(None);
    ParseFileLocation("", "bar.js", "0", None);
  }

  /** Group 1 is greedy: it runs to the last `(` after which the rest
      matches, parentheses included. */
  lemma ExampleGreedyCallee(line: string)
    requires line == "at a (b) (c.js:1)"
    ensures ParseLine(line) == Some(Frame(Some("a (b)"), Some("c.js"), Some(1), None, Some(true)))
  {
    assert line == "" + "at " + "a (b)" + " (" + "c.js" + ":" + "1" + ColumnText(None) + ")";
    assert DigitsValue("1") == 1;
    ParseCallSite("", "a (b)", "c.js", "1", None);
  }

  lemma UrlWithPortParts()
    ensures All("http://x", NotLineTerminator) && NoColonDigit("http://x") && '(' !in "http://x"
    ensures '(' !in "/a.js:3:4"
    ensures All("8080", IsDigit) && NumberOrAbsent(Some("8080")) == Some(8080)
  {
    assert "80"[..1] == "8";
    assert DigitsValue("80") == 80;
    assert "808"[..2] == "80";
    assert DigitsValue("808") == 808;
    assert "8080"[..3] == "808";
    assert DigitsValue("8080") == 8080;
  }

  /** Group 2 is lazy: a URL with a port stops at the port, which becomes
      the line number, and the real line and column are ignored. */
  lemma ExampleUrlWithPort(line: string)
    requires line == "at http://x:8080/a.js:3:4"
    ensures ParseLine(line) == Some(Frame(None, Some("http://x"), Some(8080), None, Some(true)))
  {
    assert line == "" + "at " + "http://x" + ":" + "8080" + ColumnText(None) + "/a.js:3:4";
    UrlWithPortParts();
    ParseFileLocationThen("", "http://x", "8080", None, "/a.js:3:4");
  }

  // --------------------------------------------------------- whole stacks

  /** Mapping then filtering distributes over concatenation. */
  lemma {:induction false} FramesOfAppend(a: seq<string>, b: seq<string>)
    ensures FramesOf(a + b) == FramesOf(a) + FramesOf(b)
    decreases |a|
  {
    if a == [] {
      assert a + b == b;
    } else {
      assert (a + b)[1..] == a[1..] + b;
      FramesOfAppend(a[1..], b);
    }
  }

  /** Every frame comes from some line, and every line that parses
      contributes its frame. */
  lemma {:induction false} FramesOfMembers(lines: seq<string>, f: Frame)
    ensures f in FramesOf(lines) <==> exists i | 0 <= i < |lines| :: ParseLine(lines[i]) == Some(f)
    decreases |lines|
  {
    if lines != [] {
      FramesOfMembers(lines[1..], f);
      if exists i | 0 <= i < |lines[1..]| :: ParseLine(lines[1..][i]) == Some(f) {
        var i :| 0 <= i < |lines[1..]| && ParseLine(lines[1..][i]) == Some(f);
        assert ParseLine(lines[i + 1]) == Some(f);
      }
      if exists i | 0 <= i < |lines| :: ParseLine(lines[i]) == Some(f) {
        var i :| 0 <= i < |lines| && ParseLine(lines[i]) == Some(f);
        if i > 0 {
          assert ParseLine(lines[1..][i - 1]) == Some(f);
        }
      }
    }
  }

  /** No frame at all exactly when no line parses. */
  lemma {:induction false} FramesOfEmpty(lines: seq<string>)
    ensures FramesOf(lines) == [] <==> forall i | 0 <= i < |lines| :: ParseLine(lines[i]).None?
    decreases |lines|
  {
    if lines != [] {
      FramesOfEmpty(lines[1..]);
      assert forall i | 1 <= i < |lines| :: lines[i] == lines[1..][i - 1];
    }
  }

  /** An error without a stack, or with an empty one, has no frames. */
  lemma ParseNoStack()
    ensures Parse(None) == [] && Parse(Some("")) == []
  {
    SplitSingle("", '\n');
  }

  /** A one-line stack is only the banner: no frames. */
  lemma ParseBannerOnly(banner: string)
    requires '\n' !in banner
    ensures Parse(Some(banner)) == []
  {
    SplitSingle(banner, '\n');
    SplitSingle("", '\n');
  }

  /** A stack made of a banner and lines yields the frames of those lines:
      the first line is never parsed. */
  lemma ParseStackLines(banner: string, lines: seq<string>)
    requires '\n' !in banner
    requires forall i | 0 <= i < |lines| :: '\n' !in lines[i]
    ensures Parse(Some(Join([banner] + lines, '\n'))) == FramesOf(lines)
  {
    var parts := [banner] + lines;
    var stack := Join(parts, '\n');
    forall i | 0 <= i < |parts| ensures '\n' !in parts[i] {
      if i > 0 {
        assert parts[i] == lines[i - 1];
      }
    }
    SplitJoin(parts, '\n');
    assert StringOr(Some(stack), "") == stack;
    assert parts[1..] == lines;
  }

  /** Parsing never yields more frames than the stack has lines after the
      first. */
  lemma ParseBound(stack: string)
    ensures |Parse(Some(stack))| <= |Split(stack, '\n')| - 1
  {
    if stack == "" {
      ParseNoStack();
    }
  }
}
