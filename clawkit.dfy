/** The helpers of lib/clawkit.rb: the `.env` loader, the config loader, host
    resolution and the safe-path check. The process environment is an
    explicit map from variable name to value, a configuration is the
    already-parsed mapping from keys to lists of strings, and `abort` is the
    `Abort` failure carrying its message. */
module Clawkit {
  import opened Wrappers
  import opened RubyString

  type Env = map<string, string>
  type Config = map<string, seq<string>>

  /** How a call ends when it does not return: `abort` with its message, or
      the KeyError that Hash#fetch raises for a missing key. */
  datatype Failure = Abort(message: string) | KeyError(key: string)

  const ConfigMissingMessage: string :=
    "Error: config.yml not found. Copy config.yml.sample to config.yml and edit it."
  const NoHostsMessage: string := "Error: No hosts configured."

  // =====================================================================
  // The `.env` line pattern /\A([A-Za-z_][A-Za-z0-9_]*)\s*=\s*(.*)\z/

  predicate IsNameStart(c: char) {
    'A' <= c <= 'Z' || 'a' <= c <= 'z' || c == '_'
  }

  predicate IsNameChar(c: char) {
    IsNameStart(c) || '0' <= c <= '9'
  }

  /** A variable name: `[A-Za-z_][A-Za-z0-9_]*`. */
  predicate IsName(s: string) {
    |s| > 0 && IsNameStart(s[0]) && forall i :: 1 <= i < |s| ==> IsNameChar(s[i])
  }

  /** The regular-expression class `\s`: space, tab, line feed, vertical tab,
      form feed, carriage return (not NUL, unlike String#strip). */
  predicate IsRegexSpace(c: char) {
    c == ' ' || '\t' <= c <= '\r'
  }

  predicate AllRegexSpace(s: string) {
    forall i :: 0 <= i < |s| ==> IsRegexSpace(s[i])
  }

  /** The end of the run of name characters that starts at `i`. */
  function NameCharsFrom(t: string, i: nat): (j: nat)
    requires i <= |t|
    ensures i <= j <= |t|
    ensures j < |t| ==> !IsNameChar(t[j])
    decreases |t| - i
  {
    if i < |t| && IsNameChar(t[i]) then NameCharsFrom(t, i + 1) else i
  }

  /** The end of the run of `\s` characters that starts at `i`. */
  function SpacesFrom(t: string, i: nat): (j: nat)
    requires i <= |t|
    ensures i <= j <= |t|
    ensures j < |t| ==> !IsRegexSpace(t[j])
    decreases |t| - i
  {
    if i < |t| && IsRegexSpace(t[i]) then SpacesFrom(t, i + 1) else i
  }

  /** Everything `NameCharsFrom` passes over is a name character. */
  lemma {:induction false} NameRun(t: string, i: nat)
    requires i <= |t|
    ensures forall k :: i <= k < NameCharsFrom(t, i) ==> IsNameChar(t[k])
    decreases |t| - i
  {
    if i < |t| && IsNameChar(t[i]) {
      NameRun(t, i + 1);
    }
  }

  /** Everything `SpacesFrom` passes over is a `\s` character. */
  lemma {:induction false} SpaceRun(t: string, i: nat)
    requires i <= |t|
    ensures forall k :: i <= k < SpacesFrom(t, i) ==> IsRegexSpace(t[k])
    decreases |t| - i
  {
    if i < |t| && IsRegexSpace(t[i]) {
      SpaceRun(t, i + 1);
    }
  }

  /** The two captures of a match: the variable name and the raw value. */
  datatype Assignment = Assignment(name: string, value: string)

  /** Matches the `.env` line pattern against an already stripped line. The
      name is the longest identifier at the start, the value is what follows
      the `=` and the `\s` run after it, and `.` cannot cross a line feed, so
      a value holding one fails the match. */
  function MatchAssignment(t: string): Option<Assignment>
  {
    if |t| == 0 || !IsNameStart(t[0]) then None
    else
      var n := NameCharsFrom(t, 1);
      var e := SpacesFrom(t, n);
      if e < |t| && t[e] == '=' then
        var v := SpacesFrom(t, e + 1);
        if '\n' in t[v..] then None else Some(Assignment(t[..n], t[v..]))
      else None
  }

  /** `t[lo..hi]` is `\s*=\s*` with its `=` at `i`. */
  predicate EqualsAt(t: string, lo: int, i: int, hi: int) {
    && 0 <= lo <= i < hi <= |t|
    && t[i] == '='
    && (forall k :: lo <= k < i ==> IsRegexSpace(t[k]))
    && (forall k :: i < k < hi ==> IsRegexSpace(t[k]))
  }

  ghost predicate HasEqualsSign(t: string, lo: int, hi: int) {
    exists i :: EqualsAt(t, lo, i, hi)
  }

  /** A match splits the line into name, `\s*=\s*` and value, with the value
      free of line feeds and not starting with `\s`; the name cannot be
      extended since what follows it is `\s` or `=`. */
  lemma MatchSound(t: string)
    requires MatchAssignment(t).Some?
    ensures var a := MatchAssignment(t).value;
      && IsName(a.name)
      && |a.name| + |a.value| < |t|
      && t[..|a.name|] == a.name
      && t[|t| - |a.value|..] == a.value
      && HasEqualsSign(t, |a.name|, |t| - |a.value|)
      && '\n' !in a.value
      && (a.value == [] || !IsRegexSpace(a.value[0]))
  {
    var n := NameCharsFrom(t, 1);
    var e := SpacesFrom(t, n);
    NameRun(t, 1);
    SpaceRun(t, n);
    SpaceRun(t, e + 1);
    assert EqualsAt(t, n, e, SpacesFrom(t, e + 1));
  }

  /** Every line of the form name, `\s*=\s*`, line-feed-free value matches,
      with the value's leading `\s` run moved into the separator. */
  lemma MatchComplete(n: string, w1: string, w2: string, v: string)
    requires IsName(n) && AllRegexSpace(w1) && AllRegexSpace(w2) && '\n' !in v
    ensures MatchAssignment(n + w1 + "=" + w2 + v) == Some(Assignment(n, v[SpacesFrom(v, 0)..]))
  {
    var t := n + w1 + "=" + w2 + v;
    var e := |n| + |w1|;
    var s := e + 1 + |w2|;
    LineLayout(n, w1, w2, v, t);
    MatchAt(t, |n|, e, s);
    SuffixRun(t, s);
  }

  /** Where the parts of `n + w1 + "=" + w2 + v` sit in the line. */
  lemma LineLayout(n: string, w1: string, w2: string, v: string, t: string)
    requires IsName(n) && AllRegexSpace(w1) && AllRegexSpace(w2)
    requires t == n + w1 + "=" + w2 + v
    ensures |t| == |n| + |w1| + 1 + |w2| + |v|
    ensures IsNameStart(t[0]) && t[|n| + |w1|] == '='
    ensures forall k :: 1 <= k < |n| ==> IsNameChar(t[k])
    ensures !IsNameChar(t[|n|])
    ensures forall k :: |n| <= k < |n| + |w1| ==> IsRegexSpace(t[k])
    ensures forall k :: |n| + |w1| + 1 <= k < |n| + |w1| + 1 + |w2| ==> IsRegexSpace(t[k])
    ensures t[..|n|] == n
    ensures t[|n| + |w1| + 1 + |w2|..] == v
  {
    var p1 := n + w1;
    var p2 := p1 + "=";
    var p3 := p2 + w2;
    assert t == p3 + v;
    var e := |n| + |w1|;
    var s := e + 1 + |w2|;
    assert forall k :: 0 <= k < s ==> t[k] == p3[k];
    assert forall k :: 0 <= k <= e ==> p3[k] == p2[k];
    assert forall k :: 0 <= k < e ==> p2[k] == p1[k];
    assert forall k :: 0 <= k < |n| ==> p1[k] == n[k];
    assert !IsNameChar(t[|n|]) by {
      if w1 != [] { assert p1[|n|] == w1[0]; }
    }
    assert forall k :: |n| <= k < e ==> p1[k] == w1[k - |n|];
    assert forall k :: e + 1 <= k < s ==> p3[k] == w2[k - e - 1];
  }

  /** The match read off a line whose name ends at `n`, whose `=` is at `e`
      and whose second `\s` run starts at `e + 1` and reaches at least `s`. */
  lemma MatchAt(t: string, n: nat, e: nat, s: nat)
    requires 1 <= n <= e < s <= |t| && IsNameStart(t[0]) && t[e] == '='
    requires forall k :: 1 <= k < n ==> IsNameChar(t[k])
    requires !IsNameChar(t[n])
    requires forall k :: n <= k < e ==> IsRegexSpace(t[k])
    requires forall k :: e + 1 <= k < s ==> IsRegexSpace(t[k])
    requires '\n' !in t[s..]
    ensures MatchAssignment(t) == Some(Assignment(t[..n], t[SpacesFrom(t, s)..]))
  {
    RunsEnd(t, n, e, s);
    var v := SpacesFrom(t, s);
    NoLineFeedAfter(t, s, v);
    MatchFrom(t, n, e, v);
  }

  /** Where the name run and the two `\s` runs of such a line end. */
  lemma RunsEnd(t: string, n: nat, e: nat, s: nat)
    requires 1 <= n <= e < s <= |t| && t[e] == '='
    requires forall k :: 1 <= k < n ==> IsNameChar(t[k])
    requires !IsNameChar(t[n])
    requires forall k :: n <= k < e ==> IsRegexSpace(t[k])
    requires forall k :: e + 1 <= k < s ==> IsRegexSpace(t[k])
    ensures NameCharsFrom(t, 1) == n
    ensures SpacesFrom(t, n) == e
    ensures SpacesFrom(t, e + 1) == SpacesFrom(t, s)
  {
    NameRunEnds(t, 1, n);
    SpaceRunEnds(t, n, e);
    SpaceRunEnds(t, e + 1, s);
  }

  lemma NoLineFeedAfter(t: string, s: nat, v: nat)
    requires s <= v <= |t| && '\n' !in t[s..]
    ensures '\n' !in t[v..]
  {
    assert t[v..] == t[s..][v - s..];
  }

  /** `MatchAssignment` unfolded once, given where its runs end. */
  lemma MatchFrom(t: string, n: nat, e: nat, v: nat)
    requires 0 < |t| && IsNameStart(t[0])
    requires 1 <= n <= |t| && NameCharsFrom(t, 1) == n
    requires e < |t| && SpacesFrom(t, n) == e && t[e] == '='
    requires v <= |t| && SpacesFrom(t, e + 1) == v && '\n' !in t[v..]
    ensures MatchAssignment(t) == Some(Assignment(t[..n], t[v..]))
  {
  }

  lemma {:induction false} NameRunEnds(t: string, i: nat, j: nat)
    requires i <= j < |t| && !IsNameChar(t[j])
    requires forall k :: i <= k < j ==> IsNameChar(t[k])
    ensures NameCharsFrom(t, i) == j
    decreases j - i
  {
    if i < j {
      NameRunEnds(t, i + 1, j);
    }
  }

  lemma {:induction false} SpaceRunEnds(t: string, i: nat, j: nat)
    requires i <= j <= |t|
    requires forall k :: i <= k < j ==> IsRegexSpace(t[k])
    ensures SpacesFrom(t, i) == SpacesFrom(t, j)
    decreases j - i
  {
    if i < j {
      SpaceRunEnds(t, i + 1, j);
    }
  }

  /** The run starting at `i` in `u`, measured in the suffix `u[i..]`. */
  lemma {:induction false} SuffixRun(u: string, i: nat)
    requires i <= |u|
    ensures SpacesFrom(u, i) == i + SpacesFrom(u[i..], 0)
    decreases |u| - i
  {
    if i < |u| && IsRegexSpace(u[i]) {
      SuffixRun(u, i + 1);
      SuffixRun(u[i..], 1);
      assert u[i..][1..] == u[i + 1..];
    }
  }

  // =====================================================================
  // Quote removal: value.gsub(/\A['"]|['"]\z/, "")

  predicate IsQuote(c: char) {
    c == '\'' || c == '"'
  }

  /** The substitution as String#gsub performs it: scanning from position
      `i`, a quote matched by `\A['"]` (position 0) or by `['"]\z` (the last
      position) is replaced by nothing, every other character is kept. */
  function QuoteScan(v: string, i: nat): string
    decreases |v| - i
  {
    if i >= |v| then []
    else if IsQuote(v[i]) && (i == 0 || i == |v| - 1) then QuoteScan(v, i + 1)
    else [v[i]] + QuoteScan(v, i + 1)
  }

  function GsubQuotes(v: string): string {
    QuoteScan(v, 0)
  }

  /** Two independent trims: one leading quote, then one trailing quote of
      what is left, whether or not the two match. */
  function TrimQuotes(v: string): (r: string)
    ensures |v| - 2 <= |r| <= |v|
  {
    var a := if |v| > 0 && IsQuote(v[0]) then 1 else 0;
    var b := if |v| > a && IsQuote(v[|v| - 1]) then |v| - 1 else |v|;
    v[a..b]
  }

  lemma {:induction false} QuoteScanTail(v: string, i: nat)
    requires 0 < i
    ensures var e := if |v| > 0 && IsQuote(v[|v| - 1]) then |v| - 1 else |v|;
      QuoteScan(v, i) == if i < e then v[i..e] else []
    decreases |v| - i
  {
    var e := if |v| > 0 && IsQuote(v[|v| - 1]) then |v| - 1 else |v|;
    if i < |v| {
      QuoteScanTail(v, i + 1);
      if !(IsQuote(v[i]) && i == |v| - 1) {
        assert i < e;
        if i + 1 < e {
          assert [v[i]] + v[i + 1..e] == v[i..e];
        } else {
          assert v[i..e] == [v[i]];
        }
      }
    }
  }

  /** The gsub removes exactly one leading and one trailing quote, each
      independently of the other. */
  lemma GsubIsTrim(v: string)
    ensures GsubQuotes(v) == TrimQuotes(v)
  {
    QuoteScanTail(v, 1);
    if |v| > 0 && !IsQuote(v[0]) {
      var e := if IsQuote(v[|v| - 1]) then |v| - 1 else |v|;
      if 1 < e {
        assert [v[0]] + v[1..e] == v[0..e];
      } else if e == 1 {
        assert v[0..e] == [v[0]];
      }
    }
  }

  /** Worked examples of quote removal. */
  lemma QuoteExamples()
    ensures GsubQuotes("\"") == ""
    ensures GsubQuotes("'x\"") == "x"
    ensures GsubQuotes("\"\"\"") == "\""
    ensures GsubQuotes("\"a") == "a"
    ensures GsubQuotes("a b") == "a b"
  {
    GsubIsTrim("\"");
    GsubIsTrim("'x\"");
    GsubIsTrim("\"\"\"");
    GsubIsTrim("\"a");
    GsubIsTrim("a b");
  }

  // =====================================================================
  // One `.env` line

  /** What one line contributes: it is stripped; blank lines and lines
      starting with `#` give nothing; otherwise the pattern's name and the
      value with its quotes removed, if the line matches. */
  function ParseLine(line: string): Option<Assignment>
  {
    var t := Strip(line);
    if t == [] || t[0] == '#' then None
    else match MatchAssignment(t)
      case None => None
      case Some(m) => Some(Assignment(m.name, GsubQuotes(m.value)))
  }

  /** A line is skipped when blank or a comment, and otherwise assigns
      exactly when its stripped form matches the pattern (so the skip never
      hides a match); the name is the captured one, the value the captured
      one with one leading and one trailing quote trimmed. */
  lemma ParseLineSpec(line: string)
    ensures Strip(line) == [] || Strip(line)[0] == '#' ==> ParseLine(line).None?
    ensures ParseLine(line).Some? <==> MatchAssignment(Strip(line)).Some?
    ensures ParseLine(line).Some? ==>
              && IsName(ParseLine(line).value.name)
              && ParseLine(line).value.name == MatchAssignment(Strip(line)).value.name
              && ParseLine(line).value.value == TrimQuotes(MatchAssignment(Strip(line)).value.value)
  {
    var t := Strip(line);
    if MatchAssignment(t).Some? {
      MatchSound(t);
      GsubIsTrim(MatchAssignment(t).value.value);
    }
  }

  /** A quoted value after spaced `=`, on an indented line ending in a line
      feed. */
  lemma ParseLineQuoted()
    ensures ParseLine("  FOO = \"bar baz\"\n") == Some(Assignment("FOO", "bar baz"))
  {
    QuotedLineStrips();
    QuotedLineMatches();
    QuotedValueTrims();
  }

  lemma QuotedLineStrips()
    ensures Strip("  FOO = \"bar baz\"\n") == "FOO = \"bar baz\""
  {
    StripUnique("  ", "FOO = \"bar baz\"", "\n");
    assert "  " + "FOO = \"bar baz\"" + "\n" == "  FOO = \"bar baz\"\n";
  }

  lemma QuotedLineMatches()
    ensures MatchAssignment("FOO = \"bar baz\"") == Some(Assignment("FOO", "\"bar baz\""))
  {
    QuotedLineParts();
    MatchComplete("FOO", " ", " ", "\"bar baz\"");
  }

  lemma QuotedLineParts()
    ensures "FOO" + " " + "=" + " " + "\"bar baz\"" == "FOO = \"bar baz\""
  {
  }

  lemma QuotedValueTrims()
    ensures GsubQuotes("\"bar baz\"") == "bar baz"
  {
    GsubIsTrim("\"bar baz\"");
  }

  /** Mismatched quotes are both removed. */
  lemma ParseLineMismatchedQuotes()
    ensures ParseLine("A='x\"") == Some(Assignment("A", "x"))
  {
    MismatchedLineStrips();
    MismatchedLineMatches();
    QuoteExamples();
  }

  lemma MismatchedLineStrips()
    ensures Strip("A='x\"") == "A='x\""
  {
    StripOfStripped("A='x\"");
  }

  lemma MismatchedLineMatches()
    ensures MatchAssignment("A='x\"") == Some(Assignment("A", "'x\""))
  {
    MatchComplete("A", "", "", "'x\"");
    assert "A" + "" + "=" + "" + "'x\"" == "A='x\"";
  }

  /** Nothing after `=` is an empty value, and still an assignment. */
  lemma ParseLineEmptyValue()
    ensures ParseLine("EMPTY=") == Some(Assignment("EMPTY", ""))
  {
    assert Strip("EMPTY=") == "EMPTY=" by {
      StripOfStripped("EMPTY=");
    }
    assert MatchAssignment("EMPTY=") == Some(Assignment("EMPTY", "")) by {
      MatchComplete("EMPTY", "", "", "");
      assert "EMPTY" + "" + "=" + "" + "" == "EMPTY=";
    }
  }

  /** A comment line is skipped. */
  lemma ParseLineRejectsComment()
    ensures ParseLine("# KEY=value") == None
  {
    StripOfStripped("# KEY=value");
  }

  /** A shell `export` prefix is not part of the accepted syntax. */
  lemma ParseLineRejectsExport()
    ensures ParseLine("export KEY=value") == None
  {
    var t := "export KEY=value";
    StripOfStripped(t);
    assert MatchAssignment(t) == None by {
      assert NameCharsFrom(t, 1) == 6;
      assert SpacesFrom(t, 6) == 7;
    }
  }

  /** A name may not start with a digit. */
  lemma ParseLineRejectsDigitStart()
    ensures ParseLine("1KEY=value") == None
  {
    StripOfStripped("1KEY=value");
  }

  lemma StripOfStripped(s: string)
    requires IsStripped(s)
    ensures Strip(s) == s
  {
    assert [] + s + [] == s;
    StripUnique([], s, []);
  }

  // =====================================================================
  // Loading the `.env` file

  /** `ENV[name] ||= value` for one line: a name that is already set keeps its
      value, an empty string included, since an ENV value is never nil. */
  function ApplyLine(env: Env, line: string): Env
  {
    match ParseLine(line)
    case None => env
    case Some(a) => if a.name in env then env else env[a.name := a.value]
  }

  /** The environment after applying the lines in order. */
  function LoadedEnv(env: Env, lines: seq<string>): Env
    decreases |lines|
  {
    if lines == [] then env else LoadedEnv(ApplyLine(env, lines[0]), lines[1..])
  }

  /** `line` is well-formed and assigns `key`. */
  predicate Names(line: string, key: string) {
    ParseLine(line).Some? && ParseLine(line).value.name == key
  }

  /** The value the first well-formed line naming `key` assigns, if any. */
  function FirstAssignment(lines: seq<string>, key: string): Option<string>
    decreases |lines|
  {
    if lines == [] then None
    else match ParseLine(lines[0])
      case Some(a) =>
        if a.name == key then Some(a.value) else FirstAssignment(lines[1..], key)
      case None => FirstAssignment(lines[1..], key)
  }

  /** The loaded environment, variable by variable: a pre-set variable keeps
      its value; any other is set exactly when some well-formed line names
      it, to the value of the first such line. */
  lemma {:induction false} LoadedEnvLookup(env: Env, lines: seq<string>, key: string)
    ensures key in LoadedEnv(env, lines) <==> key in env || FirstAssignment(lines, key).Some?
    ensures key in env ==> LoadedEnv(env, lines)[key] == env[key]
    ensures key !in env && FirstAssignment(lines, key).Some? ==>
              LoadedEnv(env, lines)[key] == FirstAssignment(lines, key).value
    decreases |lines|
  {
    if lines != [] {
      LoadedEnvLookup(ApplyLine(env, lines[0]), lines[1..], key);
    }
  }

  /** A well-formed line naming `key` before which no well-formed line names
      it supplies the first assignment of `key`. */
  lemma {:induction false} FirstAssignmentAt(lines: seq<string>, key: string, i: nat, value: string)
    requires i < |lines| && ParseLine(lines[i]) == Some(Assignment(key, value))
    requires forall j :: 0 <= j < i ==> !Names(lines[j], key)
    ensures FirstAssignment(lines, key) == Some(value)
    decreases i
  {
    if i > 0 {
      assert !Names(lines[0], key);
      var rest := lines[1..];
      assert rest[i - 1] == lines[i];
      forall j | 0 <= j < i - 1 ensures !Names(rest[j], key) {
        assert rest[j] == lines[j + 1];
      }
      FirstAssignmentAt(rest, key, i - 1, value);
    }
  }

  /** A first assignment comes from some well-formed line of the file. */
  lemma {:induction false} FirstAssignmentFrom(lines: seq<string>, key: string)
    requires FirstAssignment(lines, key).Some?
    ensures exists i :: 0 <= i < |lines| && ParseLine(lines[i]) == Some(Assignment(key, FirstAssignment(lines, key).value))
    decreases |lines|
  {
    var p := ParseLine(lines[0]);
    if !(p.Some? && p.value.name == key) {
      FirstAssignmentFrom(lines[1..], key);
      var i :| 0 <= i < |lines[1..]| && ParseLine(lines[1..][i]) == Some(Assignment(key, FirstAssignment(lines, key).value));
      assert lines[1..][i] == lines[i + 1];
    } else {
      assert ParseLine(lines[0]) == Some(Assignment(key, FirstAssignment(lines, key).value));
    }
  }

  /** Pre-set variables keep their value, an empty value included. */
  lemma PresetKept(env: Env, lines: seq<string>, key: string)
    requires key in env
    ensures key in LoadedEnv(env, lines) && LoadedEnv(env, lines)[key] == env[key]
  {
    LoadedEnvLookup(env, lines, key);
  }

  /** A variable not set beforehand takes the value of its first well-formed
      line; later lines naming it change nothing. */
  lemma FirstOccurrenceWins(env: Env, lines: seq<string>, i: nat, key: string, value: string)
    requires key !in env
    requires i < |lines| && ParseLine(lines[i]) == Some(Assignment(key, value))
    requires forall j :: 0 <= j < i ==> !Names(lines[j], key)
    ensures key in LoadedEnv(env, lines) && LoadedEnv(env, lines)[key] == value
  {
    FirstAssignmentAt(lines, key, i, value);
    LoadedEnvLookup(env, lines, key);
  }

  /** Loading only adds variables, each named by a well-formed line and set
      to that line's value. */
  lemma OnlyAdds(env: Env, lines: seq<string>, key: string)
    requires key in LoadedEnv(env, lines) && key !in env
    ensures exists i :: 0 <= i < |lines| && ParseLine(lines[i]) == Some(Assignment(key, LoadedEnv(env, lines)[key]))
  {
    LoadedEnvLookup(env, lines, key);
    FirstAssignmentFrom(lines, key);
  }

  /** Loading a file in two parts is loading the first part, then the second. */
  lemma {:induction false} LoadedEnvAppend(env: Env, a: seq<string>, b: seq<string>)
    ensures LoadedEnv(env, a + b) == LoadedEnv(LoadedEnv(env, a), b)
    decreases |a|
  {
    if a == [] {
      assert a + b == b;
    } else {
      assert (a + b)[1..] == a[1..] + b;
      LoadedEnvAppend(ApplyLine(env, a[0]), a[1..], b);
    }
  }

  /** A blank line, a comment or a line that does not match the pattern can
      be removed from anywhere in the file without changing the result. */
  lemma IgnoredLine(env: Env, a: seq<string>, line: string, b: seq<string>)
    requires ParseLine(line).None?
    ensures LoadedEnv(env, a + [line] + b) == LoadedEnv(env, a + b)
  {
    LoadedEnvAppend(env, a + [line], b);
    LoadedEnvAppend(env, a, [line]);
    LoadedEnvAppend(env, a, b);
  }

  /** `load_env`: applies the lines of the `.env` file in order to `env`;
      `envFile` is None when `.env` is missing or is not a regular file. */
  method LoadEnv(env: Env, envFile: Option<seq<string>>) returns (result: Env)
    ensures envFile.None? ==> result == env
    ensures envFile.Some? ==> result == LoadedEnv(env, envFile.value)
    ensures forall key :: key in env ==> key in result && result[key] == env[key]
    ensures forall key :: key in result && key !in env ==>
              envFile.Some? && FirstAssignment(envFile.value, key) == Some(result[key])
  {
    result := env;
    if envFile.None? {
      return;
    }
    var lines := envFile.value;
    for i := 0 to |lines|
      invariant LoadedEnv(result, lines[i..]) == LoadedEnv(env, lines)
    {
      ghost var before := result;
      assert lines[i..][1..] == lines[i + 1..];
      var line := Strip(lines[i]);
      if line == [] || line[0] == '#' {
        continue;
      }
      match MatchAssignment(line) {
        case Some(m) =>
          if m.name !in result {
            result := result[m.name := GsubQuotes(m.value)];
          }
        case None =>
      }
      assert result == ApplyLine(before, lines[i]);
    }
    forall key | key in env || key in result
      ensures key in env ==> key in result && result[key] == env[key]
      ensures key in result && key !in env ==> FirstAssignment(lines, key) == Some(result[key])
    {
      LoadedEnvLookup(env, lines, key);
    }
  }

  // =====================================================================
  // The config file

  /** `load_config`: the parsed file, or the abort when the file is missing.
      The file is given already parsed, None when it does not exist. */
  function LoadConfig(file: Option<Config>): (r: Result<Config, Failure>)
    ensures r.Failure? <==> file.None?
    ensures r.Failure? ==> r.error == Abort(ConfigMissingMessage)
    ensures r.Success? ==> r.value == file.value
  {
    match file
    case None => Failure(Abort(ConfigMissingMessage))
    case Some(c) => Success(c)
  }

  // =====================================================================
  // Host resolution

  /** `.map(&:strip)`. */
  function StripEach(fs: seq<string>): (r: seq<string>)
    ensures |r| == |fs|
    ensures forall i :: 0 <= i < |r| ==> IsStripped(r[i]) && exists k :: StripsAt(fs[i], r[i], k)
  {
    var r := seq(|fs|, i requires 0 <= i < |fs| => Strip(fs[i]));
    forall i | 0 <= i < |r| ensures IsStripped(r[i]) && exists k :: StripsAt(fs[i], r[i], k) {
      StripShape(fs[i]);
    }
    r
  }

  /** The hosts named by a `HOSTS` value: split on commas, each field
      stripped. */
  function HostsFromEnv(value: string): seq<string>
  {
    StripEach(Split(value, ','))
  }

  /** `resolve_hosts`: a present `HOSTS` variable decides and the config is
      not consulted; otherwise the config's "hosts" list, whose absence is a
      KeyError; an empty list is the "No hosts configured." abort. */
  function ResolveHosts(env: Env, config: Config): (r: Result<seq<string>, Failure>)
    ensures r.Success? ==> r.value != []
    ensures r.Failure? ==> r.error == Abort(NoHostsMessage) || r.error == KeyError("hosts")
    ensures r.Failure? && r.error == KeyError("hosts") <==> "HOSTS" !in env && "hosts" !in config
    ensures "HOSTS" !in env && "hosts" in config ==>
              r == if config["hosts"] == [] then Failure(Abort(NoHostsMessage)) else Success(config["hosts"])
  {
    var hosts: Result<seq<string>, Failure> :=
      if "HOSTS" in env then Success(HostsFromEnv(env["HOSTS"]))
      else if "hosts" in config then Success(config["hosts"])
      else Failure(KeyError("hosts"));
    match hosts
    case Failure(e) => Failure(e)
    case Success(hs) => if hs == [] then Failure(Abort(NoHostsMessage)) else Success(hs)
  }

  /** With `HOSTS` present the config makes no difference; the hosts are the
      stripped comma-separated fields, none with whitespace at either end,
      and the abort happens exactly when the value is all commas (the empty
      value included). */
  lemma HostsOverride(env: Env, config: Config, other: Config)
    requires "HOSTS" in env
    ensures ResolveHosts(env, config) == ResolveHosts(env, other)
    ensures ResolveHosts(env, config) == Failure(Abort(NoHostsMessage))
            <==> forall i :: 0 <= i < |env["HOSTS"]| ==> env["HOSTS"][i] == ','
    ensures ResolveHosts(env, config).Success? ==>
              ResolveHosts(env, config).value == HostsFromEnv(env["HOSTS"])
              && forall i :: 0 <= i < |ResolveHosts(env, config).value| ==>
                   IsStripped(ResolveHosts(env, config).value[i])
  {
    SplitEmptyIff(env["HOSTS"], ',');
  }

  /** An empty `HOSTS` value gives no fields, hence the abort. */
  lemma EmptyHostsAborts(env: Env, config: Config)
    requires "HOSTS" in env && env["HOSTS"] == ""
    ensures ResolveHosts(env, config) == Failure(Abort(NoHostsMessage))
  {
  }

  /** Fields are stripped. */
  lemma HostsSpaced(config: Config)
    ensures ResolveHosts(map["HOSTS" := "a, b ,c"], config) == Success(["a", "b", "c"])
  {
    SpacedSplits();
    SpacedFieldsStrip(["a", " b ", "c"]);
  }

  lemma SpacedSplits()
    ensures Split("a, b ,c", ',') == ["a", " b ", "c"]
  {
    SplitJoin(["a", " b ", "c"], ',');
    assert Join(["a", " b ", "c"], ',') == "a, b ,c";
  }

  lemma SpacedFieldsStrip(fs: seq<string>)
    requires fs == ["a", " b ", "c"]
    ensures StripEach(fs) == ["a", "b", "c"]
  {
    StripOfStripped("a");
    StripOfStripped("c");
    assert Strip(" b ") == "b";
    var r := StripEach(fs);
    assert r[0] == "a" && r[1] == "b" && r[2] == "c";
  }

  /** A trailing comma adds no host. */
  lemma HostsTrailingComma(config: Config)
    ensures ResolveHosts(map["HOSTS" := "a,b,"], config) == Success(["a", "b"])
  {
    assert Split("a,b,", ',') == ["a", "b"] by {
      FieldsJoin(["a", "b", ""], ',');
      assert Join(["a", "b", ""], ',') == "a,b,";
      assert ["a", "b", ""][..2] == ["a", "b"];
    }
    assert StripEach(["a", "b"]) == ["a", "b"] by {
      StripOfStripped("a");
      StripOfStripped("b");
    }
  }

  /** A blank value is one empty host, which passes the emptiness check. */
  lemma HostsBlank(config: Config)
    ensures ResolveHosts(map["HOSTS" := " "], config) == Success([""])
  {
    assert Split(" ", ',') == [" "] by {
      SplitJoin([" "], ',');
    }
    assert StripEach([" "]) == [""] by {
      StripUnique(" ", "", "");
      assert " " + "" + "" == " ";
    }
  }

  /** A leading comma gives an empty first host. */
  lemma HostsLeadingComma(config: Config)
    ensures ResolveHosts(map["HOSTS" := ",a"], config) == Success(["", "a"])
  {
    assert Split(",a", ',') == ["", "a"] by {
      SplitJoin(["", "a"], ',');
      assert Join(["", "a"], ',') == ",a";
    }
    assert StripEach(["", "a"]) == ["", "a"] by {
      StripOfStripped("");
      StripOfStripped("a");
    }
  }

  /** Commas only give no hosts, hence the abort. */
  lemma HostsOnlyCommas(config: Config)
    ensures ResolveHosts(map["HOSTS" := ",,"], config) == Failure(Abort(NoHostsMessage))
  {
    SplitEmptyIff(",,", ',');
  }

  /** A `HOSTS` value already in the environment is not replaced by the
      `.env` file, so it still decides the hosts after loading. */
  lemma PresetHostsWin(env: Env, lines: seq<string>, config: Config)
    requires "HOSTS" in env
    ensures ResolveHosts(LoadedEnv(env, lines), config) == ResolveHosts(env, config)
  {
    PresetKept(env, lines, "HOSTS");
  }

  // =====================================================================
  // Safe paths: path.match?(/\A[\w.\/-]+\z/)

  /** `\w` (ASCII letters, digits, underscore), `.`, `/` and `-`. */
  predicate IsSafeChar(c: char) {
    'a' <= c <= 'z' || 'A' <= c <= 'Z' || '0' <= c <= '9' || c == '_'
    || c == '.' || c == '/' || c == '-'
  }

  /** The anchored match of `[\w.\/-]+`: one allowed character, followed by
      either the end of the string or another match. */
  predicate SafePath(path: string)
    decreases |path|
  {
    |path| > 0 && IsSafeChar(path[0]) && (|path| == 1 || SafePath(path[1..]))
  }

  /** A path is safe exactly when it is non-empty and every character is on
      the allow-list. */
  lemma {:induction false} SafePathAllowList(path: string)
    ensures SafePath(path) <==> |path| > 0 && forall i :: 0 <= i < |path| ==> IsSafeChar(path[i])
    decreases |path|
  {
    if |path| > 1 {
      SafePathAllowList(path[1..]);
      assert forall i :: 0 < i < |path| ==> path[i] == path[1..][i - 1];
    }
  }

  /** Strings the check rejects: the empty string, a space, and a trailing
      line feed (the pattern ends at the very end of the string). */
  lemma SafePathRejects()
    ensures !SafePath("")
    ensures !SafePath("a b")
    ensures !SafePath("a\n")
  {
    assert "a b"[1..] == " b";
    assert "a\n"[1..] == "\n";
  }

  lemma SafePathAcceptsFileName()
    ensures SafePath("a/b-c_1.txt")
  {
    var p := "a/b-c_1.txt";
    assert forall i :: 0 <= i < |p| ==> IsSafeChar(p[i]);
    SafePathAllowList(p);
  }

  /** The check restricts characters only, so it lets a parent-directory
      path through. */
  lemma SafePathAcceptsTraversal()
    ensures SafePath("../etc/passwd")
  {
    var p := "../etc/passwd";
    assert forall i :: 0 <= i < |p| ==> IsSafeChar(p[i]);
    SafePathAllowList(p);
  }

}
