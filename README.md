# Clawkit helpers in Dafny

This project models the helper module `Clawkit` (`lib/clawkit.rb`). The module has four helpers:

- `load_env` reads a `.env` file. It sets each `NAME=value` variable that is not already in the process environment.
- `load_config` returns the parsed `config.yml`, or aborts with a message when the file is missing.
- `resolve_hosts` gets the list of target hosts. It prefers a `HOSTS` environment variable over the configuration's `hosts` list, and it aborts when the list is empty.
- `safe_path?` accepts a string only when every character is a word character, `.`, `/` or `-`.

The model is in three modules:

- `Wrappers` holds `Option` and `Result`.
- `RubyString` models the two Ruby `String` methods the helpers use:
  - `String#strip` (`Strip`). Its whitespace is NUL, tab, line feed, vertical tab, form feed, carriage return and space.
  - `String#split(",")` (`Split`). An empty receiver gives no fields. Trailing empty fields are dropped; leading and interior ones are kept.
- `Clawkit` models the four helpers:
  - The process environment is a `map<string, string>` passed in and returned.
  - A configuration is an already-parsed `map<string, seq<string>>`.
  - `abort` and the `KeyError` from `Hash#fetch` are the two `Failure` values of a `Result`.

`load_env` is written the way the Ruby is written: a `method` with one loop over the file's lines that updates the environment map. It is proved equal to `LoadedEnv`, a left fold of `ApplyLine` over the lines. The lemmas about the loading are stated on `LoadedEnv`.

The line pattern `\A([A-Za-z_][A-Za-z0-9_]*)\s*=\s*(.*)\z` is `MatchAssignment`:

- Name characters, `\s` and `=` are disjoint, so the name capture and the first `\s` run are fixed: each is the longest run.
- The second `\s` run overlaps `.`, so a line like `A= x` matches with more than one split between the two. Ruby tries the longest `\s` run first. If that attempt fails, every shorter one fails too, because the rest of the line still holds the same line feed. So the value capture starts after the longest `\s` run (`v[SpacesFrom(v, 0)..]` in `MatchComplete`).
- `.` does not match a line feed, so a value that still holds one fails the match.
- The quote substitution `gsub(/\A['"]|['"]\z/, "")` is modelled as String#gsub scans the string (`GsubQuotes`). It is proved to be two independent trims (`TrimQuotes`).

An empty `HOSTS` value does not give one empty host:

- In Ruby, `"".split(",")` is `[]`. So an empty `HOSTS` value, or one made only of commas, gives no hosts, and `resolve_hosts` aborts with "No hosts configured.". `EmptyHostsAborts` and `HostsOverride` state this.
- A `HOSTS` value of one blank, `" "`, is what gives the single empty host (`HostsBlank`).

## Model

| member | source | states |
|---|---|---|
| Clawkit.ParseLine | lib/clawkit.rb:14-17 | The per-line step of `load_env`. It has no contract of its own; `ParseLineSpec` states its meaning. |
| Clawkit.MatchAssignment | lib/clawkit.rb:16 | The line pattern. It has no contract of its own; `MatchSound` and `MatchComplete` state its meaning in both directions. |
| Clawkit.GsubQuotes | lib/clawkit.rb:17 | The quote substitution as String#gsub scans the value. It has no contract of its own; `GsubIsTrim` states its meaning. |
| Clawkit.ApplyLine | lib/clawkit.rb:17 | One line's `ENV[name] or-assign value`. It has no contract of its own; `LoadedEnvLookup` and `PresetKept` state its meaning. |
| Clawkit.LoadedEnv | lib/clawkit.rb:13-18 | The loop of `load_env` as a fold over the lines. It has no contract of its own; `LoadedEnvLookup` states its meaning key by key. |
| Clawkit.HostsFromEnv | lib/clawkit.rb:34 | `ENV["HOSTS"].split(",").map(&:strip)`. It has no contract of its own; `HostsOverride` states its meaning. |
| Clawkit.SafePath | lib/clawkit.rb:43-45 | `safe_path?`. It has no contract of its own; `SafePathAllowList` states its meaning. |
| RubyString.Strip | lib/clawkit.rb:14 | String#strip. It has no contract of its own; `StripShape` and `StripUnique` state its meaning. |
| RubyString.Split | lib/clawkit.rb:34 | String#split with a one-character separator other than a space. Its contract requires that separator; `SplitShape` and `SplitJoin` state its meaning. |
| Clawkit.LoadEnv | lib/clawkit.rb:9-20 | With no file the environment is unchanged. Otherwise the result is the fold `LoadedEnv` of the lines in order. Every pre-set variable keeps its value. Every new variable holds the value of the first well-formed line naming it. |
| Clawkit.LoadedEnvLookup | lib/clawkit.rb:13-19 | Variable by variable: a key is in the loaded environment exactly when it was pre-set or some line assigns it. A pre-set key keeps its value; otherwise the key has the value of its first assignment. |
| Clawkit.PresetKept | lib/clawkit.rb:17 | The or-assignment never overwrites a variable that is already set, an empty value included. |
| Clawkit.FirstOccurrenceWins | lib/clawkit.rb:13-17 | An unset variable takes the value of the first well-formed line naming it; later lines naming it change nothing. |
| Clawkit.OnlyAdds | lib/clawkit.rb:13-17 | Every variable the loader adds comes from some well-formed line of the file, with that line's value. |
| Clawkit.LoadedEnvAppend | lib/clawkit.rb:13 | Loading `a + b` is loading `a` and then `b`: the lines are processed in order, one at a time. |
| Clawkit.IgnoredLine | lib/clawkit.rb:15-18 | A blank line, a comment or a line that does not match can be removed from any position without changing the loaded environment. |
| Clawkit.FirstAssignmentAt | lib/clawkit.rb:13-17 | A matching line with no earlier line naming the same key supplies that key's first assignment. |
| Clawkit.FirstAssignmentFrom | lib/clawkit.rb:13-17 | A first assignment is always the parse of some line of the file. |
| Clawkit.ParseLineSpec | lib/clawkit.rb:14-17 | Blank and `#` lines give nothing. Any other line assigns exactly when its stripped form matches the pattern, so the comment skip hides no match. The name is the captured identifier; the value is the capture with one leading and one trailing quote trimmed. |
| Clawkit.MatchSound | lib/clawkit.rb:16 | A match splits the stripped line into an identifier, a `\s*=\s*` separator and a value. The value holds no line feed and does not start with `\s`. |
| Clawkit.MatchComplete | lib/clawkit.rb:16 | Every line made of an identifier, `\s` runs around `=`, and a line-feed-free value matches. The name is the identifier; the value is the rest with its leading `\s` run moved into the separator. |
| Clawkit.MatchAt | lib/clawkit.rb:16 | The match result read off the positions where the name run, the `=` and the second `\s` run sit. |
| Clawkit.RunsEnd | lib/clawkit.rb:16 | The greedy name and `\s` runs end where the next character of another class begins. |
| Clawkit.LineLayout | lib/clawkit.rb:16 | The positions of name, separator and value in a line built from them. |
| Clawkit.NameRun | lib/clawkit.rb:16 | Every character the name run covers is in `[A-Za-z0-9_]`. |
| Clawkit.SpaceRun | lib/clawkit.rb:16 | Every character a `\s` run covers is `\s`. |
| Clawkit.NameCharsFrom | lib/clawkit.rb:16 | The name run ends within the line, at a character outside `[A-Za-z0-9_]` or at the end. |
| Clawkit.SpacesFrom | lib/clawkit.rb:16 | The `\s` run ends within the line, at a non-`\s` character or at the end. |
| Clawkit.GsubIsTrim | lib/clawkit.rb:17 | The substitution as String#gsub scans the value equals removing one leading quote and, independently, one trailing quote, whether or not they match. |
| Clawkit.TrimQuotes | lib/clawkit.rb:17 | Quote removal shortens the value by at most two characters. |
| Clawkit.QuoteExamples | lib/clawkit.rb:17 | Worked substitutions: a lone quote becomes empty; `'x"` becomes `x`; three quotes leave one; an unmatched leading quote goes. |
| Clawkit.ParseLineQuoted | lib/clawkit.rb:14-17 | An indented, line-feed-terminated `FOO = "bar baz"` assigns `bar baz` to `FOO`. |
| Clawkit.ParseLineMismatchedQuotes | lib/clawkit.rb:17 | A value with mismatched quotes loses both of them. |
| Clawkit.ParseLineEmptyValue | lib/clawkit.rb:16-17 | `KEY=` assigns the empty string. |
| Clawkit.ParseLineRejectsComment | lib/clawkit.rb:15 | A `#` line is skipped. |
| Clawkit.ParseLineRejectsExport | lib/clawkit.rb:16 | `export KEY=value` does not match the pattern. |
| Clawkit.ParseLineRejectsDigitStart | lib/clawkit.rb:16 | A name starting with a digit does not match. |
| Clawkit.LoadConfig | lib/clawkit.rb:23-29 | A missing file is the abort with the message pointing at `config.yml.sample`; a present file gives its parsed contents. |
| Clawkit.ResolveHosts | lib/clawkit.rb:32-40 | A success is a non-empty host list. A failure is the "No hosts configured." abort or the KeyError for `hosts`. The KeyError happens exactly when neither `HOSTS` nor `hosts` is present. Without `HOSTS` the result is the config's list, or the abort when that list is empty. |
| Clawkit.StripEach | lib/clawkit.rb:34 | `map(&:strip)` keeps the number of fields. Each result is stripped, with no whitespace at either end, and sits in its field with only whitespace around it. |
| Clawkit.HostsOverride | lib/clawkit.rb:33-34 | With `HOSTS` present the configuration makes no difference. The abort happens exactly when the value is all commas (the empty value included). Otherwise the hosts are the stripped comma-separated fields, none with whitespace at either end. |
| Clawkit.EmptyHostsAborts | lib/clawkit.rb:33-38 | `HOSTS=""` gives no hosts and hence the abort. |
| Clawkit.HostsSpaced | lib/clawkit.rb:34 | `HOSTS="a, b ,c"` gives `["a", "b", "c"]` whatever the configuration. |
| Clawkit.HostsTrailingComma | lib/clawkit.rb:34 | A trailing comma adds no host. |
| Clawkit.HostsBlank | lib/clawkit.rb:34-38 | `HOSTS=" "` gives one empty host, which passes the emptiness check. |
| Clawkit.HostsLeadingComma | lib/clawkit.rb:34 | A leading comma gives an empty first host. |
| Clawkit.HostsOnlyCommas | lib/clawkit.rb:34-38 | A value of commas only gives no hosts, hence the abort. |
| Clawkit.PresetHostsWin | lib/clawkit.rb:17 | A `HOSTS` variable set before loading still decides the hosts after `.env` is loaded. |
| Clawkit.SafePathAllowList | lib/clawkit.rb:43-45 | A path is safe exactly when it is non-empty and every character is an ASCII letter, digit, `_`, `.`, `/` or `-`. |
| Clawkit.SafePathRejects | lib/clawkit.rb:44 | The empty string, a string with a space and one ending in a line feed are rejected (`\z` is the very end). |
| Clawkit.SafePathAcceptsFileName | lib/clawkit.rb:44 | An ordinary relative file name is accepted. |
| Clawkit.SafePathAcceptsTraversal | lib/clawkit.rb:44 | `../etc/passwd` is accepted: the check restricts characters, not path components. |
| RubyString.LStripShape | lib/clawkit.rb:14 | Left strip removes exactly a leading whitespace run: the result is a suffix and the removed prefix is all whitespace. A non-empty result does not start with whitespace. |
| RubyString.RStripShape | lib/clawkit.rb:14 | Right strip removes exactly a trailing whitespace run, symmetrically. |
| RubyString.StripShape | lib/clawkit.rb:14 | `strip` gives a stripped contiguous piece of the input, with only whitespace around it. |
| RubyString.StripEnds | lib/clawkit.rb:14 | The result of `strip` has no whitespace at either end. |
| RubyString.StripMargins | lib/clawkit.rb:14 | The result of `strip` sits in the input with whitespace margins on both sides. |
| RubyString.StripUnique | lib/clawkit.rb:14 | Whitespace, then a stripped string, then whitespace, strips to that string. |
| RubyString.StripIdempotent | lib/clawkit.rb:14 | Stripping twice is stripping once. |
| RubyString.LStripMargin | lib/clawkit.rb:14 | A whitespace prefix does not change the left strip. |
| RubyString.RStripMargin | lib/clawkit.rb:14 | A whitespace suffix does not change the right strip of a stripped string. |
| RubyString.Fields | lib/clawkit.rb:34 | The raw split has at least one field and no field holds the separator. |
| RubyString.DropTrailingEmpty | lib/clawkit.rb:34 | Trailing empty fields are dropped and nothing else changes: the result is a prefix and the last kept field is non-empty. |
| RubyString.JoinFields | lib/clawkit.rb:34 | Joining the raw fields with the separator gives back the string. |
| RubyString.FieldsJoin | lib/clawkit.rb:34 | Splitting a join of separator-free fields gives back the fields. |
| RubyString.FieldsPrefix | lib/clawkit.rb:34 | A separator-free prefix becomes the start of the first raw field; the other fields are unchanged. |
| RubyString.SplitIsDropOfFields | lib/clawkit.rb:34 | The empty-receiver case of `split` agrees with dropping trailing empty fields. |
| RubyString.FieldsAllEmpty | lib/clawkit.rb:34 | All raw fields are empty exactly when the string is all separators. |
| RubyString.SplitEmptyIff | lib/clawkit.rb:34 | `split` gives no fields exactly when the string is all separators, the empty string included. |
| RubyString.JoinEmptyTail | lib/clawkit.rb:34 | Joining fields followed by empty fields appends one separator per empty field. |
| RubyString.JoinEmptyRun | lib/clawkit.rb:34 | Joining `k` empty fields gives `k - 1` separators. |
| RubyString.SplitShape | lib/clawkit.rb:34 | `split` gives separator-free fields whose last one is non-empty. Joined, they form a prefix of the string, and the rest of the string is separators. |
| RubyString.SplitJoin | lib/clawkit.rb:34 | Splitting a join of separator-free fields whose last field is non-empty gives back the fields. |

## Left out

- Reading files: the `.env` file is given as its lines (`Some(lines)`), or `None` when it is missing or is not a regular file. Building `PROJECT_DIR` and the paths from it is not modelled.
- YAML parsing of `config.yml`: the configuration is given already parsed. A malformed document, and a `hosts` entry that is not a list of strings, are not modelled.
- Process exit: `abort` is the `Abort` failure value carrying its message. Writing it to standard error and the exit status are not modelled.
- The process environment is a plain map. ENV's refusal of NUL bytes, case-insensitive names on some platforms and the visibility of changes to child processes are not modelled.
- Encodings: strings are sequences of characters. Invalid byte sequences, which Ruby's regex match rejects with an error, are not modelled.
