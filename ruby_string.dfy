/** The two core-library string operations lib/clawkit.rb relies on:
    String#strip, and String#split with a one-character separator and no
    limit. Strings are sequences of characters; no encoding is modelled. */
module RubyString {

  /** The characters String#strip removes from either end: NUL, horizontal
      tab, line feed, vertical tab, form feed, carriage return and space. */
  predicate IsStripSpace(c: char) {
    c == '\0' || c == ' ' || '\t' <= c <= '\r'
  }

  predicate AllStripSpace(s: string) {
    forall i :: 0 <= i < |s| ==> IsStripSpace(s[i])
  }

  /** `s` has no strippable character at either end. */
  predicate IsStripped(s: string) {
    s == [] || (!IsStripSpace(s[0]) && !IsStripSpace(s[|s| - 1]))
  }

  /** String#lstrip: `s` without its leading run of whitespace. */
  function LStrip(s: string): string
  {
    if |s| > 0 && IsStripSpace(s[0]) then LStrip(s[1..]) else s
  }

  /** String#rstrip: `s` without its trailing run of whitespace. */
  function RStrip(s: string): string
  {
    if |s| > 0 && IsStripSpace(s[|s| - 1]) then RStrip(s[..|s| - 1]) else s
  }

  /** LStrip removes a prefix made of whitespace only, and all of it. */
  lemma {:induction false} LStripShape(s: string)
    ensures |LStrip(s)| <= |s| && LStrip(s) == s[|s| - |LStrip(s)|..]
    ensures forall i :: 0 <= i < |s| - |LStrip(s)| ==> IsStripSpace(s[i])
    ensures LStrip(s) != [] ==> !IsStripSpace(LStrip(s)[0])
    decreases |s|
  {
    if |s| > 0 && IsStripSpace(s[0]) {
      LStripShape(s[1..]);
      assert forall i :: 0 < i < |s| - |LStrip(s)| ==> s[i] == s[1..][i - 1];
    }
  }

  /** RStrip removes a suffix made of whitespace only, and all of it. */
  lemma {:induction false} RStripShape(s: string)
    ensures |RStrip(s)| <= |s| && RStrip(s) == s[..|RStrip(s)|]
    ensures forall i :: |RStrip(s)| <= i < |s| ==> IsStripSpace(s[i])
    ensures RStrip(s) != [] ==> !IsStripSpace(RStrip(s)[|RStrip(s)| - 1])
    decreases |s|
  {
    if |s| > 0 && IsStripSpace(s[|s| - 1]) {
      RStripShape(s[..|s| - 1]);
    }
  }

  /** String#strip: `s` with its leading and trailing whitespace removed. */
  function Strip(s: string): string
  {
    RStrip(LStrip(s))
  }

  /** The result of Strip sits in `s` between two all-whitespace margins and
      has no whitespace at either end. */
  lemma StripShape(s: string)
    ensures |Strip(s)| <= |s| && IsStripped(Strip(s))
    ensures exists i :: StripsAt(s, Strip(s), i)
  {
    StripEnds(s);
    StripMargins(s);
  }

  lemma StripEnds(s: string)
    ensures |Strip(s)| <= |s| && IsStripped(Strip(s))
  {
    var l := LStrip(s);
    LStripShape(s);
    RStripShape(l);
    assert RStrip(l) != [] ==> RStrip(l)[0] == l[0];
  }

  lemma StripMargins(s: string)
    ensures StripsAt(s, Strip(s), |s| - |LStrip(s)|)
  {
    var l := LStrip(s);
    var r := RStrip(l);
    LStripShape(s);
    RStripShape(l);
    var i := |s| - |l|;
    assert s[i..] == l;
    forall k | i + |r| <= k < |s| ensures IsStripSpace(s[k]) {
      assert s[k] == l[k - i];
    }
    assert s[i..i + |r|] == r;
  }

  /** `r` occurs in `s` at offset `i` with only whitespace before and after. */
  predicate StripsAt(s: string, r: string, i: int) {
    && 0 <= i <= |s| - |r|
    && s[i..i + |r|] == r
    && (forall k :: 0 <= k < i ==> IsStripSpace(s[k]))
    && (forall k :: i + |r| <= k < |s| ==> IsStripSpace(s[k]))
  }

  /** The margins Strip removes are determined: whatever all-whitespace
      margins are put around a stripped string, Strip takes them off. */
  lemma {:induction false} StripUnique(a: string, m: string, b: string)
    requires AllStripSpace(a) && AllStripSpace(b) && IsStripped(m)
    ensures Strip(a + m + b) == m
  {
    assert a + m + b == a + (m + b);
    LStripMargin(a, m + b);
    if m == [] {
      assert m + b == b + [];
      LStripMargin(b, []);
    } else {
      assert (m + b)[0] == m[0];
      RStripMargin(m, b);
    }
  }

  /** A whitespace prefix makes no difference to LStrip. */
  lemma {:induction false} LStripMargin(a: string, t: string)
    requires AllStripSpace(a)
    ensures LStrip(a + t) == LStrip(t)
    decreases |a|
  {
    if a == [] {
      assert a + t == t;
    } else {
      assert (a + t)[1..] == a[1..] + t;
      LStripMargin(a[1..], t);
    }
  }

  lemma {:induction false} RStripMargin(m: string, b: string)
    requires AllStripSpace(b) && IsStripped(m)
    ensures RStrip(m + b) == m
    decreases |b|
  {
    if b == [] {
      assert m + b == m;
      if m != [] {
        assert !IsStripSpace(m[|m| - 1]);
      } else {
        assert RStrip(m) == [];
      }
    } else {
      var b' := b[..|b| - 1];
      assert (m + b)[..|m + b| - 1] == m + b';
      RStripMargin(m, b');
    }
  }

  /** Stripping twice is stripping once. */
  lemma StripIdempotent(s: string)
    ensures Strip(Strip(s)) == Strip(s)
  {
    var m := Strip(s);
    StripShape(s);
    assert [] + m + [] == m;
    StripUnique([], m, []);
  }

  // ---------------------------------------------------------------------
  // String#split with a one-character separator

  /** Joins fields with the separator between consecutive fields (the
      inverse of Fields). */
  function Join(fs: seq<string>, sep: char): string
  {
    if |fs| == 0 then []
    else if |fs| == 1 then fs[0]
    else fs[0] + [sep] + Join(fs[1..], sep)
  }

  /** Every field of `s` between separators, in order, with empty fields
      kept, including trailing ones: `k` separators give `k + 1` fields. */
  function Fields(s: string, sep: char): (r: seq<string>)
    ensures |r| >= 1
    ensures forall i :: 0 <= i < |r| ==> sep !in r[i]
  {
    if s == [] then [[]]
    else
      var rest := Fields(s[1..], sep);
      if s[0] == sep then [[]] + rest
      else [[s[0]] + rest[0]] + rest[1..]
  }

  /** Removes the empty fields at the end, as split does when no limit is
      given. */
  function DropTrailingEmpty(fs: seq<string>): (r: seq<string>)
    ensures |r| <= |fs| && r == fs[..|r|]
    ensures forall i :: |r| <= i < |fs| ==> fs[i] == []
    ensures r != [] ==> r[|r| - 1] != []
  {
    if |fs| > 0 && fs[|fs| - 1] == [] then
      var r := DropTrailingEmpty(fs[..|fs| - 1]);
      assert fs[..|fs| - 1][..|r|] == fs[..|r|];
      r
    else
      fs
  }

  /** `s.split(sep)` for a one-character `sep` other than a space (a single
      space selects the awk-style split instead): an empty receiver gives no
      fields; otherwise the fields between separators, trailing empty fields
      removed, leading and interior ones kept. */
  function Split(s: string, sep: char): seq<string>
    requires sep != ' '
  {
    if s == [] then [] else DropTrailingEmpty(Fields(s, sep))
  }

  /** Joining the fields gives back the string. */
  lemma {:induction false} JoinFields(s: string, sep: char)
    ensures Join(Fields(s, sep), sep) == s
    decreases |s|
  {
    if s != [] {
      var rest := Fields(s[1..], sep);
      JoinFields(s[1..], sep);
      if s[0] == sep {
        assert Fields(s, sep)[1..] == rest;
      } else if |rest| == 1 {
        assert Fields(s, sep) == [[s[0]] + rest[0]];
      } else {
        var fs := Fields(s, sep);
        assert fs[1..] == rest[1..];
        assert Join(rest, sep) == rest[0] + [sep] + Join(rest[1..], sep);
        assert Join(fs, sep) == ([s[0]] + rest[0]) + [sep] + Join(rest[1..], sep);
      }
    }
  }

  /** A separator-free prefix becomes the start of the first field. */
  lemma {:induction false} FieldsPrefix(x: string, t: string, sep: char)
    requires sep !in x
    ensures Fields(x + t, sep) == [x + Fields(t, sep)[0]] + Fields(t, sep)[1..]
    decreases |x|
  {
    if x == [] {
      assert x + t == t;
      assert x + Fields(t, sep)[0] == Fields(t, sep)[0];
      assert Fields(t, sep) == [Fields(t, sep)[0]] + Fields(t, sep)[1..];
    } else {
      assert (x + t)[1..] == x[1..] + t;
      assert x[0] in x;
      FieldsPrefix(x[1..], t, sep);
      assert [x[0]] + (x[1..] + Fields(t, sep)[0]) == x + Fields(t, sep)[0];
    }
  }

  /** Splitting joined separator-free fields gives back the fields. */
  lemma {:induction false} FieldsJoin(fs: seq<string>, sep: char)
    requires |fs| >= 1
    requires forall i :: 0 <= i < |fs| ==> sep !in fs[i]
    ensures Fields(Join(fs, sep), sep) == fs
    decreases |fs|
  {
    if |fs| == 1 {
      FieldsPrefix(fs[0], [], sep);
      assert fs[0] + [] == fs[0];
    } else {
      var tail := Join(fs[1..], sep);
      FieldsJoin(fs[1..], sep);
      assert Fields([sep] + tail, sep) == [[]] + fs[1..] by {
        assert ([sep] + tail)[1..] == tail;
      }
      FieldsPrefix(fs[0], [sep] + tail, sep);
      assert fs[0] + [sep] + tail == fs[0] + ([sep] + tail);
      assert fs[0] + [] == fs[0];
    }
  }

  /** The special case for an empty receiver agrees with the general rule. */
  lemma SplitIsDropOfFields(s: string, sep: char)
    requires sep != ' '
    ensures Split(s, sep) == DropTrailingEmpty(Fields(s, sep))
  {
    if s == [] {
      assert DropTrailingEmpty([[]]) == DropTrailingEmpty([]);
    }
  }

  /** All fields are empty exactly when every character is a separator. */
  lemma {:induction false} FieldsAllEmpty(s: string, sep: char)
    ensures (forall i :: 0 <= i < |Fields(s, sep)| ==> Fields(s, sep)[i] == [])
            <==> (forall i :: 0 <= i < |s| ==> s[i] == sep)
    decreases |s|
  {
    if s != [] {
      FieldsAllEmpty(s[1..], sep);
      var rest := Fields(s[1..], sep);
      if s[0] == sep {
        var fs := Fields(s, sep);
        assert fs == [[]] + rest;
        assert forall i :: 0 < i < |s| ==> s[i] == s[1..][i - 1];
        assert forall i :: 0 < i < |fs| ==> fs[i] == rest[i - 1];
        assert forall i :: 0 <= i < |rest| ==> rest[i] == fs[i + 1];
        assert forall i :: 0 <= i < |s[1..]| ==> s[1..][i] == s[i + 1];
      } else {
        assert Fields(s, sep)[0] != [];
      }
    }
  }

  /** `s.split(sep)` is empty exactly when `s` consists of separators only
      (in particular when `s` is empty). */
  lemma SplitEmptyIff(s: string, sep: char)
    requires sep != ' '
    ensures Split(s, sep) == [] <==> forall i :: 0 <= i < |s| ==> s[i] == sep
  {
    SplitIsDropOfFields(s, sep);
    FieldsAllEmpty(s, sep);
    var fs := Fields(s, sep);
    var r := DropTrailingEmpty(fs);
    if r != [] {
      assert fs[|r| - 1] != [];
    }
  }

  /** Joining fields followed by empty fields appends one separator per
      empty field. */
  lemma {:induction false} JoinEmptyTail(r: seq<string>, k: nat, sep: char)
    requires r != []
    ensures Join(r + seq(k, _ => []), sep) == Join(r, sep) + seq(k, _ => sep)
    decreases |r|
  {
    var e: seq<string> := seq(k, _ => []);
    if |r| == 1 {
      JoinEmptyRun(k, sep);
      if k > 0 {
        assert (r + e)[1..] == e;
        assert Join(r + e, sep) == r[0] + [sep] + Join(e, sep);
        assert [sep] + seq(k - 1, _ => sep) == seq(k, _ => sep);
      } else {
        assert r + e == r;
      }
    } else {
      assert (r + e)[1..] == r[1..] + e;
      JoinEmptyTail(r[1..], k, sep);
    }
  }

  lemma {:induction false} JoinEmptyRun(k: nat, sep: char)
    ensures k > 0 ==> Join(seq(k, _ => []), sep) == seq(k - 1, _ => sep)
    decreases k
  {
    if k > 1 {
      JoinEmptyRun(k - 1, sep);
      var e: seq<string> := seq(k, _ => []);
      assert e[1..] == seq(k - 1, _ => []);
      assert [] + [sep] + seq(k - 2, _ => sep) == seq(k - 1, _ => sep);
    }
  }

  /** What `s.split(sep)` gives, stated independently of how it is computed:
      separator-free fields, the last one non-empty, which joined with the
      separator give `s` up to a run of separators at its end. */
  lemma SplitShape(s: string, sep: char)
    requires sep != ' '
    ensures forall i :: 0 <= i < |Split(s, sep)| ==> sep !in Split(s, sep)[i]
    ensures Split(s, sep) != [] ==> Split(s, sep)[|Split(s, sep)| - 1] != []
    ensures |Join(Split(s, sep), sep)| <= |s|
    ensures s[..|Join(Split(s, sep), sep)|] == Join(Split(s, sep), sep)
    ensures forall i :: |Join(Split(s, sep), sep)| <= i < |s| ==> s[i] == sep
  {
    SplitIsDropOfFields(s, sep);
    var fs := Fields(s, sep);
    var r := Split(s, sep);
    JoinFields(s, sep);
    if r == [] {
      SplitEmptyIff(s, sep);
    } else {
      var k := |fs| - |r|;
      assert fs == r + seq(k, _ => []);
      JoinEmptyTail(r, k, sep);
      assert s == Join(r, sep) + seq(k, _ => sep);
    }
  }

  /** Round trip: splitting the join of separator-free fields whose last
      field is non-empty gives back those fields. */
  lemma SplitJoin(fs: seq<string>, sep: char)
    requires sep != ' '
    requires fs != [] && fs[|fs| - 1] != []
    requires forall i :: 0 <= i < |fs| ==> sep !in fs[i]
    ensures Split(Join(fs, sep), sep) == fs
  {
    SplitIsDropOfFields(Join(fs, sep), sep);
    FieldsJoin(fs, sep);
  }
}
