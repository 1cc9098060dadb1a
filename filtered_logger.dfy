/** Redaction of personal data in log lines: in a message made of
    `separator`-delimited `name=value` segments, the value of every segment
    that names a listed field is replaced by the redaction.

    Two definitions are given. `Substitute` follows the substitution as the
    regular expression engine performs it, scanning the message left to
    right; `FilterDatum` splits the message into segments, redacts each and
    joins them again. `SubstituteIsFilterDatum` proves them equal. */
module FilteredLogger {
  import opened Common
  import opened Seqs

  /** The alternatives of the field group: the field names, or the empty
      name alone when there are none (joining no names gives ""). */
  function Names(fields: seq<string>): (r: seq<string>)
    ensures |r| >= 1
    ensures |fields| > 0 ==> r == fields
    ensures |fields| == 0 ==> r == [""]
  {
    if |fields| == 0 then [""] else fields
  }

  /** The first alternative whose name followed by '=' starts `s`, as the
      alternation of the field group tries its names in order. */
  function FieldAt(names: seq<string>, s: string): (r: Option<nat>)
    ensures r.Some? ==> r.value < |names| && names[r.value] + "=" <= s
    ensures r.Some? ==> forall j :: 0 <= j < r.value ==> !(names[j] + "=" <= s)
    ensures r.None? <==> forall i :: 0 <= i < |names| ==> !(names[i] + "=" <= s)
  {
    FirstIndex(names, f => f + "=" <= s)
  }

  /** One segment after redaction: `name=redaction` when it begins with a
      listed name and '=', otherwise the segment itself. */
  function RedactSegment(names: seq<string>, redaction: string, segment: string): (r: string)
    ensures r != segment ==>
      exists i :: 0 <= i < |names| && names[i] + "=" <= segment && r == names[i] + "=" + redaction
    ensures (forall i :: 0 <= i < |names| ==> !(names[i] + "=" <= segment)) ==> r == segment
  {
    match FieldAt(names, segment)
    case None => segment
    case Some(i) => names[i] + "=" + redaction
  }

  /** Every part redacted, in order. */
  function RedactAll(names: seq<string>, redaction: string, parts: seq<string>): (r: seq<string>)
    ensures |r| == |parts|
    ensures forall i :: 0 <= i < |parts| ==> r[i] == RedactSegment(names, redaction, parts[i])
  {
    if |parts| == 0 then []
    else [RedactSegment(names, redaction, parts[0])] + RedactAll(names, redaction, parts[1..])
  }

  /** Split into segments, redact each, join again. This is what
      `filter_datum` computes for a one-character separator other than '='
      and field names without the separator (`SubstituteIsFilterDatum`). A
      message without '=' has nothing to redact. */
  function FilterDatum(fields: seq<string>, redaction: string, message: string, separator: char): (r: string)
    ensures '=' !in message ==> r == message
  {
    NoEqualsUnchanged(fields, redaction, message, separator);
    Join(RedactAll(Names(fields), redaction, Split(message, separator)), separator)
  }

  /** Without '=' no segment begins with a name and '=', so every segment is
      kept. */
  lemma NoEqualsUnchanged(fields: seq<string>, redaction: string, message: string, separator: char)
    ensures '=' !in message ==>
      Join(RedactAll(Names(fields), redaction, Split(message, separator)), separator) == message
  {
    if '=' !in message {
      var parts := Split(message, separator);
      SplitWithout(message, separator, '=');
      var red := RedactAll(Names(fields), redaction, parts);
      forall i | 0 <= i < |parts| ensures red[i] == parts[i] {
        NoEqualsKept(Names(fields), redaction, parts[i]);
      }
      assert red == parts;
      JoinSplit(message, separator);
    }
  }

  /** A segment without '=' is kept. */
  lemma NoEqualsKept(names: seq<string>, redaction: string, segment: string)
    requires '=' !in segment
    ensures RedactSegment(names, redaction, segment) == segment
  {
    NoNameAt(names, segment);
  }

  /** No name followed by '=' starts a text without '='. */
  lemma NoNameAt(names: seq<string>, s: string)
    requires '=' !in s
    ensures FieldAt(names, s).None?
  {
    forall i | 0 <= i < |names| ensures !(names[i] + "=" <= s) {
      if |names[i]| < |s| {
        assert s[|names[i]|] != '=';
      }
    }
  }

  // ---------------------------------------------------------------------
  // The substitution as the regex engine performs it.

  /** Where a lazy `.*?` followed by `(?=separator|$)` stops when started at
      `from`: the first separator at or after `from`, or the end. */
  function ValueEnd(s: string, from: nat, separator: char): (q: nat)
    requires from <= |s|
    ensures from <= q <= |s|
    ensures q == |s| || s[q] == separator
    ensures forall j :: from <= j < q ==> s[j] != separator
    decreases |s| - from
  {
    if from == |s| || s[from] == separator then from else ValueEnd(s, from + 1, separator)
  }

  /** `re.sub` of the pattern `(?:(?<=sep)|^)(names)=.*?(?=sep|$)` with the
      replacement `name=redaction` on the rest `s` of the message;
      `anchored` says whether the position before `s` is the start of the
      message or a separator. A match is tried at each position; after a
      match the scan resumes where it ended, otherwise one character is
      copied. */
  function Substitute(names: seq<string>, redaction: string, separator: char,
                      s: string, anchored: bool): string
    decreases |s|
  {
    if |s| == 0 then ""
    else if anchored && FieldAt(names, s).Some? then
      var name := names[FieldAt(names, s).value];
      var q := ValueEnd(s, |name| + 1, separator);
      name + "=" + redaction + Substitute(names, redaction, separator, s[q..], s[q - 1] == separator)
    else
      [s[0]] + Substitute(names, redaction, separator, s[1..], s[0] == separator)
  }

  /** The message as `re.sub` rewrites it: the scan starts anchored by `^`. */
  function RegexSub(fields: seq<string>, redaction: string, message: string, separator: char): (r: string)
    ensures '=' !in message ==> r == message
  {
    SubstituteWithoutEquals(Names(fields), redaction, separator, message, true);
    Substitute(Names(fields), redaction, separator, message, true)
  }

  /** Every match contains '=', so the scan copies a text without '='
      unchanged. */
  lemma {:induction false} SubstituteWithoutEquals(names: seq<string>, redaction: string, separator: char,
                                                  s: string, anchored: bool)
    ensures '=' !in s ==> Substitute(names, redaction, separator, s, anchored) == s
    decreases |s|
  {
    if '=' !in s && |s| > 0 {
      NoNameAt(names, s);
      SubstituteWithoutEquals(names, redaction, separator, s[1..], s[0] == separator);
      assert s == [s[0]] + s[1..];
    }
  }

  /** No name contains the separator. */
  predicate SeparatorFree(names: seq<string>, separator: char)
  {
    forall i :: 0 <= i < |names| ==> separator !in names[i]
  }

  /** No name contains '='. */
  predicate EqualsFree(names: seq<string>)
  {
    forall i :: 0 <= i < |names| ==> '=' !in names[i]
  }

  /** Away from a segment start nothing matches: a separator-free run is
      copied unchanged. */
  lemma {:induction false} SubstituteRun(names: seq<string>, redaction: string, separator: char,
                                         run: string, rest: string)
    requires separator !in run
    ensures Substitute(names, redaction, separator, run + rest, false) ==
            run + Substitute(names, redaction, separator, rest, false)
  {
    if |run| > 0 {
      var s := run + rest;
      assert s[0] == run[0] != separator && s[1..] == run[1..] + rest;
      SubstituteRun(names, redaction, separator, run[1..], rest);
      calc {
        Substitute(names, redaction, separator, s, false);
        [s[0]] + Substitute(names, redaction, separator, s[1..], false);
        [run[0]] + (run[1..] + Substitute(names, redaction, separator, rest, false));
        { assert run == [run[0]] + run[1..]; }
        run + Substitute(names, redaction, separator, rest, false);
      }
    } else {
      assert run + rest == rest;
    }
  }

  /** A name and '=' start a segment followed by a separator or the end
      exactly when they start the segment alone. */
  lemma FieldAtSegment(names: seq<string>, separator: char, segment: string, rest: string)
    requires separator != '=' && SeparatorFree(names, separator) && separator !in segment
    requires rest == [] || rest[0] == separator
    ensures FieldAt(names, segment + rest) == FieldAt(names, segment)
  {
    var s := segment + rest;
    forall i | 0 <= i < |names|
      ensures names[i] + "=" <= s <==> names[i] + "=" <= segment
    {
      var p := names[i] + "=";
      assert separator !in p by {
        assert forall j :: 0 <= j < |names[i]| ==> p[j] == names[i][j];
      }
      assert |s| > |segment| ==> s[|segment|] == separator;
      assert |p| <= |segment| ==> segment[..|p|] == s[..|p|];
    }
    assert FieldAt(names, s) == FieldAt(names, segment) by {
      FirstIndexSame(names, f => f + "=" <= s, f => f + "=" <= segment);
    }
  }

  /** Two tests that agree on every element pick the same first element. */
  lemma {:induction false} FirstIndexSame<T>(xs: seq<T>, p: T -> bool, q: T -> bool)
    requires forall i :: 0 <= i < |xs| ==> p(xs[i]) == q(xs[i])
    ensures FirstIndex(xs, p) == FirstIndex(xs, q)
  {
    if |xs| > 0 {
      FirstIndexSame(xs[1..], p, q);
    }
  }

  /** At a segment start the scan rewrites the segment as `RedactSegment`
      does and goes on past it. */
  lemma SubstituteSegment(names: seq<string>, redaction: string, separator: char,
                          segment: string, rest: string)
    requires separator != '=' && SeparatorFree(names, separator) && separator !in segment
    requires rest == [] || rest[0] == separator
    ensures Substitute(names, redaction, separator, segment + rest, true) ==
            RedactSegment(names, redaction, segment) + Substitute(names, redaction, separator, rest, false)
  {
    FieldAtSegment(names, separator, segment, rest);
    match FieldAt(names, segment)
    case Some(i) =>
      SubstituteMatch(names, redaction, separator, segment, rest, i);
    case None =>
      SubstituteNoMatch(names, redaction, separator, segment, rest);
  }

  lemma SubstituteNoMatch(names: seq<string>, redaction: string, separator: char,
                          segment: string, rest: string)
    requires separator !in segment && (rest == [] || rest[0] == separator)
    requires FieldAt(names, segment + rest).None?
    ensures Substitute(names, redaction, separator, segment + rest, true) ==
            segment + Substitute(names, redaction, separator, rest, false)
  {
    var s := segment + rest;
    if |segment| > 0 {
      assert s[0] == segment[0] && s[1..] == segment[1..] + rest;
      SubstituteRun(names, redaction, separator, segment[1..], rest);
      assert segment == [segment[0]] + segment[1..];
    } else {
      assert s == rest;
      if |rest| > 0 {
        assert Substitute(names, redaction, separator, rest, false) ==
               [rest[0]] + Substitute(names, redaction, separator, rest[1..], true);
      }
    }
  }

  lemma SubstituteMatch(names: seq<string>, redaction: string, separator: char,
                        segment: string, rest: string, i: nat)
    requires separator != '=' && SeparatorFree(names, separator) && separator !in segment
    requires rest == [] || rest[0] == separator
    requires FieldAt(names, segment + rest) == FieldAt(names, segment) == Some(i)
    ensures Substitute(names, redaction, separator, segment + rest, true) ==
            names[i] + "=" + redaction + Substitute(names, redaction, separator, rest, false)
  {
    var s := segment + rest;
    var name := names[i];
    assert (name + "=")[|name|] == '=';
    assert |name| + 1 <= |segment|;
    ValueEndSegment(s, segment, rest, |name| + 1, separator);
    assert s[|segment| - 1] == segment[|segment| - 1];
    assert s[|segment|..] == rest;
    SubstituteAtMatch(names, redaction, separator, s, i, |segment|, rest);
  }

  /** One step of the scan at a match ending at `q`. */
  lemma SubstituteAtMatch(names: seq<string>, redaction: string, separator: char,
                          s: string, i: nat, q: nat, rest: string)
    requires |s| > 0 && FieldAt(names, s) == Some(i)
    requires |names[i]| + 1 <= |s| && q == ValueEnd(s, |names[i]| + 1, separator)
    requires s[q - 1] != separator && s[q..] == rest
    ensures Substitute(names, redaction, separator, s, true) ==
            names[i] + "=" + redaction + Substitute(names, redaction, separator, rest, false)
  {
  }

  /** A value inside a segment ends where the segment does. */
  lemma ValueEndSegment(s: string, segment: string, rest: string, from: nat, separator: char)
    requires s == segment + rest && from <= |segment| && separator !in segment
    requires rest == [] || rest[0] == separator
    ensures ValueEnd(s, from, separator) == |segment|
  {
    assert forall j :: 0 <= j < |segment| ==> s[j] == segment[j];
    assert |s| > |segment| ==> s[|segment|] == separator;
  }

  /** After a segment, a separator starts the next one. */
  lemma SubstituteSeparator(names: seq<string>, redaction: string, separator: char, rest: string)
    ensures Substitute(names, redaction, separator, [separator] + rest, false) ==
            [separator] + Substitute(names, redaction, separator, rest, true)
  {
    assert ([separator] + rest)[1..] == rest;
  }

  /** On the rest of a message after a segment start, the scan is the
      split / redact / join definition. */
  lemma {:induction false} SubstituteSplit(names: seq<string>, redaction: string, separator: char, s: string)
    requires separator != '=' && SeparatorFree(names, separator)
    ensures Substitute(names, redaction, separator, s, true) ==
            Join(RedactAll(names, redaction, Split(s, separator)), separator)
    decreases |s|
  {
    match IndexOf(s, separator)
    case None =>
      assert s == s + [];
      SubstituteSegment(names, redaction, separator, s, []);
    case Some(k) =>
      var segment, tail := s[..k], s[k + 1..];
      assert s == segment + ([separator] + tail);
      SubstituteSplit(names, redaction, separator, tail);
      SubstituteSplitStep(names, redaction, separator, s, segment, tail);
  }

  lemma SubstituteSplitStep(names: seq<string>, redaction: string, separator: char,
                            s: string, segment: string, tail: string)
    requires separator != '=' && SeparatorFree(names, separator) && separator !in segment
    requires s == segment + ([separator] + tail)
    requires Substitute(names, redaction, separator, tail, true) ==
             Join(RedactAll(names, redaction, Split(tail, separator)), separator)
    ensures Substitute(names, redaction, separator, s, true) ==
            Join(RedactAll(names, redaction, Split(s, separator)), separator)
  {
    SubstituteSegment(names, redaction, separator, segment, [separator] + tail);
    SubstituteSeparator(names, redaction, separator, tail);
    SplitCons(segment, separator, tail);
    JoinRedactCons(names, redaction, separator, segment, Split(tail, separator));
  }

  /** Redacting and joining a leading part, then the others. */
  lemma JoinRedactCons(names: seq<string>, redaction: string, separator: char,
                       head: string, parts: seq<string>)
    requires |parts| >= 1
    ensures Join(RedactAll(names, redaction, [head] + parts), separator) ==
            RedactSegment(names, redaction, head) + [separator] + Join(RedactAll(names, redaction, parts), separator)
  {
    var red := RedactAll(names, redaction, [head] + parts);
    assert red[1..] == RedactAll(names, redaction, parts);
  }

  /** The regular expression substitution is the split / redact / join:
      for a separator other than '=' and names without the separator. */
  lemma SubstituteIsFilterDatum(fields: seq<string>, redaction: string, message: string, separator: char)
    requires separator != '=' && SeparatorFree(Names(fields), separator)
    ensures RegexSub(fields, redaction, message, separator) == FilterDatum(fields, redaction, message, separator)
  {
    SubstituteSplit(Names(fields), redaction, separator, message);
  }

  // ---------------------------------------------------------------------
  // Properties of the redaction.

  /** The name of a segment that has one: the text before its first '='. */
  function SegmentName(segment: string): Option<string>
  {
    match IndexOf(segment, '=')
    case None => None
    case Some(k) => Some(segment[..k])
  }

  /** With names free of '=', a segment is redacted exactly when its name is
      listed; the name and the '=' are kept and only the value is replaced. */
  lemma RedactSegmentByName(names: seq<string>, redaction: string, segment: string)
    requires EqualsFree(names)
    ensures SegmentName(segment).Some? && SegmentName(segment).value in names ==>
      RedactSegment(names, redaction, segment) == SegmentName(segment).value + "=" + redaction
    ensures (SegmentName(segment).None? || SegmentName(segment).value !in names) ==>
      RedactSegment(names, redaction, segment) == segment
  {
    match FieldAt(names, segment)
    case None =>
      if IndexOf(segment, '=').Some? {
        var k := IndexOf(segment, '=').value;
        assert forall i :: 0 <= i < |names| && names[i] == segment[..k] ==> names[i] + "=" == segment[..k + 1];
      }
    case Some(i) =>
      PrefixName(names[i], segment);
  }

  /** A name free of '=' followed by '=' at the start of a segment is that
      segment's name. */
  lemma PrefixName(name: string, segment: string)
    requires '=' !in name && name + "=" <= segment
    ensures SegmentName(segment) == Some(name)
  {
    var p := name + "=";
    assert segment[|name|] == p[|name|] == '=';
    assert segment[..|name|] == name by {
      assert forall j :: 0 <= j < |name| ==> segment[j] == p[j] == name[j];
    }
    assert IndexOf(segment, '=') == Some(|name|);
  }

  /** A redacted segment is redacted to itself again. */
  lemma RedactSegmentIdempotent(names: seq<string>, redaction: string, segment: string)
    requires EqualsFree(names)
    ensures RedactSegment(names, redaction, RedactSegment(names, redaction, segment)) ==
            RedactSegment(names, redaction, segment)
  {
    match FieldAt(names, segment)
    case None =>
    case Some(i) =>
      var out := names[i] + "=" + redaction;
      assert names[i] + "=" <= out;
      PrefixName(names[i], out);
      RedactSegmentByName(names, redaction, out);
  }

  /** A redacted segment contains the separator only if the redaction does. */
  lemma RedactSegmentSeparatorFree(names: seq<string>, redaction: string, separator: char, segment: string)
    requires separator != '=' && SeparatorFree(names, separator)
    requires separator !in redaction && separator !in segment
    ensures separator !in RedactSegment(names, redaction, segment)
  {
    match FieldAt(names, segment)
    case None =>
    case Some(i) =>
      var out := names[i] + "=" + redaction;
      assert forall j :: 0 <= j < |out| ==>
        out[j] == (if j < |names[i]| then names[i][j] else if j == |names[i]| then '=' else redaction[j - |names[i]| - 1]);
  }

  /** The output has the input's segments, in order, each redacted on its
      own; in particular it has as many segments as the input. */
  lemma FilterDatumSegments(fields: seq<string>, redaction: string, message: string, separator: char)
    requires separator != '=' && SeparatorFree(Names(fields), separator) && separator !in redaction
    ensures Split(FilterDatum(fields, redaction, message, separator), separator) ==
            RedactAll(Names(fields), redaction, Split(message, separator))
    ensures |Split(FilterDatum(fields, redaction, message, separator), separator)| == |Split(message, separator)|
  {
    var parts := Split(message, separator);
    var red := RedactAll(Names(fields), redaction, parts);
    forall i | 0 <= i < |red| ensures separator !in red[i] {
      RedactSegmentSeparatorFree(Names(fields), redaction, separator, parts[i]);
    }
    SplitJoin(red, separator);
  }

  /** Filtering an already filtered message changes nothing more. */
  lemma FilterDatumIdempotent(fields: seq<string>, redaction: string, message: string, separator: char)
    requires separator != '=' && SeparatorFree(Names(fields), separator) && EqualsFree(Names(fields))
    requires separator !in redaction
    ensures FilterDatum(fields, redaction, FilterDatum(fields, redaction, message, separator), separator) ==
            FilterDatum(fields, redaction, message, separator)
  {
    var names := Names(fields);
    FilterDatumSegments(fields, redaction, message, separator);
    var once := RedactAll(names, redaction, Split(message, separator));
    var twice := RedactAll(names, redaction, once);
    forall i | 0 <= i < |once| ensures twice[i] == once[i] {
      RedactSegmentIdempotent(names, redaction, Split(message, separator)[i]);
    }
    assert twice == once;
  }

  /** A message none of whose segments names a listed field is returned
      unchanged. */
  lemma FilterDatumUnchanged(fields: seq<string>, redaction: string, message: string, separator: char)
    requires EqualsFree(Names(fields))
    requires forall i :: 0 <= i < |Split(message, separator)| ==>
      SegmentName(Split(message, separator)[i]).None? ||
      SegmentName(Split(message, separator)[i]).value !in Names(fields)
    ensures FilterDatum(fields, redaction, message, separator) == message
  {
    var parts := Split(message, separator);
    var red := RedactAll(Names(fields), redaction, parts);
    forall i | 0 <= i < |parts| ensures red[i] == parts[i] {
      RedactSegmentByName(Names(fields), redaction, parts[i]);
    }
    assert red == parts;
    JoinSplit(message, separator);
  }

  /** Matching is anchored at a segment's start: a segment whose name carries
      a leading space is not the listed field. */
  lemma LeadingSpaceNotRedacted(redaction: string)
    ensures RedactSegment(["email"], redaction, " email=x") == " email=x"
  {
    assert !("email" + "=" <= " email=x") by {
      assert (" email=x")[0] != ("email" + "=")[0];
    }
  }

  /** With no fields the group matches the empty name: exactly the segments
      that begin with '=' are redacted. */
  lemma NoFieldsRedactsBareValues(redaction: string, segment: string)
    ensures "=" <= segment ==> RedactSegment(Names([]), redaction, segment) == "=" + redaction
    ensures !("=" <= segment) ==> RedactSegment(Names([]), redaction, segment) == segment
  {
    assert "" + "=" == "=";
  }

  /** A listed field is redacted, keeping its name; an unlisted one is kept. */
  lemma FilterDatumTwoFields(redaction: string, v: string, w: string)
    requires ';' !in v && ';' !in w && ';' !in redaction && '=' !in v
    ensures FilterDatum(["password"], redaction, ("name=" + v) + ";" + ("password=" + w), ';') ==
            ("name=" + v) + ";" + ("password=" + redaction)
  {
    ExampleSegments(redaction, v, w);
    FilterTwo(["password"], redaction, "name=" + v, "password=" + w, "password=" + redaction);
  }

  lemma FilterTwo(fields: seq<string>, redaction: string, a: string, b: string, c: string)
    requires |fields| > 0 && ';' !in a && ';' !in b && ';' !in c
    requires RedactSegment(fields, redaction, a) == a && RedactSegment(fields, redaction, b) == c
    ensures FilterDatum(fields, redaction, a + ";" + b, ';') == a + ";" + c
  {
    ExampleSplit(a + ";" + b, a, b);
    RedactTwo(fields, redaction, a, b, c);
    ExampleSplit(a + ";" + c, a, c);
  }

  lemma ExampleSegments(redaction: string, v: string, w: string)
    requires '=' !in v
    ensures RedactSegment(["password"], redaction, "name=" + v) == "name=" + v
    ensures RedactSegment(["password"], redaction, "password=" + w) == "password=" + redaction
  {
    var names := ["password"];
    assert "name" + "=" <= "name=" + v;
    PrefixName("name", "name=" + v);
    assert "password" + "=" <= "password=" + w;
    PrefixName("password", "password=" + w);
    assert "name" !in names by { assert |"name"| != |names[0]|; }
    RedactSegmentByName(names, redaction, "name=" + v);
    RedactSegmentByName(names, redaction, "password=" + w);
    assert "password" + "=" + redaction == "password=" + redaction;
  }

  lemma RedactTwo(names: seq<string>, redaction: string, a: string, b: string, c: string)
    requires RedactSegment(names, redaction, a) == a && RedactSegment(names, redaction, b) == c
    ensures RedactAll(names, redaction, [a, b]) == [a, c]
  {
  }

  lemma ExampleSplit(m: string, a: string, b: string)
    requires ';' !in a && ';' !in b && m == a + ";" + b
    ensures Split(m, ';') == [a, b] && Join([a, b], ';') == m
  {
    assert [a, b][1..] == [b];
    SplitJoin([a, b], ';');
  }
}
