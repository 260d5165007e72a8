/**
 * The repository configuration (src/config.rs): `[section]` headers and `key = value` lines,
 * read into a map of sections, and the `section.key` lookup the commit writer uses.
 */
module GitConfig {
  import opened Wrappers
  import opened Bytes

  /** One item of `BufRead::lines`: a line without its terminator, or a read failure. */
  datatype LineRead = Line(text: string) | ReadError

  /** Rust's `char::is_whitespace`: the characters with the Unicode White_Space property. */
  predicate IsWhitespace(c: char) {
    || c == ' '
    || '\t' <= c <= '\r'
    || c == '\U{85}' || c == '\U{A0}' || c == '\U{1680}'
    || '\U{2000}' <= c <= '\U{200A}'
    || c == '\U{2028}' || c == '\U{2029}' || c == '\U{202F}' || c == '\U{205F}' || c == '\U{3000}'
  }

  /** `trim_start`: what is left after dropping leading whitespace. */
  function TrimStart(s: string): string {
    if s != [] && IsWhitespace(s[0]) then TrimStart(s[1..]) else s
  }

  /** `trim_end`: what is left after dropping trailing whitespace. */
  function TrimEnd(s: string): string {
    if s != [] && IsWhitespace(s[|s| - 1]) then TrimEnd(s[..|s| - 1]) else s
  }

  /** `str::trim`: both of the above. */
  function Trim(s: string): string {
    TrimEnd(TrimStart(s))
  }

  /** TrimStart drops exactly the run of whitespace at the front. */
  lemma {:induction false} TrimStartSuffix(s: string)
    ensures var r := TrimStart(s);
            && |r| <= |s| && r == s[|s| - |r|..]
            && (forall k :: 0 <= k < |s| - |r| ==> IsWhitespace(s[k]))
            && (r == [] || !IsWhitespace(r[0]))
  {
    var r := TrimStart(s);
    if s != [] && IsWhitespace(s[0]) {
      var t := s[1..];
      TrimStartSuffix(t);
      assert r == TrimStart(t);
      assert r == t[|t| - |r|..] == s[|s| - |r|..];
      forall k | 0 <= k < |s| - |r|
        ensures IsWhitespace(s[k])
      {
        if k > 0 {
          assert s[k] == t[k - 1];
        }
      }
    } else {
      assert r == s;
      assert s[|s| - |r|..] == s;
    }
  }

  /** TrimEnd drops exactly the run of whitespace at the back. */
  lemma {:induction false} TrimEndPrefix(s: string)
    ensures var r := TrimEnd(s);
            && |r| <= |s| && r == s[..|r|]
            && (forall k :: |r| <= k < |s| ==> IsWhitespace(s[k]))
            && (r == [] || !IsWhitespace(r[|r| - 1]))
  {
    var r := TrimEnd(s);
    if s != [] && IsWhitespace(s[|s| - 1]) {
      var t := s[..|s| - 1];
      TrimEndPrefix(t);
      assert r == TrimEnd(t);
      assert r == t[..|r|] == s[..|r|];
      forall k | |r| <= k < |s|
        ensures IsWhitespace(s[k])
      {
        if k < |s| - 1 {
          assert s[k] == t[k];
        }
      }
    } else {
      assert r == s;
      assert s[..|r|] == s;
    }
  }

  /** Trim yields the longest infix with no whitespace at either end: only whitespace is cut. */
  lemma TrimInfix(s: string)
    ensures var r := Trim(s);
            r == [] || (!IsWhitespace(r[0]) && !IsWhitespace(r[|r| - 1]))
    ensures var r, i := Trim(s), |s| - |TrimStart(s)|;
            && 0 <= i <= |s| - |r| && r == s[i..i + |r|]
            && (forall k :: 0 <= k < i ==> IsWhitespace(s[k]))
            && (forall k :: i + |r| <= k < |s| ==> IsWhitespace(s[k]))
  {
    var t := TrimStart(s);
    TrimStartSuffix(s);
    TrimEndPrefix(t);
    var r := TrimEnd(t);
    var i := |s| - |t|;
    assert t == s[i..];
    assert r == s[i..][..|r|] == s[i..i + |r|];
    forall k | i + |r| <= k < |s|
      ensures IsWhitespace(s[k])
    {
      assert s[k] == t[k - i];
    }
  }

  /** Text without leading or trailing whitespace is its own trim. */
  lemma TrimTrimmed(s: string)
    requires s == [] || (!IsWhitespace(s[0]) && !IsWhitespace(s[|s| - 1]))
    ensures Trim(s) == s
  {
    assert TrimStart(s) == s;
  }

  type Sections = map<string, map<string, string>>

  datatype Config = Config(sections: Sections) {

    /**
     * `Config::get`: the query's text before its first `.` names the section and the text between
     * its first and second `.` the key; without a `.` there is no answer.
     */
    function Get(query: string): Option<string> {
      match IndexOf(query, '.')
      case None => None
      case Some(i) =>
        var section, rest := query[..i], query[i + 1..];
        var key := match IndexOf(rest, '.') case None => rest case Some(j) => rest[..j];
        if section in sections && key in sections[section] then Some(sections[section][key]) else None
    }
  }

  /** The value stored under a section and a key, if any. */
  function Lookup(sections: Sections, section: string, key: string): Option<string> {
    if section in sections && key in sections[section] then Some(sections[section][key]) else None
  }

  /** A query without a `.` finds nothing. */
  lemma GetWithoutDot(config: Config, query: string)
    requires '.' !in query
    ensures config.Get(query) == None
  {
  }

  /**
   * `section.key` finds the value stored under that section and key, and so does
   * `section.key.anything`: components after the second are ignored.
   */
  lemma GetSectionKey(config: Config, section: string, key: string, rest: string)
    requires '.' !in section && '.' !in key
    ensures config.Get(section + "." + key) == Lookup(config.sections, section, key)
    ensures config.Get(section + "." + key + "." + rest) == Lookup(config.sections, section, key)
  {
    GetAfterSection(config, section, key);
    var tail := key + "." + rest;
    assert section + "." + key + "." + rest == section + "." + tail;
    GetAfterSection(config, section, tail);
    IndexOfAfter(key, '.', rest);
    assert tail[..|key|] == key;
  }

  /** Get splits the query at its first `.`, and the remainder at its next one. */
  lemma GetAfterSection(config: Config, section: string, rest: string)
    requires '.' !in section
    ensures config.Get(section + "." + rest) ==
              Lookup(config.sections, section, match IndexOf(rest, '.') case None => rest case Some(j) => rest[..j])
  {
    IndexOfAfter(section, '.', rest);
    var q := section + "." + rest;
    assert q[..|section|] == section && q[|section| + 1..] == rest;
  }

  // ---------------------------------------------------------------------------------------------
  // Reading the file (`parse_config_from_file`)
  // ---------------------------------------------------------------------------------------------

  /** The parser's state between lines: the current section's name and the sections so far. */
  datatype ParseState = ParseState(current: string, sections: Sections)

  const Initial := ParseState("", map[])

  /** A section header: a line that starts with `[` and ends with `]`. */
  predicate IsHeader(line: string) {
    |line| > 0 && line[0] == '[' && line[|line| - 1] == ']'
  }

  /** The effect of one line on the parser's state. */
  function ApplyLine(st: ParseState, line: string): ParseState {
    if IsHeader(line) then
      var name := line[1..|line| - 1];
      ParseState(name, st.sections[name := map[]])
    else
      match IndexOf(line, '=')
      case None => st
      case Some(i) =>
        if st.current in st.sections then
          var entries := st.sections[st.current][Trim(line[..i]) := Trim(line[i + 1..])];
          ParseState(st.current, st.sections[st.current := entries])
        else st
  }

  /** The state after the lines, up to the first one that could not be read. */
  function ParseFrom(st: ParseState, lines: seq<LineRead>): ParseState
    decreases |lines|
  {
    if lines == [] then st
    else match lines[0]
      case ReadError => st
      case Line(text) => ParseFrom(ApplyLine(st, text), lines[1..])
  }

  function ParseLines(lines: seq<LineRead>): Config {
    Config(ParseFrom(Initial, lines).sections)
  }

  /** `parse_config_from_file` (src/config.rs:27-49) over the lines its reader yields. */
  method ParseConfig(lines: seq<LineRead>) returns (config: Config)
    ensures config == ParseLines(lines)
  {
    var sections: Sections := map[];
    var currentSection := "";
    var i := 0;
    while i < |lines|
      invariant 0 <= i <= |lines|
      invariant ParseFrom(ParseState(currentSection, sections), lines[i..]) == ParseFrom(Initial, lines)
    {
      if lines[i].ReadError? {
        break;
      }
      var line := lines[i].text;
      assert lines[i..][1..] == lines[i + 1..];
      if |line| > 0 && line[0] == '[' && line[|line| - 1] == ']' {
        currentSection := line[1..|line| - 1];
        sections := sections[currentSection := map[]];
      } else {
        var eq := IndexOf(line, '=');
        if eq.Some? && currentSection in sections {
          var key, value := Trim(line[..eq.value]), Trim(line[eq.value + 1..]);
          sections := sections[currentSection := sections[currentSection][key := value]];
        }
      }
      i := i + 1;
    }
    config := Config(sections);
  }

  predicate Readable(lines: seq<LineRead>) {
    forall i :: 0 <= i < |lines| ==> lines[i].Line?
  }

  lemma {:induction false} ParseFromAppend(st: ParseState, a: seq<LineRead>, b: seq<LineRead>)
    requires Readable(a)
    ensures ParseFrom(st, a + b) == ParseFrom(ParseFrom(st, a), b)
    decreases |a|
  {
    if a == [] {
      assert a + b == b;
    } else {
      assert (a + b)[0] == a[0];
      assert (a + b)[1..] == a[1..] + b;
      ParseFromAppend(ApplyLine(st, a[0].text), a[1..], b);
    }
  }

  /** Parsing stops at the first line that cannot be read: nothing after it has any effect. */
  lemma {:induction false} StopsAtReadError(st: ParseState, a: seq<LineRead>, b: seq<LineRead>)
    ensures ParseFrom(st, a + [ReadError] + b) == ParseFrom(st, a)
    decreases |a|
  {
    if a == [] {
      assert a + [ReadError] + b == [ReadError] + b;
    } else {
      assert (a + [ReadError] + b)[0] == a[0];
      assert (a + [ReadError] + b)[1..] == a[1..] + [ReadError] + b;
      match a[0]
      case ReadError =>
      case Line(text) => StopsAtReadError(ApplyLine(st, text), a[1..], b);
    }
  }

  /**
   * A header line `[name]` makes `name` (the text between the brackets, untrimmed) the current
   * section and gives it an empty map, discarding whatever an earlier header of that name
   * collected; no other section changes.
   */
  lemma HeaderStartsSection(lines: seq<LineRead>, name: string)
    requires Readable(lines)
    ensures var after := ParseFrom(Initial, lines + [Line("[" + name + "]")]);
            && after.current == name
            && after.sections == ParseFrom(Initial, lines).sections[name := map[]]
  {
    ParseFromAppend(Initial, lines, [Line("[" + name + "]")]);
    var line := "[" + name + "]";
    assert IsHeader(line) && line[1..|line| - 1] == name;
  }

  /**
   * A line that is not a header and has an `=` stores the trimmed text before its first `=` as
   * a key and the trimmed rest as its value in the current section, replacing an earlier value
   * of that key; before any header there is no current section and the line is dropped.
   */
  lemma AssignmentStored(lines: seq<LineRead>, key: string, value: string)
    requires Readable(lines) && '=' !in key && !IsHeader(key + "=" + value)
    ensures var before := ParseFrom(Initial, lines);
            var after := ParseFrom(Initial, lines + [Line(key + "=" + value)]);
            && after.current == before.current
            && (before.current in before.sections ==>
                  after.sections == before.sections[before.current :=
                    before.sections[before.current][Trim(key) := Trim(value)]])
            && (before.current !in before.sections ==> after.sections == before.sections)
  {
    var line := key + "=" + value;
    ParseFromAppend(Initial, lines, [Line(line)]);
    IndexOfAfter(key, '=', value);
    assert line[..|key|] == key && line[|key| + 1..] == value;
  }

  /** A line that is neither a header nor contains `=` changes nothing. */
  lemma OtherLineIgnored(lines: seq<LineRead>, text: string)
    requires Readable(lines) && !IsHeader(text) && '=' !in text
    ensures ParseFrom(Initial, lines + [Line(text)]) == ParseFrom(Initial, lines)
  {
    ParseFromAppend(Initial, lines, [Line(text)]);
  }

  /** Until a header has been read, every assignment is dropped: no section exists. */
  lemma {:induction false} NoHeaderNoSections(st: ParseState, lines: seq<LineRead>)
    requires st.sections == map[]
    requires forall i :: 0 <= i < |lines| && lines[i].Line? ==> !IsHeader(lines[i].text)
    ensures ParseFrom(st, lines).sections == map[]
    decreases |lines|
  {
    if lines != [] && lines[0].Line? {
      var next := ApplyLine(st, lines[0].text);
      assert next.sections == map[];
      assert forall i :: 0 <= i < |lines[1..]| ==> lines[1..][i] == lines[i + 1];
      NoHeaderNoSections(next, lines[1..]);
    }
  }

  /**
   * The value a query returns for a key is the last one assigned to it in its section: right
   * after `key = value` in section S, `S.key` gives the trimmed value, whatever came before.
   */
  lemma LastAssignmentWins(lines: seq<LineRead>, key: string, value: string)
    requires Readable(lines) && '=' !in key && !IsHeader(key + "=" + value)
    requires var before := ParseFrom(Initial, lines);
             before.current in before.sections && '.' !in before.current && '.' !in Trim(key)
    ensures var section := ParseFrom(Initial, lines).current;
            ParseLines(lines + [Line(key + "=" + value)]).Get(section + "." + Trim(key)) == Some(Trim(value))
  {
    AssignmentStored(lines, key, value);
    var config := ParseLines(lines + [Line(key + "=" + value)]);
    var section := ParseFrom(Initial, lines).current;
    GetSectionKey(config, section, Trim(key), "");
  }

}
