/** The schema language: a printer and a parser for spaces (crates/data-model). */
module Schema {
  import opened Base
  import opened DataModel
  import opened Text
  import opened Wire

  // ---------------------------------------------------------------------- kinds

  function FormatUnit(unit: TimeUnit): string {
    match unit
    case Second => "second"
    case Minute => "minute"
    case Hour => "hour"
    case Day => "day"
    case Week => "week"
    case Month => "month"
  }

  function FormatKind(kind: ValueKind): string {
    match kind
    case KBool => "bool"
    case KInt => "int"
    case KFloat => "float"
    case KBytes => "bytes"
    case KString => "string"
    case KDocument => "document"
    case KTimestamp(unit) => Wrap("timestamp", FormatUnit(unit))
    case KList(elem) => Wrap("list", FormatKind(elem))
    case KSet(elem) => Wrap("set", FormatKind(elem))
    case KMap(key, value) => Wrap("map", FormatKind(key) + (", " + FormatKind(value)))
  }

  function Wrap(word: string, inner: string): string { word + ("(" + (inner + ")")) }

  /** Where `c` first occurs outside parentheses, when the scan starts inside
      `depth` of them. A closing parenthesis too many is ignored. */
  function TopLevel(s: string, depth: nat, c: char): (r: Option<nat>)
    ensures r.Some? ==> r.value < |s|
  {
    if s == "" then None
    else if s[0] == '(' then After(1, TopLevel(s[1..], depth + 1, c))
    else if s[0] == ')' then After(1, TopLevel(s[1..], if depth == 0 then 0 else depth - 1, c))
    else if s[0] == c && depth == 0 then Some(0)
    else After(1, TopLevel(s[1..], depth, c))
  }

  function After(n: nat, position: Option<nat>): Option<nat> {
    if position.None? then None else Some(n + position.value)
  }

  /** The scan that both splitting functions of the source make. */
  method ScanTopLevel(s: string, c: char) returns (r: Option<nat>)
    ensures r == TopLevel(s, 0, c)
  {
    var depth: nat := 0;
    assert s[0..] == s;
    AfterNone(TopLevel(s, 0, c));
    for i := 0 to |s|
      invariant After(i, TopLevel(s[i..], depth, c)) == TopLevel(s, 0, c)
    {
      assert s[i..][1..] == s[i + 1..] && s[i..][0] == s[i];
      if s[i] == '(' {
        depth := depth + 1;
      } else if s[i] == ')' {
        depth := if depth == 0 then 0 else depth - 1;
      } else if s[i] == c && depth == 0 {
        return Some(i);
      }
    }
    r := None;
  }

  lemma AfterNone(position: Option<nat>)
    ensures After(0, position) == position
  {
  }

  function ParseUnit(s: string): Option<TimeUnit> {
    if s == "second" then Some(Second)
    else if s == "minute" then Some(Minute)
    else if s == "hour" then Some(Hour)
    else if s == "day" then Some(Day)
    else if s == "week" then Some(Week)
    else if s == "month" then Some(Month)
    else None
  }

  function Keyword(s: string): Option<ValueKind> {
    if s == "bool" then Some(KBool)
    else if s == "string" then Some(KString)
    else if s == "int" || s == "int64" then Some(KInt)
    else if s == "float" then Some(KFloat)
    else if s == "document" then Some(KDocument)
    else if s == "bytes" then Some(KBytes)
    else None
  }

  /** The text between `word`, an opening parenthesis, and a closing one at the
      very end. */
  function Enclosed(s: string, word: string): (r: Option<string>)
    ensures r.Some? ==> |r.value| < |s|
  {
    var rest :- StripPrefix(s, word + "(");
    StripLast(rest, ')')
  }

  function ParseKind(s: string): Option<ValueKind>
    decreases |s|
  {
    if Keyword(s).Some? then Keyword(s)
    else if Enclosed(s, "list").Some? then
      var elem :- ParseKind(Trim(Enclosed(s, "list").value));
      Some(KList(elem))
    else if Enclosed(s, "set").Some? then
      var elem :- ParseKind(Trim(Enclosed(s, "set").value));
      Some(KSet(elem))
    else if Enclosed(s, "map").Some? then
      var inner := Enclosed(s, "map").value;
      var comma :- TopLevel(inner, 0, ',');
      var key :- ParseKind(Trim(inner[..comma]));
      var value :- ParseKind(Trim(inner[comma + 1..]));
      Some(KMap(key, value))
    else if Enclosed(s, "timestamp").Some? then
      var unit :- ParseUnit(Trim(Enclosed(s, "timestamp").value));
      Some(KTimestamp(unit))
    else None
  }

  // -------------------------------------------------- printed kinds are balanced

  predicate PlainWord(w: string, c: char) { forall x :: x in w ==> x != '(' && x != ')' && x != c }

  lemma {:induction false} ScanWord(w: string, rest: string, depth: nat, c: char)
    requires PlainWord(w, c)
    ensures TopLevel(w + rest, depth, c) == After(|w|, TopLevel(rest, depth, c))
  {
    if w == "" {
      assert w + rest == rest;
    } else {
      assert (w + rest)[0] == w[0] && w[0] in w && (w + rest)[1..] == w[1..] + rest;
      assert forall x :: x in w[1..] ==> x in w;
      ScanWord(w[1..], rest, depth, c);
    }
  }

  lemma ScanOpen(rest: string, depth: nat, c: char)
    ensures TopLevel("(" + rest, depth, c) == After(1, TopLevel(rest, depth + 1, c))
  {
    assert ("(" + rest)[1..] == rest;
  }

  lemma ScanClose(rest: string, depth: nat, c: char)
    requires depth > 0
    ensures TopLevel(")" + rest, depth, c) == After(1, TopLevel(rest, depth - 1, c))
  {
    assert (")" + rest)[1..] == rest;
  }

  /** Inside parentheses the separator of a map is not seen. */
  lemma ScanSeparator(rest: string, depth: nat, c: char)
    requires depth > 0 && (c == ',' || c == ' ')
    ensures TopLevel(", " + rest, depth, c) == After(2, TopLevel(rest, depth, c))
  {
    var s := ", " + rest;
    assert s[1..][1..] == rest && s[1..][0] == ' ';
  }

  lemma ScanWrapped(word: string, inner: string, rest: string, depth: nat, c: char)
    requires PlainWord(word, c)
    requires TopLevel(inner + (")" + rest), depth + 1, c) == After(|inner|, TopLevel(")" + rest, depth + 1, c))
    ensures TopLevel(Wrap(word, inner) + rest, depth, c) == After(|Wrap(word, inner)|, TopLevel(rest, depth, c))
  {
    hide TopLevel;
    Assoc(word, "(" + (inner + ")"), rest);
    Assoc("(", inner + ")", rest);
    Assoc(inner, ")", rest);
    ScanWord(word, "(" + (inner + (")" + rest)), depth, c);
    ScanOpen(inner + (")" + rest), depth, c);
    ScanClose(rest, depth + 1, c);
  }

  /** A printed kind is balanced and keeps its commas and blanks inside
      parentheses: a scan that enters it leaves it at the same depth. */
  lemma {:induction false} ScanKind(kind: ValueKind, rest: string, depth: nat, c: char)
    requires c == ',' || c == ' '
    ensures TopLevel(FormatKind(kind) + rest, depth, c) == After(|FormatKind(kind)|, TopLevel(rest, depth, c))
  {
    hide TopLevel, Wrap;
    match kind
    case KList(elem) =>
      ScanKind(elem, ")" + rest, depth + 1, c);
      ScanWrapped("list", FormatKind(elem), rest, depth, c);
    case KSet(elem) =>
      ScanKind(elem, ")" + rest, depth + 1, c);
      ScanWrapped("set", FormatKind(elem), rest, depth, c);
    case KMap(key, value) =>
      var k, v := FormatKind(key), FormatKind(value);
      ScanKind(key, ", " + (v + (")" + rest)), depth + 1, c);
      ScanKind(value, ")" + rest, depth + 1, c);
      ScanPair(k, v, ")" + rest, depth + 1, c);
      ScanWrapped("map", k + (", " + v), rest, depth, c);
    case _ => ScanFlat(kind, rest, depth, c);
  }

  predicate Flat(kind: ValueKind) { !kind.KList? && !kind.KSet? && !kind.KMap? }

  lemma ScanFlat(kind: ValueKind, rest: string, depth: nat, c: char)
    requires Flat(kind) && (c == ',' || c == ' ')
    ensures TopLevel(FormatKind(kind) + rest, depth, c) == After(|FormatKind(kind)|, TopLevel(rest, depth, c))
  {
    hide TopLevel, Wrap;
    if kind.KTimestamp? {
      var unit := FormatUnit(kind.unit);
      UnitIsWord(kind.unit, c);
      ScanWord(unit, ")" + rest, depth + 1, c);
      ScanWrapped("timestamp", unit, rest, depth, c);
    } else {
      KeywordIsWord(kind, c);
      ScanWord(FormatKind(kind), rest, depth, c);
    }
  }

  lemma UnitIsWord(unit: TimeUnit, c: char)
    requires c == ',' || c == ' '
    ensures PlainWord(FormatUnit(unit), c)
  {
  }

  lemma KeywordIsWord(kind: ValueKind, c: char)
    requires Flat(kind) && !kind.KTimestamp? && (c == ',' || c == ' ')
    ensures PlainWord(FormatKind(kind), c)
  {
  }

  lemma ScanPair(k: string, v: string, rest: string, depth: nat, c: char)
    requires depth > 0 && (c == ',' || c == ' ')
    requires TopLevel(k + (", " + (v + rest)), depth, c) == After(|k|, TopLevel(", " + (v + rest), depth, c))
    requires TopLevel(v + rest, depth, c) == After(|v|, TopLevel(rest, depth, c))
    ensures TopLevel(k + (", " + v) + rest, depth, c) == After(|k + (", " + v)|, TopLevel(rest, depth, c))
  {
    hide TopLevel;
    Assoc(k, ", " + v, rest);
    Assoc(", ", v, rest);
    ScanSeparator(v + rest, depth, c);
  }

  /** Printed kinds begin and end like words and never like another line of a
      schema. */
  lemma {:induction false} KindShape(kind: ValueKind)
    ensures var s := FormatKind(kind);
      && |s| >= 3 && Trimmed(s) && '\n' !in s
      && s[0] != 'a' && s[0] != 'k' && s[0] != 'c'
      && !(s[0] == 's' && (s[1] == 'p' || s[1] == 'u')) && !(s[0] == 't' && s[1] == 'o')
  {
    hide Wrap, IsSpace;
    match kind
    case KList(elem) =>
      KindShape(elem);
      WrapShape("list", FormatKind(elem));
    case KSet(elem) =>
      KindShape(elem);
      WrapShape("set", FormatKind(elem));
    case KMap(key, value) =>
      KindShape(key);
      KindShape(value);
      WrapShape("map", FormatKind(key) + (", " + FormatKind(value)));
    case _ => FlatShape(kind);
  }

  lemma FlatShape(kind: ValueKind)
    requires Flat(kind)
    ensures var s := FormatKind(kind);
      && |s| >= 3 && Trimmed(s) && '\n' !in s
      && s[0] != 'a' && s[0] != 'k' && s[0] != 'c'
      && !(s[0] == 's' && (s[1] == 'p' || s[1] == 'u')) && !(s[0] == 't' && s[1] == 'o')
  {
    hide IsSpace, Wrap;
    if kind.KTimestamp? {
      WrapShape("timestamp", FormatUnit(kind.unit));
    } else {
      var s := FormatKind(kind);
      LetterIsNoSpace(s[0]);
      LetterIsNoSpace(s[|s| - 1]);
    }
  }

  lemma LetterIsNoSpace(c: char)
    requires 'a' <= c <= 'z'
    ensures !IsSpace(c)
  {
  }

  lemma WrapShape(word: string, inner: string)
    requires |word| >= 3 && 'a' <= word[0] <= 'z' && '\n' !in word && '\n' !in inner
    ensures var s := Wrap(word, inner);
      && |s| >= 3 && s[0] == word[0] && s[1] == word[1] && !IsSpace(s[0]) && !IsSpace(s[|s| - 1]) && '\n' !in s
  {
    var s := Wrap(word, inner);
    assert s[|s| - 1] == ')';
  }

  // ------------------------------------------------------------- kinds read back

  lemma EnclosedWrap(word: string, inner: string)
    ensures Enclosed(Wrap(word, inner), word) == Some(inner)
  {
    var s := Wrap(word, inner);
    assert s == (word + "(") + (inner + ")");
    assert s[|word + "("|..] == inner + ")";
    assert (inner + ")")[..|inner|] == inner;
  }

  /** Words of different beginnings are not taken for one another. */
  lemma NotEnclosed(word: string, inner: string, other: string)
    requires word != "" && other != "" && word[0] != other[0]
    ensures Enclosed(Wrap(word, inner), other).None?
  {
    var s := Wrap(word, inner);
    assert s[0] == word[0];
    assert (other + "(")[0] == other[0];
  }

  lemma WrapNoKeyword(word: string, inner: string)
    requires word == "list" || word == "set" || word == "map" || word == "timestamp"
    ensures Keyword(Wrap(word, inner)).None?
  {
    var s := Wrap(word, inner);
    assert s[|word|] == '(';
    assert s[0] == word[0] && s[1] == word[1] && s[2] == word[2];
  }

  lemma {:induction false} KindReadBack(kind: ValueKind)
    ensures ParseKind(FormatKind(kind)) == Some(kind)
  {
    hide Trim, Wrap, Enclosed, Keyword, TopLevel;
    match kind
    case KTimestamp(unit) =>
      var inner := FormatUnit(unit);
      WrapNoKeyword("timestamp", inner);
      NotEnclosed("timestamp", inner, "list");
      NotEnclosed("timestamp", inner, "set");
      NotEnclosed("timestamp", inner, "map");
      EnclosedWrap("timestamp", inner);
      UnitReadBack(unit);
    case KList(elem) =>
      var inner := FormatKind(elem);
      WrapNoKeyword("list", inner);
      EnclosedWrap("list", inner);
      KindShape(elem);
      TrimFacts(inner);
      KindReadBack(elem);
    case KSet(elem) =>
      var inner := FormatKind(elem);
      WrapNoKeyword("set", inner);
      NotEnclosed("set", inner, "list");
      EnclosedWrap("set", inner);
      KindShape(elem);
      TrimFacts(inner);
      KindReadBack(elem);
    case KMap(key, value) =>
      var k, v := FormatKind(key), FormatKind(value);
      var inner := k + (", " + v);
      WrapNoKeyword("map", inner);
      NotEnclosed("map", inner, "list");
      NotEnclosed("map", inner, "set");
      EnclosedWrap("map", inner);
      MapSplits(key, value, k, v);
      KindReadBack(key);
      KindReadBack(value);
    case _ => KeywordReadBack(kind);
  }

  lemma KeywordReadBack(kind: ValueKind)
    requires !kind.KTimestamp? && !kind.KList? && !kind.KSet? && !kind.KMap?
    ensures ParseKind(FormatKind(kind)) == Some(kind)
  {
  }

  lemma UnitReadBack(unit: TimeUnit)
    ensures ParseUnit(Trim(FormatUnit(unit))) == Some(unit)
  {
    TrimFacts(FormatUnit(unit));
  }

  /** The comma found is the one between key and value. */
  lemma MapSplits(key: ValueKind, value: ValueKind, k: string, v: string)
    requires k == FormatKind(key) && v == FormatKind(value)
    ensures var inner := k + (", " + v);
      && TopLevel(inner, 0, ',') == Some(|k|)
      && Trim(inner[..|k|]) == k && Trim(inner[|k| + 1..]) == v
  {
    hide FormatKind, Trim, IsSpace;
    ScanKind(key, ", " + v, 0, ',');
    KindShape(key);
    KindShape(value);
    TrimFacts(k);
    var inner := k + (", " + v);
    assert inner[..|k|] == k && inner[|k| + 1..] == " " + v;
    Blank();
    TrimBlanks(" ", v);
  }

  // ---------------------------------------------------------------------- lines

  const DEFAULT_OPTIONS := SpaceOptions(0, 64, HyperDexDsl)

  datatype ParseState = ParseState(
    name: Option<string>,
    key: Option<string>,
    attributes: seq<AttributeDefinition>,
    subspaces: seq<Subspace>,
    options: SpaceOptions,
    inAttributes: bool)

  const START := ParseState(None, None, [], [], DEFAULT_OPTIONS, false)

  /** An attribute without a kind is a string. */
  function ParseAttribute(text: string): Option<AttributeDefinition> {
    match TopLevel(text, 0, ' ')
    case None => Some(AttributeDefinition(text, KString))
    case Some(at) =>
      var kind :- ParseKind(Trim(text[..at]));
      Some(AttributeDefinition(Trim(text[at..]), kind))
  }

  function ParseCount(rest: string): Option<u32> {
    var word :- FirstWord(rest);
    ParseU32(word)
  }

  /** One line of a schema; a line that is none of these is skipped. */
  function Step(st: ParseState, raw: string): Option<ParseState> {
    var line := Trim(raw);
    if line == "" then Some(st)
    else if "space " <= line then Some(st.(name := Some(Trim(line[6..])), inAttributes := false))
    else if "key " <= line then Some(st.(key := Some(Trim(line[4..])), inAttributes := false))
    else if line == "attributes" then Some(st.(inAttributes := true))
    else if "subspace " <= line then
      Some(st.(subspaces := st.subspaces + [Subspace(TrimFields(SplitOn(line[9..], ',')))], inAttributes := false))
    else if "tolerate " <= line then
      var count :- ParseCount(line[9..]);
      Some(st.(options := st.options.(faultTolerance := count), inAttributes := false))
    else if "create " <= line then
      var count :- ParseCount(line[7..]);
      Some(st.(options := st.options.(partitions := count), inAttributes := false))
    else if st.inAttributes then
      var attribute :- ParseAttribute(TrimEndMatches(line, ','));
      Some(st.(attributes := st.attributes + [attribute]))
    else Some(st)
  }

  function Steps(st: ParseState, lines: seq<string>): Option<ParseState>
    decreases |lines|
  {
    if lines == [] then Some(st)
    else
      var next :- Step(st, lines[0]);
      Steps(next, lines[1..])
  }

  function Finish(st: ParseState): Option<Space> {
    var name :- st.name;
    var key :- st.key;
    if st.attributes == [] then None
    else Some(Space(name, key, st.attributes, st.subspaces, st.options))
  }

  function Parse(input: string): Option<Space> {
    var st :- Steps(START, Lines(input));
    Finish(st)
  }

  /** The parser's loop over the lines of its input. */
  method ParseLoop(input: string) returns (r: Option<Space>)
    ensures r == Parse(input)
  {
    hide Step, Finish, Lines;
    var lines := Lines(input);
    var st := START;
    assert lines[0..] == lines;
    for i := 0 to |lines|
      invariant Steps(st, lines[i..]) == Steps(START, lines)
    {
      assert lines[i..][1..] == lines[i + 1..];
      var next := Step(st, lines[i]);
      if next.None? {
        return None;
      }
      st := next.value;
    }
    r := Finish(st);
  }

  function AttributeLine(a: AttributeDefinition): string { "    " + (FormatKind(a.kind) + (" " + (a.name + ","))) }

  function AttributeLines(attributes: seq<AttributeDefinition>): seq<string> {
    if attributes == [] then [] else [AttributeLine(attributes[0])] + AttributeLines(attributes[1..])
  }

  function SubspaceLines(subspaces: seq<Subspace>): seq<string> {
    if subspaces == [] then [] else ["subspace " + Join(subspaces[0].dimensions, ", ")] + SubspaceLines(subspaces[1..])
  }

  function PrintedLines(space: Space): seq<string> {
    ["space " + space.name, "key " + space.keyAttribute, "attributes"]
    + (AttributeLines(space.attributes) + (SubspaceLines(space.subspaces) + OptionLines(space.options)))
  }

  function OptionLines(options: SpaceOptions): seq<string> {
    ["tolerate " + (Decimal(options.faultTolerance) + " " + "failures"),
     "create " + (Decimal(options.partitions) + " " + "partitions")]
  }

  function Format(space: Space): string { Terminated(PrintedLines(space)) }

  /** The printer's buffer of lines, joined at the end. */
  method FormatLoop(space: Space) returns (r: string)
    ensures r == Format(space)
  {
    hide FormatKind, Decimal, AttributeLine;
    var lines := ["space " + space.name];
    lines := lines + ["key " + space.keyAttribute];
    lines := lines + ["attributes"];
    ghost var head := lines;
    assert space.attributes[0..] == space.attributes;
    for i := 0 to |space.attributes|
      invariant lines + AttributeLines(space.attributes[i..]) == head + AttributeLines(space.attributes)
    {
      assert space.attributes[i..][1..] == space.attributes[i + 1..];
      Assoc(lines, [AttributeLine(space.attributes[i])], AttributeLines(space.attributes[i + 1..]));
      lines := lines + [AttributeLine(space.attributes[i])];
    }
    assert space.attributes[|space.attributes|..] == [] && lines + [] == lines;
    ghost var body := lines;
    assert space.subspaces[0..] == space.subspaces;
    for i := 0 to |space.subspaces|
      invariant lines + SubspaceLines(space.subspaces[i..]) == body + SubspaceLines(space.subspaces)
    {
      assert space.subspaces[i..][1..] == space.subspaces[i + 1..];
      var line := "subspace " + Join(space.subspaces[i].dimensions, ", ");
      Assoc(lines, [line], SubspaceLines(space.subspaces[i + 1..]));
      lines := lines + [line];
    }
    assert space.subspaces[|space.subspaces|..] == [] && lines + [] == lines;
    ghost var most := lines;
    lines := lines + ["tolerate " + (Decimal(space.options.faultTolerance) + " " + "failures")];
    lines := lines + ["create " + (Decimal(space.options.partitions) + " " + "partitions")];
    assert lines == most + OptionLines(space.options);
    Assoc(head + AttributeLines(space.attributes), SubspaceLines(space.subspaces), OptionLines(space.options));
    Assoc(head, AttributeLines(space.attributes), SubspaceLines(space.subspaces) + OptionLines(space.options));
    assert lines == PrintedLines(space);
    lines := lines + [""];
    JoinWithLast(PrintedLines(space));
    r := Join(lines, "\n");
  }

  // ------------------------------------------------------- one printed line at a time

  predicate SafeName(s: string) { s != "" && Trimmed(s) && '\n' !in s }

  lemma StepName(st: ParseState, name: string)
    requires SafeName(name)
    ensures Step(st, "space " + name) == Some(st.(name := Some(name), inAttributes := false))
  {
    hide Trim;
    LetterIsNoSpace('s');
    PrefixedLine("space ", name);
    TrimFacts(name);
  }

  lemma StepKey(st: ParseState, key: string)
    requires SafeName(key)
    ensures Step(st, "key " + key) == Some(st.(key := Some(key), inAttributes := false))
  {
    hide Trim;
    LetterIsNoSpace('k');
    PrefixedLine("key ", key);
    TrimFacts(key);
    NotPrefix("space ", "key " + key, 0);
  }

  lemma StepHeading(st: ParseState)
    ensures Step(st, "attributes") == Some(st.(inAttributes := true))
  {
    hide Trim;
    LetterIsNoSpace('a');
    LetterIsNoSpace('s');
    TrimFacts("attributes");
    NotPrefix("space ", "attributes", 0);
    NotPrefix("key ", "attributes", 0);
  }

  /** What is read back of an attribute's name. */
  function ReadName(name: string): string { Trim(TrimEndMatches(name, ',')) }

  predicate PlainName(name: string) { Trimmed(name) && (name == "" || name[|name| - 1] != ',') }

  lemma ReadNameSame(name: string)
    ensures ReadName(name) == name <==> PlainName(name)
  {
    hide Trim;
    TrimFacts(TrimEndMatches(name, ','));
    TrimFacts(name);
    if ReadName(name) == name { assert TrimEndMatches(name, ',') == name; }
  }

  lemma ParsePrintedAttribute(kind: ValueKind, name: string)
    ensures ParseAttribute(FormatKind(kind) + (" " + name)) == Some(AttributeDefinition(Trim(name), kind))
  {
    hide Trim, FormatKind, ParseKind, IsSpace;
    var k := FormatKind(kind);
    var text := k + (" " + name);
    ScanKind(kind, " " + name, 0, ' ');
    KindShape(kind);
    KindReadBack(kind);
    TrimFacts(k);
    assert text[..|k|] == k && text[|k|..] == " " + name;
    TrimBlankFront(name);
  }

  /** A line that starts as a printed kind does is no other line. */
  lemma KindLineStandsOut(kind: ValueKind, rest: string)
    ensures var line := FormatKind(kind) + rest;
      && line != "" && !("space " <= line) && !("key " <= line) && line != "attributes"
      && !("subspace " <= line) && !("tolerate " <= line) && !("create " <= line)
  {
    hide FormatKind, Trimmed;
    KindShape(kind);
    var line := FormatKind(kind) + rest;
    assert line[0] == FormatKind(kind)[0] && line[1] == FormatKind(kind)[1];
  }

  lemma StepAttribute(st: ParseState, a: AttributeDefinition)
    requires st.inAttributes
    ensures Step(st, AttributeLine(a)) == Some(st.(attributes := st.attributes + [AttributeDefinition(ReadName(a.name), a.kind)]))
  {
    hide Trim, FormatKind, ParseAttribute, IsSpace, TrimEndMatches;
    var k := FormatKind(a.kind);
    var line := k + (" " + (a.name + ","));
    KindShape(a.kind);
    Blanks();
    assert line[|line| - 1] == ',';
    TrimBlanks("    ", line);
    KindLineStandsOut(a.kind, " " + (a.name + ","));
    Assoc(k, " ", a.name + ",");
    TrimEndOver(k + " ", a.name + ",", ',');
    OneComma(a.name);
    Assoc(k, " ", TrimEndMatches(a.name, ','));
    ParsePrintedAttribute(a.kind, TrimEndMatches(a.name, ','));
  }

  lemma Blanks()
    ensures (forall c :: c in "    " ==> IsSpace(c)) && !IsSpace(',')
  {
  }

  lemma OneComma(name: string)
    ensures TrimEndMatches(name + ",", ',') == TrimEndMatches(name, ',')
  {
    assert (name + ",")[..|name|] == name;
  }

  lemma StepSubspace(st: ParseState, dimensions: seq<string>)
    requires dimensions != [] && AllFields(dimensions)
    ensures Step(st, "subspace " + Join(dimensions, ", "))
      == Some(st.(subspaces := st.subspaces + [Subspace(dimensions)], inAttributes := false))
  {
    hide Trim, Join, SplitOn, TrimFields, IsSpace;
    var list := Join(dimensions, ", ");
    var line := "subspace " + list;
    LetterIsNoSpace('s');
    JoinShape(dimensions);
    PrefixedLine("subspace ", list);
    NotPrefix("space ", line, 1);
    NotPrefix("key ", line, 0);
    FieldsReadBack("", dimensions);
    assert "" + list == list;
  }

  /** A subspace without dimensions is not read back as one: its line looks like
      an attribute, and is taken for one where attributes are expected. */
  lemma StepNoDimensions(st: ParseState)
    ensures Step(st, "subspace " + Join([], ", "))
      == Some(if st.inAttributes then st.(attributes := st.attributes + [AttributeDefinition("subspace", KString)]) else st)
  {
    hide Trim, TopLevel, ParseKind;
    SubspaceTrimmed();
    NotPrefix("space ", "subspace", 1);
    ScanBare();
  }

  lemma SubspaceTrimmed()
    ensures Trim("subspace " + Join([], ", ")) == "subspace"
  {
    hide IsSpace;
    Blank();
    LetterIsNoSpace('s');
    LetterIsNoSpace('e');
    var s := "subspace " + "";
    assert TrimStart(s) == s;
    assert s[..8] == "subspace" && s[8] == ' ';
    assert TrimEnd("subspace") == "subspace";
  }

  lemma ScanBare()
    ensures TopLevel("subspace", 0, ' ') == None && TrimEndMatches("subspace", ',') == "subspace"
  {
    hide TopLevel;
    assert TopLevel("", 0, ' ') == None by { ScanEmpty(); }
    assert "subspace" + "" == "subspace";
    ScanWord("subspace", "", 0, ' ');
  }

  lemma ScanEmpty()
    ensures TopLevel("", 0, ' ') == None
  {
  }

  lemma StepTolerate(st: ParseState, n: u32)
    ensures Step(st, "tolerate " + (Decimal(n) + " " + "failures"))
      == Some(st.(options := st.options.(faultTolerance := n), inAttributes := false))
  {
    hide Trim, Decimal, ParseU32, FirstWord;
    LetterIsNoSpace('t');
    LetterIsNoSpace('s');
    var rest := Decimal(n) + " " + "failures";
    assert rest[|rest| - 1] == 's';
    PrefixedLine("tolerate ", rest);
    var line := "tolerate " + rest;
    NotPrefix("space ", line, 0);
    NotPrefix("key ", line, 0);
    NotPrefix("subspace ", line, 0);
    NumberIsFirstWord(n, "failures");
    DecimalReadBack(n);
  }

  lemma StepCreate(st: ParseState, n: u32)
    ensures Step(st, "create " + (Decimal(n) + " " + "partitions"))
      == Some(st.(options := st.options.(partitions := n), inAttributes := false))
  {
    hide Trim, Decimal, ParseU32, FirstWord;
    LetterIsNoSpace('c');
    LetterIsNoSpace('s');
    var rest := Decimal(n) + " " + "partitions";
    assert rest[|rest| - 1] == 's';
    PrefixedLine("create ", rest);
    var line := "create " + rest;
    NotPrefix("space ", line, 0);
    NotPrefix("key ", line, 0);
    NotPrefix("subspace ", line, 0);
    NotPrefix("tolerate ", line, 0);
    NumberIsFirstWord(n, "partitions");
    DecimalReadBack(n);
  }

  // -------------------------------------------------------------- printed schemas

  lemma {:induction false} StepsConcat(st: ParseState, a: seq<string>, b: seq<string>)
    requires Steps(st, a).Some?
    ensures Steps(st, a + b) == Steps(Steps(st, a).value, b)
    decreases |a|
  {
    hide Step;
    if a == [] {
      assert a + b == b;
    } else {
      assert (a + b)[1..] == a[1..] + b;
      StepsConcat(Step(st, a[0]).value, a[1..], b);
    }
  }

  function ReadAttributes(attributes: seq<AttributeDefinition>): (r: seq<AttributeDefinition>)
    ensures |r| == |attributes|
    ensures forall i :: 0 <= i < |r| ==> r[i] == AttributeDefinition(ReadName(attributes[i].name), attributes[i].kind)
  {
    seq(|attributes|, i requires 0 <= i < |attributes| => AttributeDefinition(ReadName(attributes[i].name), attributes[i].kind))
  }

  lemma {:induction false} StepsAttributes(st: ParseState, attributes: seq<AttributeDefinition>)
    requires st.inAttributes
    ensures Steps(st, AttributeLines(attributes)) == Some(st.(attributes := st.attributes + ReadAttributes(attributes)))
    decreases |attributes|
  {
    hide Step, ReadName, AttributeLine;
    if attributes == [] {
      assert st.attributes + ReadAttributes(attributes) == st.attributes;
    } else {
      StepAttribute(st, attributes[0]);
      var next := Step(st, AttributeLine(attributes[0])).value;
      StepsAttributes(next, attributes[1..]);
      var first := AttributeDefinition(ReadName(attributes[0].name), attributes[0].kind);
      assert ReadAttributes(attributes) == [first] + ReadAttributes(attributes[1..]);
      Assoc(st.attributes, [first], ReadAttributes(attributes[1..]));
    }
  }

  function Nonempty(subspaces: seq<Subspace>): (r: seq<Subspace>)
    ensures |r| <= |subspaces|
  {
    if subspaces == [] then []
    else
      var rest := Nonempty(subspaces[1..]);
      if subspaces[0].dimensions == [] then rest else [subspaces[0]] + rest
  }

  /** How many attributes named "subspace" the lines of subspaces without
      dimensions leave behind. */
  function Stray(inAttributes: bool, subspaces: seq<Subspace>): seq<AttributeDefinition> {
    if subspaces == [] || !inAttributes || subspaces[0].dimensions != [] then []
    else [AttributeDefinition("subspace", KString)] + Stray(inAttributes, subspaces[1..])
  }

  predicate AllSubspacesOfFields(subspaces: seq<Subspace>) { forall s :: s in subspaces ==> AllFields(s.dimensions) }

  lemma {:induction false} StepsSubspaces(st: ParseState, subspaces: seq<Subspace>)
    requires AllSubspacesOfFields(subspaces)
    ensures Steps(st, SubspaceLines(subspaces)).Some?
    ensures Steps(st, SubspaceLines(subspaces)).value
      == st.(attributes := st.attributes + Stray(st.inAttributes, subspaces),
             subspaces := st.subspaces + Nonempty(subspaces),
             inAttributes := st.inAttributes && Nonempty(subspaces) == [])
    decreases |subspaces|
  {
    hide Step, AllFields;
    if subspaces == [] {
      assert st.attributes + [] == st.attributes && st.subspaces + [] == st.subspaces;
    } else {
      var first, rest := subspaces[0], subspaces[1..];
      assert first in subspaces;
      var next := NextSubspaceState(st, first);
      StepsSubspaces(next, rest);
      assert first == Subspace(first.dimensions);
      if first.dimensions == [] {
        if st.inAttributes { Assoc(st.attributes, [AttributeDefinition("subspace", KString)], Stray(true, rest)); }
      } else {
        Assoc(st.subspaces, [first], Nonempty(rest));
        assert Stray(next.inAttributes, rest) == [] && next.attributes + [] == next.attributes;
        assert st.attributes + [] == st.attributes;
      }
    }
  }

  lemma NextSubspaceState(st: ParseState, first: Subspace) returns (next: ParseState)
    requires AllFields(first.dimensions)
    ensures Step(st, "subspace " + Join(first.dimensions, ", ")) == Some(next)
    ensures next ==
      if first.dimensions != [] then st.(subspaces := st.subspaces + [first], inAttributes := false)
      else if st.inAttributes then st.(attributes := st.attributes + [AttributeDefinition("subspace", KString)]) else st
  {
    hide Step, AllFields;
    if first.dimensions == [] { StepNoDimensions(st); } else { StepSubspace(st, first.dimensions); }
    next := Step(st, "subspace " + Join(first.dimensions, ", ")).value;
  }

  lemma StepsOptions(st: ParseState, options: SpaceOptions)
    ensures Steps(st, OptionLines(options))
      == Some(st.(options := SpaceOptions(options.faultTolerance, options.partitions, st.options.schemaFormat),
                  inAttributes := false))
  {
    hide Step, Decimal;
    StepTolerate(st, options.faultTolerance);
    var lines := OptionLines(options);
    var next := Step(st, lines[0]).value;
    StepCreate(next, options.partitions);
    assert lines[1..] == [lines[1]] && lines[1..][1..] == [];
    OneStep(next, lines[1]);
  }

  lemma OneStep(st: ParseState, line: string)
    ensures Steps(st, [line]) == Step(st, line)
  {
    hide Step;
    if Step(st, line).Some? { assert Steps(Step(st, line).value, []) == Step(st, line); }
  }

  lemma StepsHeader(name: string, key: string)
    requires SafeName(name) && SafeName(key)
    ensures Steps(START, ["space " + name, "key " + key, "attributes"])
      == Some(ParseState(Some(name), Some(key), [], [], DEFAULT_OPTIONS, true))
  {
    hide Step, SafeName;
    StepName(START, name);
    var afterName := Step(START, "space " + name).value;
    StepKey(afterName, key);
    var afterKey := Step(afterName, "key " + key).value;
    StepHeading(afterKey);
    OneStep(afterKey, "attributes");
    var lines := ["space " + name, "key " + key, "attributes"];
    assert lines[1..] == ["key " + key, "attributes"] && lines[1..][1..] == ["attributes"];
  }

  /** A space whose lines are told apart: no line breaks within them. */
  predicate LineSafe(space: Space) {
    && SafeName(space.name) && SafeName(space.keyAttribute)
    && (forall a :: a in space.attributes ==> '\n' !in a.name)
    && AllSubspacesOfFields(space.subspaces)
  }

  lemma {:induction false} AttributeLinesLineLike(attributes: seq<AttributeDefinition>)
    requires forall a :: a in attributes ==> '\n' !in a.name
    ensures forall l :: l in AttributeLines(attributes) ==> LineLike(l)
  {
    hide FormatKind, Trimmed;
    if attributes != [] {
      assert attributes[0] in attributes;
      KindShape(attributes[0].kind);
      var line := AttributeLine(attributes[0]);
      assert line[|line| - 1] == ',';
      AttributeLinesLineLike(attributes[1..]);
    }
  }

  lemma {:induction false} SubspaceLinesLineLike(subspaces: seq<Subspace>)
    requires AllSubspacesOfFields(subspaces)
    ensures forall l :: l in SubspaceLines(subspaces) ==> LineLike(l)
  {
    hide Join, IsSpace;
    if subspaces != [] {
      assert subspaces[0] in subspaces;
      SubspaceLineLike(subspaces[0].dimensions);
      SubspaceLinesLineLike(subspaces[1..]);
    }
  }

  lemma SubspaceLineLike(dimensions: seq<string>)
    requires AllFields(dimensions)
    ensures LineLike("subspace " + Join(dimensions, ", "))
  {
    hide IsSpace;
    if dimensions == [] {
      assert Join(dimensions, ", ") == "";
    } else {
      JoinShape(dimensions);
      VisibleIsNoReturn("subspace ", Join(dimensions, ", "));
    }
  }

  lemma VisibleIsNoReturn(prefix: string, rest: string)
    requires '\n' !in prefix && '\n' !in rest && rest != "" && !IsSpace(rest[|rest| - 1])
    ensures LineLike(prefix + rest)
  {
    assert (prefix + rest)[|prefix + rest| - 1] == rest[|rest| - 1];
  }

  lemma OptionLinesLineLike(options: SpaceOptions)
    ensures forall l :: l in OptionLines(options) ==> LineLike(l)
  {
    hide Decimal, IsSpace;
    DecimalDigits(options.faultTolerance);
    DecimalDigits(options.partitions);
    LetterIsNoSpace('s');
    VisibleIsNoReturn("tolerate ", Decimal(options.faultTolerance) + " " + "failures");
    VisibleIsNoReturn("create ", Decimal(options.partitions) + " " + "partitions");
  }

  lemma PrintedLinesLineLike(space: Space)
    requires LineSafe(space)
    ensures forall l :: l in PrintedLines(space) ==> LineLike(l)
  {
    hide IsSpace, AttributeLines, SubspaceLines, OptionLines, LineLike, AllSubspacesOfFields;
    AttributeLinesLineLike(space.attributes);
    SubspaceLinesLineLike(space.subspaces);
    OptionLinesLineLike(space.options);
    VisibleIsNoReturn("space ", space.name);
    VisibleIsNoReturn("key ", space.keyAttribute);
    HeadingLineLike();
    var head := ["space " + space.name, "key " + space.keyAttribute, "attributes"];
    var body := AttributeLines(space.attributes) + (SubspaceLines(space.subspaces) + OptionLines(space.options));
    assert PrintedLines(space) == head + body;
    assert forall l :: l in head + body ==> l in head || l in body;
  }

  lemma HeadingLineLike()
    ensures LineLike("attributes")
  {
  }

  /** What the parser makes of any printed space, subspaces without dimensions
      and attribute names that end in a comma included. */
  lemma ParsePrinted(space: Space)
    requires LineSafe(space)
    ensures Parse(Format(space)) ==
      var attributes := ReadAttributes(space.attributes) + Stray(true, space.subspaces);
      if attributes == [] then None
      else Some(Space(space.name, space.keyAttribute, attributes, Nonempty(space.subspaces),
                      space.options.(schemaFormat := HyperDexDsl)))
  {
    hide SafeName, AttributeLines, SubspaceLines, OptionLines, Steps, Stray, Nonempty, ReadAttributes, Lines, Terminated,
         AllSubspacesOfFields;
    var lines := PrintedLines(space);
    PrintedLinesLineLike(space);
    LinesOfTerminated(lines);
    var head := ["space " + space.name, "key " + space.keyAttribute, "attributes"];
    var options := OptionLines(space.options);
    var afterHead := ParseState(Some(space.name), Some(space.keyAttribute), [], [], DEFAULT_OPTIONS, true);
    StepsHeader(space.name, space.keyAttribute);
    StepsConcat(START, head, AttributeLines(space.attributes) + (SubspaceLines(space.subspaces) + options));
    StepsAttributes(afterHead, space.attributes);
    StepsConcat(afterHead, AttributeLines(space.attributes), SubspaceLines(space.subspaces) + options);
    var afterAttributes := Steps(afterHead, AttributeLines(space.attributes)).value;
    StepsSubspaces(afterAttributes, space.subspaces);
    StepsConcat(afterAttributes, SubspaceLines(space.subspaces), options);
    var afterSubspaces := Steps(afterAttributes, SubspaceLines(space.subspaces)).value;
    StepsOptions(afterSubspaces, space.options);
    assert [] + ReadAttributes(space.attributes) == ReadAttributes(space.attributes);
    assert [] + Nonempty(space.subspaces) == Nonempty(space.subspaces);
  }

  // ------------------------------------------------------ what the parser can return

  ghost predicate GoodState(st: ParseState) {
    && (st.name.Some? ==> SafeName(st.name.value))
    && (st.key.Some? ==> SafeName(st.key.value))
    && (forall a :: a in st.attributes ==> '\n' !in a.name)
    && AllSubspacesOfFields(st.subspaces)
    && st.options.schemaFormat == HyperDexDsl
  }

  lemma AfterPrefix(line: string, prefix: string)
    requires Trimmed(line) && prefix <= line && prefix != "" && IsSpace(prefix[|prefix| - 1]) && '\n' !in line
    ensures SafeName(Trim(line[|prefix|..]))
  {
    hide IsSpace, Trim;
    assert line[|prefix| - 1] == prefix[|prefix| - 1];
    var rest := line[|prefix|..];
    assert rest == "" ==> line == prefix;
    assert rest[|rest| - 1] == line[|line| - 1];
    TrimKeepsVisible(rest);
    TrimFacts(rest);
    assert forall c :: c in rest ==> c in line;
  }

  lemma AttributeNameHasNoBreak(text: string)
    requires '\n' !in text && ParseAttribute(text).Some?
    ensures '\n' !in ParseAttribute(text).value.name
  {
    hide Trim, TopLevel, ParseKind;
    match TopLevel(text, 0, ' ')
    case None =>
    case Some(at) =>
      TrimFacts(text[at..]);
      assert forall c :: c in text[at..] ==> c in text;
  }

  lemma DimensionsAreFields(rest: string)
    requires '\n' !in rest
    ensures AllFields(TrimFields(SplitOn(rest, ',')))
  {
    hide TrimFields, SplitOn, AllFields;
    SplitPieces(rest, ',');
    forall p | p in SplitOn(rest, ',') ensures ',' !in p && '\n' !in p { assert PieceOf(p, rest, ','); }
    TrimFieldsAreFields(SplitOn(rest, ','));
  }

  lemma StepKeepsGood(st: ParseState, raw: string)
    requires GoodState(st) && '\n' !in raw && Step(st, raw).Some?
    ensures GoodState(Step(st, raw).value)
  {
    hide Trim, SafeName, AllFields, TrimFields, SplitOn, ParseAttribute, ParseCount, IsSpace, Trimmed, TrimEndMatches;
    var line := Trim(raw);
    TrimFacts(raw);
    Blank();
    assert '\n' !in line;
    if line == "" {
    } else if "space " <= line {
      AfterPrefix(line, "space ");
    } else if "key " <= line {
      AfterPrefix(line, "key ");
    } else if line == "attributes" {
    } else if "subspace " <= line {
      DimensionsAreFields(line[9..]);
    } else if "tolerate " <= line || "create " <= line {
    } else if st.inAttributes {
      var text := TrimEndMatches(line, ',');
      assert forall c :: c in line[..|text|] ==> c in line;
      AttributeNameHasNoBreak(text);
    }
  }

  lemma {:induction false} StepsKeepGood(st: ParseState, lines: seq<string>)
    requires GoodState(st) && (forall l :: l in lines ==> '\n' !in l) && Steps(st, lines).Some?
    ensures GoodState(Steps(st, lines).value)
    decreases |lines|
  {
    hide Step, GoodState;
    if lines != [] {
      assert lines[0] in lines;
      StepKeepsGood(st, lines[0]);
      StepsKeepGood(Step(st, lines[0]).value, lines[1..]);
    }
  }

  /** Whatever the text, a parsed schema has lines that can be told apart, at
      least one attribute and the default format. */
  lemma ParsedIsLineSafe(input: string)
    requires Parse(input).Some?
    ensures var space := Parse(input).value;
      LineSafe(space) && space.attributes != [] && space.options.schemaFormat == HyperDexDsl
  {
    hide Steps, Lines, SafeName, AllSubspacesOfFields;
    LinesHaveNoBreak(input);
    StartIsGood();
    StepsKeepGood(START, Lines(input));
  }

  lemma StartIsGood()
    ensures GoodState(START)
  {
  }

  /** What a space must be for its printed form to say all of it. */
  predicate Printable(space: Space) {
    && LineSafe(space)
    && space.attributes != [] && (forall a :: a in space.attributes ==> PlainName(a.name))
    && (forall s :: s in space.subspaces ==> s.dimensions != [])
    && space.options.schemaFormat == HyperDexDsl
  }

  lemma {:induction false} NonemptySame(subspaces: seq<Subspace>)
    ensures Nonempty(subspaces) == subspaces <==> forall s :: s in subspaces ==> s.dimensions != []
  {
    if subspaces != [] {
      NonemptySame(subspaces[1..]);
      assert subspaces[0] in subspaces && subspaces == [subspaces[0]] + subspaces[1..];
    }
  }

  lemma ReadAttributesSame(attributes: seq<AttributeDefinition>)
    ensures ReadAttributes(attributes) == attributes <==> forall a :: a in attributes ==> PlainName(a.name)
  {
    hide ReadName, PlainName;
    var read := ReadAttributes(attributes);
    forall i | 0 <= i < |attributes| ensures read[i] == attributes[i] <==> PlainName(attributes[i].name) {
      ReadNameSame(attributes[i].name);
    }
    if forall a :: a in attributes ==> PlainName(a.name) {
      forall i | 0 <= i < |attributes| ensures read[i] == attributes[i] { assert attributes[i] in attributes; }
    }
    if read == attributes {
      forall a | a in attributes ensures PlainName(a.name) {
        var i :| 0 <= i < |attributes| && attributes[i] == a;
        assert read[i] == attributes[i];
      }
    }
  }

  lemma NoStray(subspaces: seq<Subspace>)
    requires forall s :: s in subspaces ==> s.dimensions != []
    ensures Stray(true, subspaces) == []
  {
    if subspaces != [] { assert subspaces[0] in subspaces; }
  }

  /** The parser reads back a printed space exactly when it is printable. Kinds
      may be nested to any depth. */
  lemma SchemaRoundTrip(space: Space)
    ensures Parse(Format(space)) == Some(space) <==> Printable(space)
  {
    hide Parse, Format, LineSafe, Stray, PlainName;
    if Parse(Format(space)) == Some(space) { ParsedIsLineSafe(Format(space)); }
    if LineSafe(space) {
      ParsePrinted(space);
      NonemptySame(space.subspaces);
      ReadAttributesSame(space.attributes);
      var read, stray := ReadAttributes(space.attributes), Stray(true, space.subspaces);
      assert |read + stray| == |space.attributes| + |stray|;
      assert stray == [] ==> read + stray == read;
      if Printable(space) { NoStray(space.subspaces); }
    }
  }

  // -------------------------------------------------------- which line decides

  predicate LineOf(raw: string, word: string) { word <= Trim(raw) }

  /** Line `i` is the last that starts with the word. */
  predicate LastOf(lines: seq<string>, i: nat, word: string) {
    i < |lines| && LineOf(lines[i], word) && forall j :: i < j < |lines| ==> !LineOf(lines[j], word)
  }

  predicate NoneOf(lines: seq<string>, word: string) { forall j :: 0 <= j < |lines| ==> !LineOf(lines[j], word) }

  /** ... and this is the count it gives. */
  predicate Says(lines: seq<string>, i: nat, word: string, count: u32) {
    LastOf(lines, i, word) && ParseCount(Trim(lines[i])[|word|..]) == Some(count)
  }

  lemma SaysInTail(lines: seq<string>, i: nat, word: string, count: u32)
    requires lines != [] && Says(lines[1..], i, word, count)
    ensures Says(lines, i + 1, word, count)
  {
    hide LineOf, ParseCount, Trim;
    forall j | i + 1 < j < |lines| ensures !LineOf(lines[j], word) { assert lines[j] == lines[1..][j - 1]; }
  }

  lemma TailCases(lines: seq<string>, word: string)
    requires lines != []
    ensures NoneOf(lines, word) <==> !LineOf(lines[0], word) && NoneOf(lines[1..], word)
    ensures LineOf(lines[0], word) && NoneOf(lines[1..], word) ==> LastOf(lines, 0, word)
  {
    hide LineOf;
    assert forall j :: 1 <= j < |lines| ==> lines[j] == lines[1..][j - 1];
    if NoneOf(lines, word) {
      forall j | 0 <= j < |lines[1..]| ensures !LineOf(lines[1..][j], word) { assert lines[1..][j] == lines[j + 1]; }
    }
  }

  lemma StepOptions(st: ParseState, raw: string)
    requires Step(st, raw).Some?
    ensures var after, line := Step(st, raw).value.options, Trim(raw);
      && after.schemaFormat == st.options.schemaFormat
      && (if LineOf(raw, "create ") then ParseCount(line[7..]) == Some(after.partitions)
          else after.partitions == st.options.partitions)
      && (if LineOf(raw, "tolerate ") then ParseCount(line[9..]) == Some(after.faultTolerance)
          else after.faultTolerance == st.options.faultTolerance)
  {
    hide Trim, ParseCount, ParseAttribute, TrimFields, TrimEndMatches;
    var line := Trim(raw);
    if LineOf(raw, "create ") { assert line[0] == 'c'; }
    if LineOf(raw, "tolerate ") { assert line[0] == 't'; }
  }

  function Setting(options: SpaceOptions, word: string): u32 {
    if word == "create " then options.partitions else options.faultTolerance
  }

  lemma StepSetting(st: ParseState, raw: string, word: string)
    requires Step(st, raw).Some? && (word == "create " || word == "tolerate ")
    ensures if LineOf(raw, word) then ParseCount(Trim(raw)[|word|..]) == Some(Setting(Step(st, raw).value.options, word))
            else Setting(Step(st, raw).value.options, word) == Setting(st.options, word)
    ensures Step(st, raw).value.options.schemaFormat == st.options.schemaFormat
  {
    hide Step, ParseCount, Trim;
    StepOptions(st, raw);
  }

  /** The last line that names a setting decides it; without one it stays. */
  lemma {:induction false} LastLineDecides(st: ParseState, lines: seq<string>, word: string)
    requires Steps(st, lines).Some? && (word == "create " || word == "tolerate ")
    ensures var after := Steps(st, lines).value.options;
      && after.schemaFormat == st.options.schemaFormat
      && if NoneOf(lines, word) then Setting(after, word) == Setting(st.options, word)
         else exists i: nat :: Says(lines, i, word, Setting(after, word))
    decreases |lines|
  {
    hide Step, Setting, LineOf, LastOf, NoneOf, ParseCount;
    if lines == [] {
      NoLines(word);
    } else {
      var next := Step(st, lines[0]).value;
      StepSetting(st, lines[0], word);
      TailCases(lines, word);
      LastLineDecides(next, lines[1..], word);
      var after := Setting(Steps(st, lines).value.options, word);
      if !NoneOf(lines[1..], word) {
        var i: nat :| Says(lines[1..], i, word, after);
        SaysInTail(lines, i, word, after);
      } else if LineOf(lines[0], word) {
        assert Says(lines, 0, word, after);
      }
    }
  }

  lemma NoLines(word: string)
    ensures NoneOf([], word)
  {
  }

  /** What a text without a "tolerate" or "create" line leaves to the defaults,
      and which line decides in any other. */
  lemma ParsedOptions(input: string)
    requires Parse(input).Some?
    ensures var options, lines := Parse(input).value.options, Lines(input);
      && options.schemaFormat == HyperDexDsl
      && (if NoneOf(lines, "tolerate ") then options.faultTolerance == 0
          else exists i: nat :: Says(lines, i, "tolerate ", options.faultTolerance))
      && (if NoneOf(lines, "create ") then options.partitions == 64
          else exists i: nat :: Says(lines, i, "create ", options.partitions))
  {
    hide Steps, Lines, NoneOf, Says;
    LastLineDecides(START, Lines(input), "tolerate ");
    LastLineDecides(START, Lines(input), "create ");
  }

  // ------------------------------------------------------- what is an attribute

  predicate Heading(raw: string) { Trim(raw) == "attributes" }

  /** A line of another sort, which ends the list of attributes. */
  predicate Ends(raw: string) {
    LineOf(raw, "space ") || LineOf(raw, "key ") || LineOf(raw, "subspace ") || LineOf(raw, "tolerate ") || LineOf(raw, "create ")
  }

  predicate OtherLine(raw: string) { Trim(raw) != "" && !Heading(raw) && !Ends(raw) }

  /** One line: it opens or ends the list of attributes, adds one to an open list,
      adds a subspace, or replaces the name or the key. */
  lemma StepSorts(st: ParseState, raw: string)
    requires Step(st, raw).Some?
    ensures var next := Step(st, raw).value;
      && next.inAttributes == (Heading(raw) || (!Ends(raw) && st.inAttributes))
      && |next.attributes| == |st.attributes| + (if OtherLine(raw) && st.inAttributes then 1 else 0)
      && st.attributes <= next.attributes
      && |next.subspaces| == |st.subspaces| + (if LineOf(raw, "subspace ") then 1 else 0) && st.subspaces <= next.subspaces
      && next.name == (if LineOf(raw, "space ") then Some(Trim(Trim(raw)[6..])) else st.name)
      && next.key == (if LineOf(raw, "key ") then Some(Trim(Trim(raw)[4..])) else st.key)
  {
    hide Trim, ParseCount, ParseAttribute, TrimFields, TrimEndMatches, SplitOn;
    var line := Trim(raw);
    if LineOf(raw, "subspace ") { assert line[0] == 's' && line[1] == 'u'; }
    if LineOf(raw, "space ") { assert line[1] == 'p'; }
    if LineOf(raw, "key ") { assert line[0] == 'k'; }
    if Heading(raw) { assert line[0] == 'a'; }
  }

  /** Before line `n` the list of attributes is open: a heading came and nothing
      that ends it since. */
  ghost predicate Open(lines: seq<string>, n: nat)
    requires n <= |lines|
  {
    exists h :: 0 <= h < n && Heading(lines[h]) && forall j :: h < j < n ==> !Ends(lines[j])
  }

  lemma OpenNext(lines: seq<string>, n: nat)
    requires n < |lines|
    ensures Open(lines, n + 1) <==> Heading(lines[n]) || (!Ends(lines[n]) && Open(lines, n))
  {
    hide Heading, Ends;
    if !Heading(lines[n]) && !Ends(lines[n]) && Open(lines, n) {
      var h :| 0 <= h < n && Heading(lines[h]) && forall j :: h < j < n ==> !Ends(lines[j]);
      assert forall j :: h < j < n + 1 ==> !Ends(lines[j]);
    }
  }

  /** The attributes a text declares so far: the other lines of open lists. */
  ghost function Declared(lines: seq<string>, n: nat): nat
    requires n <= |lines|
  {
    if n == 0 then 0 else Declared(lines, n - 1) + if OtherLine(lines[n - 1]) && Open(lines, n - 1) then 1 else 0
  }

  /** Over every text, the attributes are the lines between a heading and the next
      line of another sort. */
  lemma {:induction false} AttributesAreDeclared(lines: seq<string>, n: nat)
    requires n <= |lines| && Steps(START, lines[..n]).Some?
    ensures var st := Steps(START, lines[..n]).value;
      (st.inAttributes <==> Open(lines, n)) && |st.attributes| == Declared(lines, n)
    decreases n
  {
    hide Step, Steps, Open, OtherLine, Heading, Ends, LineOf;
    if n == 0 {
      NothingRead(lines);
    } else {
      LastStep(lines, n);
      var before := Steps(START, lines[..n - 1]).value;
      AttributesAreDeclared(lines, n - 1);
      StepSorts(before, lines[n - 1]);
      OpenNext(lines, n - 1);
    }
  }

  lemma NothingRead(lines: seq<string>)
    ensures Steps(START, lines[..0]) == Some(START) && !Open(lines, 0)
  {
    assert lines[..0] == [];
  }

  lemma LastStep(lines: seq<string>, n: nat)
    requires 0 < n <= |lines| && Steps(START, lines[..n]).Some?
    ensures Steps(START, lines[..n - 1]).Some?
    ensures Step(Steps(START, lines[..n - 1]).value, lines[n - 1]) == Steps(START, lines[..n])
  {
    hide Step;
    assert lines[..n] == lines[..n - 1] + [lines[n - 1]];
    StepsBefore(START, lines[..n - 1], [lines[n - 1]]);
    StepsConcat(START, lines[..n - 1], [lines[n - 1]]);
    OneStep(Steps(START, lines[..n - 1]).value, lines[n - 1]);
  }

  lemma {:induction false} StepsBefore(st: ParseState, a: seq<string>, b: seq<string>)
    requires Steps(st, a + b).Some?
    ensures Steps(st, a).Some?
    decreases |a|
  {
    hide Step;
    if a != [] {
      assert (a + b)[1..] == a[1..] + b && (a + b)[0] == a[0];
      StepsBefore(Step(st, a[0]).value, a[1..], b);
    }
  }

  // ----------------------------------------------------------------- the words

  /** The words of the language for kinds; "int64" is read as "int" is. */
  lemma KindWords()
    ensures FormatKind(KBool) == "bool" && FormatKind(KInt) == "int" && FormatKind(KFloat) == "float"
    ensures FormatKind(KBytes) == "bytes" && FormatKind(KString) == "string" && FormatKind(KDocument) == "document"
    ensures FormatUnit(Second) == "second" && FormatUnit(Minute) == "minute" && FormatUnit(Hour) == "hour"
    ensures FormatUnit(Day) == "day" && FormatUnit(Week) == "week" && FormatUnit(Month) == "month"
    ensures ParseKind("int64") == Some(KInt)
  {
  }

  lemma WrapIs(word: string, inner: string)
    ensures Wrap(word, inner) == word + "(" + inner + ")"
  {
    Assoc(word + "(", inner, ")");
    Assoc(word, "(", inner + ")");
  }

  lemma ContainerWords(a: ValueKind, b: ValueKind, unit: TimeUnit)
    ensures FormatKind(KList(a)) == "list" + "(" + FormatKind(a) + ")" && FormatKind(KSet(a)) == "set" + "(" + FormatKind(a) + ")"
    ensures FormatKind(KMap(a, b)) == "map" + "(" + (FormatKind(a) + (", " + FormatKind(b))) + ")"
    ensures FormatKind(KTimestamp(unit)) == "timestamp" + "(" + FormatUnit(unit) + ")"
  {
    hide FormatUnit, Wrap;
    WrapIs("list", FormatKind(a));
    WrapIs("set", FormatKind(a));
    WrapIs("map", FormatKind(a) + (", " + FormatKind(b)));
    WrapIs("timestamp", FormatUnit(unit));
  }

  lemma OneAttribute(a: AttributeDefinition)
    ensures AttributeLines([a]) == [AttributeLine(a)]
  {
    assert [a][1..] == [];
  }

  lemma OneSubspace(one: string, two: string)
    ensures SubspaceLines([Subspace([one, two])]) == ["subspace " + (one + ", " + two)]
  {
    var list := [Subspace([one, two])];
    assert list[1..] == [] && [one, two][1..] == [two] && Join([two], ", ") == two;
    assert Join(list[0].dimensions, ", ") == one + ", " + two;
    assert SubspaceLines(list[1..]) == [];
  }

  /** The lines of a schema with one attribute and one subspace of two. */
  lemma PrintedWords(name: string, key: string, attribute: string, one: string, two: string, options: SpaceOptions)
    ensures PrintedLines(Space(name, key, [AttributeDefinition(attribute, KInt)], [Subspace([one, two])], options))
      == ["space " + name, "key " + key, "attributes", "    " + ("int" + (" " + (attribute + ","))),
          "subspace " + (one + ", " + two), "tolerate " + (Decimal(options.faultTolerance) + (" " + "failures")),
          "create " + (Decimal(options.partitions) + (" " + "partitions"))]
  {
    hide Decimal, AttributeLines, SubspaceLines, Join;
    OneAttribute(AttributeDefinition(attribute, KInt));
    OneSubspace(one, two);
    Assoc(Decimal(options.faultTolerance), " ", "failures");
    Assoc(Decimal(options.partitions), " ", "partitions");
  }
}
