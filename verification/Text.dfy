/** The string operations of the source's standard library that the schema
    language uses, on sequences of Unicode scalar values. */
module Text {
  import opened Arithmetic
  import opened Base

  /** The White_Space property of the Unicode Character Database. */
  predicate IsSpace(c: char) {
    var n := c as int;
    || 0x09 <= n <= 0x0D || n == 0x20 || n == 0x85 || n == 0xA0 || n == 0x1680
    || 0x2000 <= n <= 0x200A || n == 0x2028 || n == 0x2029 || n == 0x202F || n == 0x205F || n == 0x3000
  }

  /** The twenty-five characters that have it. */
  lemma SpacesAre(c: char)
    ensures IsSpace(c) <==>
      c as int in {9, 10, 11, 12, 13, 32, 133, 160, 5760, 8192, 8193, 8194, 8195, 8196, 8197, 8198, 8199, 8200, 8201, 8202,
                   8232, 8233, 8239, 8287, 12288}
  {
  }

  // -------------------------------------------------------------------- trimming

  function TrimStart(s: string): (r: string)
    ensures |r| <= |s|
  {
    if s != "" && IsSpace(s[0]) then TrimStart(s[1..]) else s
  }

  function TrimEnd(s: string): (r: string)
    ensures |r| <= |s|
  {
    if s != "" && IsSpace(s[|s| - 1]) then TrimEnd(s[..|s| - 1]) else s
  }

  function Trim(s: string): (r: string)
    ensures |r| <= |s|
  {
    TrimEnd(TrimStart(s))
  }

  predicate Trimmed(s: string) { s == "" || (!IsSpace(s[0]) && !IsSpace(s[|s| - 1])) }

  predicate CharsFrom(s: string, t: string) { forall c :: c in s ==> c in t }

  lemma {:induction false} TrimStartFacts(s: string)
    ensures CharsFrom(TrimStart(s), s)
    ensures TrimStart(s) == "" || !IsSpace(TrimStart(s)[0])
    ensures s != "" && !IsSpace(s[|s| - 1]) ==> TrimStart(s) != "" && TrimStart(s)[|TrimStart(s)| - 1] == s[|s| - 1]
  {
    hide IsSpace;
    if s != "" && IsSpace(s[0]) {
      TrimStartFacts(s[1..]);
      assert forall c :: c in s[1..] ==> c in s;
    }
  }

  lemma {:induction false} TrimEndFacts(s: string)
    ensures CharsFrom(TrimEnd(s), s)
    ensures TrimEnd(s) == "" || !IsSpace(TrimEnd(s)[|TrimEnd(s)| - 1])
    ensures s != "" && !IsSpace(s[0]) ==> TrimEnd(s) != "" && TrimEnd(s)[0] == s[0]
  {
    hide IsSpace;
    if s != "" && IsSpace(s[|s| - 1]) {
      TrimEndFacts(s[..|s| - 1]);
      assert forall c :: c in s[..|s| - 1] ==> c in s;
    }
  }

  /** Trimming leaves a trimmed string, and leaves trimmed strings alone. */
  lemma TrimFacts(s: string)
    ensures Trimmed(Trim(s)) && CharsFrom(Trim(s), s)
    ensures Trimmed(s) ==> Trim(s) == s
  {
    hide IsSpace, TrimStart, TrimEnd;
    TrimStartFacts(s);
    TrimEndFacts(TrimStart(s));
    if Trimmed(s) { UntouchedEnds(s); }
  }

  lemma UntouchedEnds(s: string)
    requires Trimmed(s)
    ensures TrimStart(s) == s && TrimEnd(s) == s
  {
  }

  /** Leading blanks go away. */
  lemma {:induction false} TrimBlanks(blanks: string, s: string)
    requires Trimmed(s) && s != "" && forall c :: c in blanks ==> IsSpace(c)
    ensures Trim(blanks + s) == s
  {
    hide IsSpace;
    if blanks == "" {
      assert blanks + s == s;
      UntouchedEnds(s);
    } else {
      assert (blanks + s)[0] == blanks[0] && blanks[0] in blanks && (blanks + s)[1..] == blanks[1..] + s;
      TrimBlanks(blanks[1..], s);
    }
  }

  // ------------------------------------------------------------ prefixes, suffixes

  function StripPrefix(s: string, prefix: string): Option<string> {
    if prefix <= s then Some(s[|prefix|..]) else None
  }

  function StripLast(s: string, c: char): Option<string> {
    if s != "" && s[|s| - 1] == c then Some(s[..|s| - 1]) else None
  }

  /** All trailing copies of `c` removed. */
  function TrimEndMatches(s: string, c: char): (r: string)
    ensures |r| <= |s| && r == s[..|r|]
    ensures r == "" || r[|r| - 1] != c
  {
    if s != "" && s[|s| - 1] == c then TrimEndMatches(s[..|s| - 1], c) else s
  }

  // ------------------------------------------------------------------- splitting

  function IndexOf(s: string, c: char): (r: Option<nat>)
    ensures r.Some? ==> r.value < |s| && s[r.value] == c && c !in s[..r.value]
    ensures r.None? ==> c !in s
  {
    if s == "" then None
    else if s[0] == c then Some(0)
    else
      var rest := IndexOf(s[1..], c);
      if rest.None? then None
      else
        assert s[..rest.value + 1] == [s[0]] + s[1..][..rest.value];
        Some(rest.value + 1)
  }

  lemma {:induction false} IndexOfFirst(before: string, c: char, after: string)
    requires c !in before
    ensures IndexOf(before + [c] + after, c) == Some(|before|)
  {
    var s := before + [c] + after;
    if before != "" {
      assert s[1..] == before[1..] + [c] + after;
      IndexOfFirst(before[1..], c, after);
    }
  }

  lemma {:induction false} IndexOfAbsent(s: string, c: char)
    requires c !in s
    ensures IndexOf(s, c) == None
  {
    if s != "" { IndexOfAbsent(s[1..], c); }
  }

  function SplitOn(s: string, c: char): seq<string>
    decreases |s|
  {
    match IndexOf(s, c)
    case None => [s]
    case Some(i) => [s[..i]] + SplitOn(s[i + 1..], c)
  }

  function Join(parts: seq<string>, separator: string): string {
    if parts == [] then ""
    else if |parts| == 1 then parts[0]
    else parts[0] + separator + Join(parts[1..], separator)
  }

  /** The lines of a text; a line ending does not start another line. */
  function Lines(s: string): seq<string>
    decreases |s|
  {
    if s == "" then []
    else
      match IndexOf(s, '\n')
      case None => [s]
      case Some(i) =>
        var line := s[..i];
        [if line != "" && line[|line| - 1] == '\r' then line[..|line| - 1] else line] + Lines(s[i + 1..])
  }

  /** Every line with its line ending. */
  function Terminated(lines: seq<string>): string {
    if lines == [] then "" else lines[0] + "\n" + Terminated(lines[1..])
  }

  predicate LineLike(s: string) { '\n' !in s && (s == "" || s[|s| - 1] != '\r') }

  lemma {:induction false} LinesOfTerminated(lines: seq<string>)
    requires forall l :: l in lines ==> LineLike(l)
    ensures Lines(Terminated(lines)) == lines
  {
    if lines != [] {
      var first, rest := lines[0], Terminated(lines[1..]);
      assert first in lines;
      LinesOfTerminated(lines[1..]);
      IndexOfFirst(first, '\n', rest);
      var s := first + "\n" + rest;
      assert s[..|first|] == first && s[|first| + 1..] == rest;
      assert lines == [first] + lines[1..];
    }
  }

  lemma {:induction false} LinesHaveNoBreak(s: string)
    ensures forall l :: l in Lines(s) ==> '\n' !in l
    decreases |s|
  {
    if s != "" && IndexOf(s, '\n').Some? {
      LinesHaveNoBreak(s[IndexOf(s, '\n').value + 1..]);
    }
  }

  /** Joining with line breaks after appending an empty line ends every line. */
  lemma {:induction false} JoinWithLast(lines: seq<string>)
    ensures Join(lines + [""], "\n") == Terminated(lines)
  {
    if lines != [] {
      JoinWithLast(lines[1..]);
      assert (lines + [""])[1..] == lines[1..] + [""];
    }
  }

  /** The fields between commas, trimmed; empty ones are dropped. */
  function TrimFields(fields: seq<string>): seq<string> {
    if fields == [] then []
    else
      var first, rest := Trim(fields[0]), TrimFields(fields[1..]);
      if first == "" then rest else [first] + rest
  }

  predicate IsField(s: string) { s != "" && Trimmed(s) && ',' !in s && '\n' !in s }

  /** A printed list of fields is read back, whatever blanks come before it. */
  lemma {:induction false} FieldsReadBack(blanks: string, fields: seq<string>)
    requires fields != [] && forall f :: f in fields ==> IsField(f)
    requires forall c :: c in blanks ==> IsSpace(c) && c != ','
    ensures TrimFields(SplitOn(blanks + Join(fields, ", "), ',')) == fields
    decreases |fields|
  {
    hide Trim, IsSpace;
    var f := fields[0];
    assert f in fields;
    TrimBlanks(blanks, f);
    if |fields| == 1 {
      IndexOfAbsent(blanks + f, ',');
      assert TrimFields([blanks + f]) == [f] + TrimFields([]);
    } else {
      var rest := " " + Join(fields[1..], ", ");
      var s := blanks + Join(fields, ", ");
      assert s == (blanks + f) + "," + rest;
      IndexOfFirst(blanks + f, ',', rest);
      assert s[..|blanks + f|] == blanks + f && s[|blanks + f| + 1..] == rest;
      Blank();
      FieldsReadBack(" ", fields[1..]);
      FirstField(blanks + f, SplitOn(rest, ','), f);
      assert fields == [f] + fields[1..];
    }
  }

  lemma FirstField(first: string, rest: seq<string>, trimmed: string)
    requires Trim(first) == trimmed != ""
    ensures TrimFields([first] + rest) == [trimmed] + TrimFields(rest)
  {
    hide Trim;
    assert ([first] + rest)[1..] == rest;
  }

  lemma Blank()
    ensures IsSpace(' ')
  {
  }

  // --------------------------------------------------------------------- numbers

  function Digit(d: nat): char
    requires d < 10
  {
    ('0' as int + d) as char
  }

  function Decimal(n: nat): (s: string)
    ensures s != ""
  {
    if n < 10 then [Digit(n)] else Decimal(n / 10) + [Digit(n % 10)]
  }

  predicate IsDigit(c: char) { '0' <= c <= '9' }

  function DigitsValue(s: string): Option<nat> {
    if s == "" then Some(0)
    else if !IsDigit(s[|s| - 1]) then None
    else
      var high :- DigitsValue(s[..|s| - 1]);
      Some(10 * high + (s[|s| - 1] as int - '0' as int))
  }

  /** An unsigned 32-bit number as the source's standard library parses it:
      digits, perhaps after a plus sign. */
  function ParseU32(s: string): Option<u32> {
    var digits := if s != "" && s[0] == '+' then s[1..] else s;
    if digits == "" then None
    else
      var n :- DigitsValue(digits);
      if n >= 0x1_0000_0000 then None else Some(n)
  }

  lemma {:induction false} DecimalDigits(n: nat)
    ensures DigitsValue(Decimal(n)) == Some(n)
    ensures forall c :: c in Decimal(n) ==> IsDigit(c)
  {
    if n >= 10 {
      DecimalDigits(n / 10);
      var s := Decimal(n);
      assert s[..|s| - 1] == Decimal(n / 10) && s[|s| - 1] == Digit(n % 10);
    } else {
      assert [Digit(n)][..0] == "";
    }
  }

  /** The digit with `i` digits after it counts the tens of order `i`. */
  lemma {:induction false} DecimalPlaces(n: nat, i: nat)
    requires i < |Decimal(n)|
    ensures Tens(i) > 0 && Decimal(n)[|Decimal(n)| - 1 - i] as int - '0' as int == n / Tens(i) % 10
  {
    TensPositive(i);
    if i > 0 {
      TensPositive(i - 1);
      DecimalPlaces(n / 10, i - 1);
      DivideByTen(n, Tens(i - 1));
    }
  }

  function Tens(e: nat): nat { if e == 0 then 1 else 10 * Tens(e - 1) }

  lemma {:induction false} TensPositive(e: nat)
    ensures Tens(e) > 0
  {
    if e > 0 { TensPositive(e - 1); }
  }

  lemma DivideByTen(n: nat, d: nat)
    requires d > 0
    ensures n / (10 * d) == n / 10 / d
  {
    var h := n / 10;
    var q := h / d;
    assert h == d * q + h % d && n == 10 * h + n % 10;
    assert n == (10 * d) * q + (10 * (h % d) + n % 10);
    QuotientIs(n, 10 * d, q, 10 * (h % d) + n % 10);
  }

  /** A plus sign makes no difference, but a number needs a digit. */
  lemma PlusMakesNoDifference(s: string)
    ensures s != "" && s[0] != '+' ==> ParseU32("+" + s) == ParseU32(s)
    ensures ParseU32("") == None && ParseU32("+") == None
  {
    hide DigitsValue;
    assert ("+" + s)[1..] == s;
  }

  lemma DecimalReadBack(n: u32)
    ensures ParseU32(Decimal(n)) == Some(n)
  {
    hide Decimal, DigitsValue;
    DecimalDigits(n);
    assert Decimal(n)[0] in Decimal(n);
  }

  /** The first word of a text, up to the next blank. */
  function Word(s: string): (r: string)
    ensures |r| <= |s|
  {
    if s == "" || IsSpace(s[0]) then "" else [s[0]] + Word(s[1..])
  }

  function FirstWord(s: string): Option<string> {
    var start := TrimStart(s);
    if start == "" then None else Some(Word(start))
  }

  lemma {:induction false} WordUpToBlank(word: string, rest: string)
    requires forall c :: c in word ==> !IsSpace(c)
    ensures Word(word + " " + rest) == word
  {
    hide IsSpace;
    Blank();
    var s := word + " " + rest;
    if word != "" {
      assert s[1..] == word[1..] + " " + rest && s[0] == word[0] && word[0] in word;
      WordUpToBlank(word[1..], rest);
      assert word == [word[0]] + word[1..];
    }
  }

  lemma NumberIsFirstWord(n: nat, rest: string)
    ensures FirstWord(Decimal(n) + " " + rest) == Some(Decimal(n))
  {
    hide Decimal;
    DecimalDigits(n);
    var s := Decimal(n) + " " + rest;
    assert s[0] == Decimal(n)[0] && Decimal(n)[0] in Decimal(n);
    assert TrimStart(s) == s;
    WordUpToBlank(Decimal(n), rest);
  }

  // ------------------------------------------------------------------ more facts

  lemma TrimBlankFront(s: string)
    ensures Trim(" " + s) == Trim(s)
  {
    hide TrimEnd;
    Blank();
    assert (" " + s)[1..] == s;
  }

  /** Something is left of a text that ends in a visible character. */
  lemma TrimKeepsVisible(s: string)
    requires s != "" && !IsSpace(s[|s| - 1])
    ensures Trim(s) != ""
  {
    hide TrimStart, TrimEnd, IsSpace;
    TrimStartFacts(s);
    TrimEndFacts(TrimStart(s));
  }

  lemma NotPrefix(prefix: string, s: string, i: nat)
    requires i < |prefix| && i < |s| && prefix[i] != s[i]
    ensures !(prefix <= s)
  {
  }

  /** A fixed word and what follows it make up a line that trimming leaves alone. */
  lemma PrefixedLine(prefix: string, rest: string)
    requires prefix != "" && !IsSpace(prefix[0]) && rest != "" && !IsSpace(rest[|rest| - 1])
    ensures var s := prefix + rest;
      && Trim(s) == s && prefix <= s && s[|prefix|..] == rest && s[0] == prefix[0] && s[|s| - 1] == rest[|rest| - 1]
  {
    hide IsSpace, Trim;
    TrimFacts(prefix + rest);
  }

  lemma {:induction false} TrimEndOver(prefix: string, s: string, c: char)
    requires prefix != "" && prefix[|prefix| - 1] != c
    ensures TrimEndMatches(prefix + s, c) == prefix + TrimEndMatches(s, c)
  {
    var whole := prefix + s;
    if s == "" {
      assert whole == prefix;
    } else {
      assert whole[|whole| - 1] == s[|s| - 1] && whole[..|whole| - 1] == prefix + s[..|s| - 1];
      if s[|s| - 1] == c { TrimEndOver(prefix, s[..|s| - 1], c); }
    }
  }

  lemma {:induction false} JoinShape(fields: seq<string>)
    requires fields != [] && forall f :: f in fields ==> IsField(f)
    ensures var s := Join(fields, ", "); s != "" && !IsSpace(s[|s| - 1]) && '\n' !in s
    decreases |fields|
  {
    hide IsSpace;
    assert fields[0] in fields;
    if |fields| > 1 {
      JoinShape(fields[1..]);
      var rest := Join(fields[1..], ", ");
      var s := fields[0] + ", " + rest;
      assert s[|s| - 1] == rest[|rest| - 1];
    }
  }

  predicate AllFields(fields: seq<string>) { forall f :: f in fields ==> IsField(f) }

  lemma {:induction false} TrimFieldsAreFields(pieces: seq<string>)
    requires forall p :: p in pieces ==> ',' !in p && '\n' !in p
    ensures AllFields(TrimFields(pieces))
  {
    hide Trim, Trimmed;
    if pieces != [] {
      assert pieces[0] in pieces;
      TrimFacts(pieces[0]);
      TrimFieldsAreFields(pieces[1..]);
      var first, rest := Trim(pieces[0]), TrimFields(pieces[1..]);
      assert forall f :: f in [first] + rest ==> f == first || f in rest;
    }
  }

  predicate PieceOf(p: string, s: string, c: char) { c !in p && CharsFrom(p, s) }

  lemma {:induction false} SplitPieces(s: string, c: char)
    ensures forall p :: p in SplitOn(s, c) ==> PieceOf(p, s, c)
    decreases |s|
  {
    match IndexOf(s, c)
    case None =>
    case Some(i) =>
      var rest := s[i + 1..];
      SplitPieces(rest, c);
      assert forall x :: x in rest ==> x in s;
      assert forall x :: x in s[..i] ==> x in s;
      forall p | p in SplitOn(s, c) ensures PieceOf(p, s, c) {
        if p != s[..i] { assert p in SplitOn(rest, c) && PieceOf(p, rest, c); }
      }
  }
}
