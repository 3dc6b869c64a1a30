/** The vault registry as a file: parsing it into sections of raw lines, and printing it again (src/config.rs). */
module Registry {
  import opened Common
  import opened Text

  /** The raw lines after a `[name]` header, comments and blanks included. */
  datatype Section = Section(name: string, lines: seq<string>)

  datatype Registry = Registry(preamble: seq<string>, sections: seq<Section>)

  datatype ParseError = MalformedHeader(line: nat) | InvalidAlias(line: nat) | DuplicateSection(line: nat)

  datatype ParseResult = Parsed(r: Registry) | Rejected(error: ParseError)

  // --- parsing ---------------------------------------------------------------------

  predicate Alphanumeric(c: char) {
    'a' <= c <= 'z' || 'A' <= c <= 'Z' || '0' <= c <= '9'
  }

  predicate ValidAlias(alias: string) {
    && alias != "" && Alphanumeric(alias[0])
    && forall i :: 0 <= i < |alias| ==> Alphanumeric(alias[i]) || alias[i] in {'-', '_', '.'}
  }

  predicate IsHeader(raw: string) {
    StartsWith(Trim(raw), '[')
  }

  function HeaderName(raw: string): Option<string> {
    var line := Trim(raw);
    if |line| >= 2 && line[0] == '[' && EndsWith(line, ']') then Some(Trim(line[1..|line| - 1])) else None
  }

  predicate HasSection(sections: seq<Section>, name: string) {
    exists i :: 0 <= i < |sections| && sections[i].name == name
  }

  /** A line that is no header goes to the section it follows, or to the preamble. */
  function Appended(r: Registry, raw: string): Registry {
    if r.sections == [] then r.(preamble := r.preamble + [raw])
    else
      var last := r.sections[|r.sections| - 1];
      r.(sections := r.sections[..|r.sections| - 1] + [last.(lines := last.lines + [raw])])
  }

  function AddLine(r: Registry, raw: string, number: nat): ParseResult {
    if !IsHeader(raw) then Parsed(Appended(r, raw))
    else
      match HeaderName(raw)
      case None => Rejected(MalformedHeader(number))
      case Some(name) =>
        if !ValidAlias(name) then Rejected(InvalidAlias(number))
        else if HasSection(r.sections, name) then Rejected(DuplicateSection(number))
        else Parsed(r.(sections := r.sections + [Section(name, [])]))
  }

  function ParseLines(lines: seq<string>): ParseResult {
    if lines == [] then Parsed(Registry([], []))
    else
      match ParseLines(lines[..|lines| - 1])
      case Rejected(e) => Rejected(e)
      case Parsed(r) => AddLine(r, lines[|lines| - 1], |lines|)
  }

  function ParseText(text: string): ParseResult {
    ParseLines(Lines(text))
  }

  // --- printing --------------------------------------------------------------------

  function Header(name: string): string {
    "[" + name + "]"
  }

  function SectionLines(sections: seq<Section>): seq<string> {
    if sections == [] then []
    else
      var last := sections[|sections| - 1];
      SectionLines(sections[..|sections| - 1]) + [Header(last.name)] + last.lines
  }

  function AllLines(r: Registry): seq<string> {
    r.preamble + SectionLines(r.sections)
  }

  function Printed(r: Registry): string {
    PopBlank(Join(AllLines(r)))
  }

  // --- well-formed registries --------------------------------------------------------

  /** A line that parsing keeps as it is. */
  ghost predicate Plain(line: string) {
    OneLine(line) && !IsHeader(line)
  }

  ghost predicate AllPlain(lines: seq<string>) {
    forall i :: 0 <= i < |lines| ==> Plain(lines[i])
  }

  ghost predicate SectionsOk(sections: seq<Section>) {
    && (forall i :: 0 <= i < |sections| ==> ValidAlias(sections[i].name) && AllPlain(sections[i].lines))
    && (forall i, j :: 0 <= i < j < |sections| ==> sections[i].name != sections[j].name)
  }

  ghost predicate WellFormed(r: Registry) {
    AllPlain(r.preamble) && SectionsOk(r.sections)
  }

  lemma {:induction false} AppendedWellFormed(r: Registry, raw: string)
    requires WellFormed(r) && Plain(raw)
    ensures WellFormed(Appended(r, raw))
  {
    hide Plain, ValidAlias;
  }

  lemma {:induction false} AddLineWellFormed(r: Registry, raw: string, number: nat)
    requires WellFormed(r) && OneLine(raw) && AddLine(r, raw, number).Parsed?
    ensures WellFormed(AddLine(r, raw, number).r)
  {
    if !IsHeader(raw) { AppendedWellFormed(r, raw); }
    hide Plain, ValidAlias, OneLine, IsHeader, HeaderName, Appended;
  }

  /** What parsing accepts is well formed: valid, distinct section names over lines that are no headers. */
  lemma {:induction false} ParsedIsWellFormed(lines: seq<string>)
    requires AllOneLine(lines) && ParseLines(lines).Parsed?
    ensures WellFormed(ParseLines(lines).r)
    decreases |lines|
  {
    if lines == [] {
    } else {
      assert OneLine(lines[|lines| - 1]);
      ParsedIsWellFormed(lines[..|lines| - 1]);
      hide WellFormed, AddLine, OneLine;
      AddLineWellFormed(ParseLines(lines[..|lines| - 1]).r, lines[|lines| - 1], |lines|);
    }
  }

  // --- parsing undoes printing ----------------------------------------------------------

  lemma {:induction false} AliasTrimmed(name: string)
    requires ValidAlias(name)
    ensures Trim(name) == name && Trim(Header(name)) == Header(name) && OneLine(name)
  {
    TrimTrims(name);
    TrimTrims(Header(name));
  }

  lemma {:induction false} HeaderParses(name: string)
    requires ValidAlias(name)
    ensures IsHeader(Header(name)) && HeaderName(Header(name)) == Some(name)
    ensures OneLine(Header(name)) && StripCr(Header(name)) == Header(name) && Header(name) != ""
  {
    AliasTrimmed(name);
    hide Trim, ValidAlias;
    assert Header(name)[1..|Header(name)| - 1] == name;
  }

  lemma {:induction false} ParseAppended(lines: seq<string>, r: Registry, raw: string)
    requires ParseLines(lines) == Parsed(r)
    ensures ParseLines(lines + [raw]) == AddLine(r, raw, |lines| + 1)
  {
    assert (lines + [raw])[..|lines|] == lines;
  }

  lemma {:induction false} RejectedPrefix(lines: seq<string>, n: nat)
    requires n <= |lines| && ParseLines(lines[..n]).Rejected?
    ensures ParseLines(lines) == ParseLines(lines[..n])
    decreases |lines|
  {
    hide AddLine;
    if n == |lines| {
      assert lines[..n] == lines;
    } else {
      assert lines[..|lines| - 1][..n] == lines[..n];
      RejectedPrefix(lines[..|lines| - 1], n);
    }
  }

  /** The registry without its last line, or without its last header. */
  ghost function Shorter(r: Registry): Registry
    requires r.preamble != [] || r.sections != []
  {
    if r.sections == [] then r.(preamble := r.preamble[..|r.preamble| - 1])
    else
      var init, last := r.sections[..|r.sections| - 1], r.sections[|r.sections| - 1];
      if last.lines == [] then r.(sections := init)
      else r.(sections := init + [last.(lines := last.lines[..|last.lines| - 1])])
  }

  ghost function LastLine(r: Registry): string
    requires r.preamble != [] || r.sections != []
  {
    if r.sections == [] then r.preamble[|r.preamble| - 1]
    else
      var last := r.sections[|r.sections| - 1];
      if last.lines == [] then Header(last.name) else last.lines[|last.lines| - 1]
  }

  lemma {:induction false} ShorterLines(r: Registry)
    requires r.preamble != [] || r.sections != []
    ensures AllLines(r) == AllLines(Shorter(r)) + [LastLine(r)]
  {
    if r.sections != [] {
      var init, last := r.sections[..|r.sections| - 1], r.sections[|r.sections| - 1];
      if last.lines != [] {
        var cut := init + [last.(lines := last.lines[..|last.lines| - 1])];
        assert cut[..|cut| - 1] == init;
        assert last.lines == last.lines[..|last.lines| - 1] + [last.lines[|last.lines| - 1]];
      }
    } else {
      assert r.preamble == r.preamble[..|r.preamble| - 1] + [r.preamble[|r.preamble| - 1]];
    }
  }

  lemma {:induction false} ShorterWellFormed(r: Registry)
    requires WellFormed(r) && (r.preamble != [] || r.sections != [])
    ensures WellFormed(Shorter(r))
  {
    hide Plain, ValidAlias;
  }

  lemma {:induction false} AddLastLine(r: Registry, number: nat)
    requires WellFormed(r) && (r.preamble != [] || r.sections != [])
    ensures AddLine(Shorter(r), LastLine(r), number) == Parsed(r)
  {
    if r.sections == [] {
      assert Plain(LastLine(r));
      assert r.preamble == r.preamble[..|r.preamble| - 1] + [LastLine(r)];
    } else {
      var n := |r.sections|;
      var init, last := r.sections[..n - 1], r.sections[n - 1];
      assert r.sections == init + [last];
      if last.lines == [] {
        HeaderParses(last.name);
        hide ValidAlias, HeaderName, IsHeader;
        assert last == Section(last.name, []);
        assert ValidAlias(last.name) && !HasSection(init, last.name);
      } else {
        assert Plain(LastLine(r));
        assert last.lines == last.lines[..|last.lines| - 1] + [LastLine(r)];
        assert last == last.(lines := last.lines);
        assert Shorter(r).sections[..n - 1] == init;
      }
    }
  }

  /** Parsing the lines of a well-formed registry gives exactly that registry. */
  lemma {:induction false} ParseAllLines(r: Registry)
    requires WellFormed(r)
    ensures ParseLines(AllLines(r)) == Parsed(r)
    decreases |AllLines(r)|
  {
    if r.preamble == [] && r.sections == [] {
    } else {
      ShorterLines(r);
      ShorterWellFormed(r);
      hide WellFormed, AllLines, Shorter, LastLine, AddLine;
      ParseAllLines(Shorter(r));
      ParseAppended(AllLines(Shorter(r)), Shorter(r), LastLine(r));
      AddLastLine(r, |AllLines(r)|);
    }
  }

  lemma {:induction false} AllLinesOneLine(r: Registry)
    requires WellFormed(r)
    ensures AllOneLine(AllLines(r))
    decreases |AllLines(r)|
  {
    if r.preamble == [] && r.sections == [] {
    } else {
      ShorterLines(r);
      ShorterWellFormed(r);
      AllLinesOneLine(Shorter(r));
      assert OneLine(LastLine(r)) by {
        if r.sections != [] && r.sections[|r.sections| - 1].lines == [] {
          HeaderParses(r.sections[|r.sections| - 1].name);
        } else {
          assert Plain(LastLine(r));
        }
      }
    }
  }

  // --- what the way through text changes ---------------------------------------------------

  function DropAll(lines: seq<string>): seq<string> {
    if lines != [] && lines[|lines| - 1] == "" then DropAll(lines[..|lines| - 1]) else lines
  }

  /** Without the blank lines at its end. */
  function DropBlanks(r: Registry): Registry {
    if r.sections == [] then r.(preamble := DropBlank(r.preamble))
    else
      var last := r.sections[|r.sections| - 1];
      r.(sections := r.sections[..|r.sections| - 1] + [last.(lines := DropAll(last.lines))])
  }

  /** Without carriage returns at the ends of lines. */
  function StripRegistry(r: Registry): (s: Registry)
    ensures |s.sections| == |r.sections|
    ensures forall i :: 0 <= i < |r.sections| ==> s.sections[i] == Section(r.sections[i].name, StripAll(r.sections[i].lines))
  {
    Registry(StripAll(r.preamble),
             seq(|r.sections|, i requires 0 <= i < |r.sections| => Section(r.sections[i].name, StripAll(r.sections[i].lines))))
  }

  lemma {:induction false} DropAllFrom(before: seq<string>, lines: seq<string>)
    requires before != [] && before[|before| - 1] != ""
    ensures DropBlank(before + lines) == before + DropAll(lines)
    decreases |lines|
  {
    if lines == [] {
      assert before + lines == before;
    } else {
      var all := before + lines;
      assert all[..|all| - 1] == before + lines[..|lines| - 1];
      DropAllFrom(before, lines[..|lines| - 1]);
    }
  }

  lemma {:induction false} DropBlanksLines(r: Registry)
    ensures AllLines(DropBlanks(r)) == DropBlank(AllLines(r))
  {
    if r.sections == [] {
      assert r.preamble + [] == r.preamble;
      assert DropBlank(r.preamble) + [] == DropBlank(r.preamble);
    } else {
      var init, last := r.sections[..|r.sections| - 1], r.sections[|r.sections| - 1];
      var before := r.preamble + SectionLines(init) + [Header(last.name)];
      assert AllLines(r) == before + last.lines;
      assert DropBlanks(r).sections[..|r.sections| - 1] == init;
      assert AllLines(DropBlanks(r)) == before + DropAll(last.lines);
      DropAllFrom(before, last.lines);
    }
  }

  lemma {:induction false} DropAllPlain(lines: seq<string>)
    requires AllPlain(lines)
    ensures AllPlain(DropAll(lines)) && |DropAll(lines)| <= |lines| && DropAll(lines) == lines[..|DropAll(lines)|]
    decreases |lines|
  {
    if lines == [] || lines[|lines| - 1] != "" {
    } else {
      DropAllPlain(lines[..|lines| - 1]);
    }
  }

  lemma {:induction false} DropBlankPlain(lines: seq<string>)
    requires AllPlain(lines)
    ensures AllPlain(DropBlank(lines))
    decreases |lines|
  {
    if |lines| < 2 || lines[|lines| - 1] != "" {
    } else {
      DropBlankPlain(lines[..|lines| - 1]);
    }
  }

  lemma {:induction false} DropBlanksWellFormed(r: Registry)
    requires WellFormed(r)
    ensures WellFormed(DropBlanks(r))
  {
    if r.sections == [] {
      DropBlankPlain(r.preamble);
    } else {
      DropAllPlain(r.sections[|r.sections| - 1].lines);
    }
    hide Plain, ValidAlias, DropAll, DropBlank;
  }

  lemma {:induction false} StripPlain(lines: seq<string>)
    requires AllPlain(lines)
    ensures AllPlain(StripAll(lines))
  {
    forall i | 0 <= i < |lines| ensures Plain(StripCr(lines[i])) {
      assert Plain(lines[i]);
      TrimStripCr(lines[i]);
    }
  }

  lemma {:induction false} StripWellFormed(r: Registry)
    requires WellFormed(r)
    ensures WellFormed(StripRegistry(r))
  {
    StripPlain(r.preamble);
    forall i | 0 <= i < |r.sections| ensures AllPlain(StripAll(r.sections[i].lines)) {
      StripPlain(r.sections[i].lines);
    }
    hide Plain, ValidAlias, AllPlain;
  }

  lemma {:induction false} StripSectionLines(sections: seq<Section>, stripped: seq<Section>)
    requires forall i :: 0 <= i < |sections| ==> ValidAlias(sections[i].name)
    requires |stripped| == |sections|
    requires forall i :: 0 <= i < |sections| ==> stripped[i] == Section(sections[i].name, StripAll(sections[i].lines))
    ensures SectionLines(stripped) == StripAll(SectionLines(sections))
    decreases |sections|
  {
    if sections == [] {
    } else {
      var n := |sections|;
      StripSectionLines(sections[..n - 1], stripped[..n - 1]);
      HeaderParses(sections[n - 1].name);
      hide ValidAlias, StripCr, Header;
    }
  }

  lemma {:induction false} StripLines(r: Registry)
    requires WellFormed(r)
    ensures AllLines(StripRegistry(r)) == StripAll(AllLines(r))
  {
    StripSectionLines(r.sections, StripRegistry(r).sections);
    hide SectionLines;
  }

  /** Printing and parsing gives a well-formed registry back, without blank lines at its end and without
      carriage returns at the ends of its lines. */
  lemma {:induction false} ParseUndoesPrint(r: Registry)
    requires WellFormed(r)
    ensures ParseText(Printed(r)) == Parsed(StripRegistry(DropBlanks(r)))
  {
    var kept := DropBlanks(r);
    DropBlanksWellFormed(r);
    DropBlanksLines(r);
    AllLinesOneLine(r);
    AllLinesOneLine(kept);
    hide AllLines, DropBlanks, StripRegistry, WellFormed, DropBlank, PopBlank, Join, Lines;
    PopBlankOfJoin(AllLines(r));
    LinesOfJoin(AllLines(kept));
    StripLines(kept);
    StripWellFormed(kept);
    ParseAllLines(StripRegistry(kept));
  }

  ghost predicate NoCr(lines: seq<string>) {
    forall i :: 0 <= i < |lines| ==> !EndsWith(lines[i], '\r')
  }

  lemma {:induction false} NoCrDropBlank(lines: seq<string>)
    ensures NoCr(DropBlank(lines)) <==> NoCr(lines)
    decreases |lines|
  {
    if |lines| < 2 || lines[|lines| - 1] != "" {
    } else {
      NoCrDropBlank(lines[..|lines| - 1]);
      forall i | 0 <= i < |lines| ensures i < |lines| - 1 ==> lines[i] == lines[..|lines| - 1][i] {}
    }
  }

  /** Printing what was parsed is idempotent exactly when no line kept a carriage return (which `str::lines`
      leaves where a line ends in two of them, or at the end of the text). */
  lemma {:induction false} PrintIdempotentIff(text: string)
    requires ParseText(text).Parsed?
    ensures var r := ParseText(text).r;
            && ParseText(Printed(r)).Parsed?
            && (Printed(ParseText(Printed(r)).r) == Printed(r) <==> NoCr(AllLines(r)))
  {
    var r := ParseText(text).r;
    LinesAreOneLine(text);
    ParsedIsWellFormed(Lines(text));
    ParseUndoesPrint(r);
    PrintAgain(r);
  }

  lemma {:induction false} PrintAgain(r: Registry)
    requires WellFormed(r)
    ensures Printed(StripRegistry(DropBlanks(r))) == Printed(r) <==> NoCr(AllLines(r))
  {
    var kept := DropBlanks(r);
    DropBlanksWellFormed(r);
    DropBlanksLines(r);
    AllLinesOneLine(r);
    StripWellFormed(kept);
    AllLinesOneLine(StripRegistry(kept));
    StripLines(kept);
    PopBlankOfJoin(AllLines(r));
    PopBlankOfJoin(AllLines(StripRegistry(kept)));
    NoCrDropBlank(AllLines(r));
    var lines := AllLines(kept);
    hide AllLines, DropBlanks, StripRegistry, WellFormed, DropBlank, PopBlank, Join;
    if NoCr(lines) {
      assert StripAll(lines) == lines;
      DropBlankTwice(AllLines(r));
    } else {
      StripShorter(lines);
      DropBlankShorter(StripAll(lines));
    }
  }

  lemma {:induction false} ParseOneLine(text: string)
    requires text != "" && OneLine(text) && !IsHeader(text)
    ensures ParseText(text) == Parsed(Registry([text], []))
  {
    hide IsHeader;
    assert Find(text, '\n') == |text|;
    assert Lines(text) == [text] && [text][..0] == [];
    assert Appended(Registry([], []), text) == Registry([text], []) by { assert [] + [text] == [text]; }
    ParseAppended([], Registry([], []), text);
    assert [] + [text] == [text];
  }

  /** One that does: a text that ends in a carriage return gets a newline when it is printed, and then the
      two of them end the line. */
  lemma {:induction false} CarriageReturnIsLost()
    ensures var first := ParseText("a\r");
            first.Parsed? && var again := ParseText(Printed(first.r));
            again.Parsed? && Printed(again.r) != Printed(first.r)
  {
    var text := "a\r";
    assert text == "a" + ['\r'] && EndsWith(text, '\r') && OneLine(text);
    TrimAppend("a", '\r');
    TrimTrims("a");
    hide Trim, ParseText, Printed;
    ParseOneLine(text);
    assert AllLines(Registry([text], [])) == [text];
    PrintIdempotentIff(text);
    assert EndsWith([text][0], '\r');
  }
}
