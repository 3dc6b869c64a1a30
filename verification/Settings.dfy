/** What the lines of a hand-written registry mean: remarks, settings, headers, and what is an error. */
module Settings {
  import opened Common
  import opened Text
  import opened Registry
  import opened Vaults
  import opened Editing

  // --- white space around words ---------------------------------------------------------

  ghost predicate White(s: string) {
    forall i :: 0 <= i < |s| ==> IsSpace(s[i])
  }

  lemma {:induction false} TrimStartWhite(w: string, rest: string)
    requires White(w) && (rest == "" || !IsSpace(rest[0]))
    ensures TrimStart(w + rest) == rest
  {
    hide IsSpace;
    if w == "" {
      assert w + rest == rest;
    } else {
      assert (w + rest)[1..] == w[1..] + rest;
      TrimStartWhite(w[1..], rest);
    }
  }

  lemma {:induction false} TrimEndWhite(s: string, w: string)
    requires White(w) && (s == "" || !IsSpace(s[|s| - 1]))
    ensures TrimEnd(s + w) == s
  {
    hide IsSpace;
    if w == "" {
      assert s + w == s;
    } else {
      var init := w[..|w| - 1];
      assert (s + w)[..|s + w| - 1] == s + init;
      TrimEndWhite(s, init);
    }
  }

  lemma {:induction false} TrimWhite(w: string)
    requires White(w)
    ensures Trim(w) == ""
  {
    TrimStartWhite(w, "");
    assert w + "" == w;
  }

  /** `trim` takes the white space around a word away, and nothing of the word. */
  lemma {:induction false} TrimAround(before: string, word: string, after: string)
    requires White(before) && White(after) && Trimmed(word)
    ensures Trim(before + word + after) == word
  {
    hide IsSpace, TrimStart, TrimEnd;
    if word == "" {
      assert before + word + after == before + after && White(before + after);
      hide Trim;
      TrimWhite(before + after);
    } else {
      assert before + word + after == before + (word + after);
      TrimStartWhite(before, word + after);
      TrimEndWhite(word, after);
    }
  }

  /** Every text is a word with white space around it. */
  lemma {:induction false} TrimSplits(s: string) returns (before: string, after: string)
    ensures White(before) && White(after) && s == before + Trim(s) + after && Trimmed(Trim(s))
  {
    TrimTrims(s);
    TrimStartTrims(s);
    TrimEndTrims(TrimStart(s));
    hide IsSpace, TrimStart, TrimEnd;
    var rest := TrimStart(s);
    before, after := s[..|s| - |rest|], rest[|Trim(s)|..];
  }

  // --- remarks ------------------------------------------------------------------------------

  /** Nothing but white space, or `#` or `;` first. */
  ghost predicate Remark(line: string) {
    exists before, rest :: White(before) && line == before + rest && (rest == "" || rest[0] == '#' || rest[0] == ';')
  }

  lemma {:induction false} FirstWord(line: string) returns (before: string)
    ensures White(before) && line == before + TrimStart(line)
    ensures TrimStart(line) == "" || !IsSpace(TrimStart(line)[0])
  {
    TrimStartTrims(line);
    before := line[..|line| - |TrimStart(line)|];
  }

  lemma {:induction false} RemarkIff(line: string)
    ensures Remark(line) <==> TrimStart(line) == "" || TrimStart(line)[0] == '#' || TrimStart(line)[0] == ';'
  {
    var w := FirstWord(line);
    if Remark(line) {
      var before, rest :| White(before) && line == before + rest && (rest == "" || rest[0] == '#' || rest[0] == ';');
      TrimStartWhite(before, rest);
    }
    hide TrimStart, White, IsSpace;
  }

  /** A remark sets nothing. */
  lemma {:induction false} RemarkRead(f: Fields, line: string, home: Option<string>)
    requires Remark(line)
    ensures ReadLine(f, line, home) == Ok(f)
  {
    hide Remark, Find;
    RemarkIff(line);
  }

  /** Remarks may come and go anywhere in a section without changing its vault, or its error. */
  lemma {:induction false} RemarkAnywhere(name: string, a: seq<string>, line: string, b: seq<string>, home: Option<string>)
    requires Remark(line)
    ensures VaultFrom(Section(name, a + [line] + b), home) == VaultFrom(Section(name, a + b), home)
  {
    hide Remark, ReadLine, Finish;
    ReadConcat(EMPTY, a + [line], b, home);
    ReadConcat(EMPTY, a, [line], home);
    ReadConcat(EMPTY, a, b, home);
    match ReadLines(EMPTY, a, home) {
      case Ok(f) => RemarkLine(f, line, home);
      case Failed(_) =>
    }
  }

  lemma {:induction false} RemarkLine(f: Fields, line: string, home: Option<string>)
    requires Remark(line)
    ensures ReadLines(f, [line], home) == Ok(f)
  {
    hide Remark, ReadLine;
    RemarkRead(f, line, home);
    assert [line][1..] == [];
  }

  // --- settings --------------------------------------------------------------------------------

  /** Any other line without an equals sign is an error. */
  lemma {:induction false} NoEqualsSign(f: Fields, line: string, home: Option<string>)
    requires !Remark(line) && '=' !in line
    ensures ReadLine(f, line, home) == Failed(NotKeyValue)
  {
    RemarkIff(line);
    FindsNone(line, '=');
    hide TrimStart, Remark, Find;
  }

  /** The same word, but for capital letters. */
  ghost predicate SameWord(text: string, word: string) {
    |text| == |word| && forall i :: 0 <= i < |text| ==>
      text[i] == word[i] || ('A' <= text[i] <= 'Z' && text[i] as int + 32 == word[i] as int)
  }

  ghost predicate SmallLetters(word: string) {
    forall i :: 0 <= i < |word| ==> !('A' <= word[i] <= 'Z')
  }

  lemma {:induction false} LowerIs(text: string, word: string)
    requires SmallLetters(word)
    ensures Lower(text) == word <==> SameWord(text, word)
  {
    assert forall i :: 0 <= i < |text| ==> Lower(text)[i] == LowerChar(text[i]);
  }

  ghost predicate MeansTrue(text: string) {
    SameWord(text, "true") || SameWord(text, "yes") || SameWord(text, "on") || SameWord(text, "1")
  }

  ghost predicate MeansFalse(text: string) {
    SameWord(text, "false") || SameWord(text, "no") || SameWord(text, "off") || SameWord(text, "0")
  }

  /** The four spellings of a flag that is on and of one that is off, in capitals or not. */
  lemma {:induction false} BoolMeans(text: string)
    ensures ParseBool(text) == if MeansTrue(text) then Some(true) else if MeansFalse(text) then Some(false) else None
  {
    hide Lower, SameWord;
    LowerIs(text, "true");
    LowerIs(text, "yes");
    LowerIs(text, "on");
    LowerIs(text, "1");
    LowerIs(text, "false");
    LowerIs(text, "no");
    LowerIs(text, "off");
    LowerIs(text, "0");
  }

  lemma {:induction false} LockingMeans(text: string)
    ensures ParseLocking(text) == if SameWord(Trim(text), "auto") then Some(Auto)
                                  else if SameWord(Trim(text), "exclusive") then Some(Exclusive)
                                  else if SameWord(Trim(text), "normal") then Some(Normal)
                                  else None
  {
    hide Lower, SameWord, Trim;
    LowerIs(Trim(text), "auto");
    LowerIs(Trim(text), "exclusive");
    LowerIs(Trim(text), "normal");
  }

  /** What `key = value` sets, for a value without its quotes. */
  ghost function Assigned(f: Fields, key: string, value: string, home: Option<string>): FieldsResult {
    if value == "" then Failed(NoValue)
    else if key == "file" then Ok(f.(file := Some(ExpandTilde(value, home))))
    else if key == "mountpoint" then Ok(f.(mountpoint := Some(ExpandTilde(value, home))))
    else if key == "idle_timeout" then Ok(f.(idleTimeout := Some(value)))
    else if key == "compact_on_idle" then Ok(f.(compactOnIdle := Some(value)))
    else if key == "password_file" then Ok(f.(passwordFile := Some(ExpandTilde(value, home))))
    else if key == "password_command" then Ok(f.(passwordCommand := Some(value)))
    else if key == "log_file" then Ok(f.(logFile := Some(ExpandTilde(value, home))))
    else if key == "read_only" then
      if MeansTrue(value) then Ok(f.(readOnly := true))
      else if MeansFalse(value) then Ok(f.(readOnly := false))
      else Failed(BadBool)
    else if key == "enforce_permissions" then
      if MeansTrue(value) then Ok(f.(enforcePermissions := true))
      else if MeansFalse(value) then Ok(f.(enforcePermissions := false))
      else Failed(BadBool)
    else if key == "locking" then
      if SameWord(Trim(value), "auto") then Ok(f.(locking := Some(Auto)))
      else if SameWord(Trim(value), "exclusive") then Ok(f.(locking := Some(Exclusive)))
      else if SameWord(Trim(value), "normal") then Ok(f.(locking := Some(Normal)))
      else Failed(BadLocking)
    else Failed(UnknownKey)
  }

  lemma {:induction false} KeyTexts()
    ensures KeyText(KFile) == "file" && KeyText(KMountpoint) == "mountpoint" && KeyText(KIdleTimeout) == "idle_timeout"
    ensures KeyText(KCompactOnIdle) == "compact_on_idle" && KeyText(KPasswordFile) == "password_file"
    ensures KeyText(KPasswordCommand) == "password_command" && KeyText(KLogFile) == "log_file"
    ensures KeyText(KReadOnly) == "read_only" && KeyText(KEnforcePermissions) == "enforce_permissions"
    ensures KeyText(KLocking) == "locking"
  {
  }

  lemma {:induction false} AssignedIs(f: Fields, name: string, raw: string, home: Option<string>)
    ensures SetValue(f, name, raw, home) == Assigned(f, Trim(name), Unquote(raw), home)
  {
    hide Trim, Unquote, ExpandTilde, ParseBool, ParseLocking, MeansTrue, MeansFalse, SameWord, KeyText;
    KeyTexts();
    BoolMeans(Unquote(raw));
    LockingMeans(Unquote(raw));
  }

  /** A setting, with any white space around key and value. */
  lemma {:induction false} SettingRead(f: Fields, before: string, key: string, after: string, raw: string, home: Option<string>)
    requires White(before) && White(after) && Trimmed(key) && '=' !in before + key + after
    requires !Remark(before + key + after + "=" + raw)
    ensures ReadLine(f, before + key + after + "=" + raw, home) == Assigned(f, key, Unquote(raw), home)
  {
    var name := before + key + after;
    var line := name + "=" + raw;
    RemarkIff(line);
    hide TrimStart, Remark, White;
    assert line[|name|] == '=' && forall i :: 0 <= i < |name| ==> line[i] == name[i] && name[i] in name;
    assert Find(line, '=') == |name|;
    assert line[..|name|] == name && line[|name| + 1..] == raw;
    TrimAround(before, key, after);
    AssignedIs(f, name, raw, home);
    hide Trim, Unquote, Assigned, SetValue, Find;
  }

  /** A value that is not in quotes is what is left without the white space around it. */
  lemma {:induction false} BareValue(before: string, value: string, after: string)
    requires White(before) && White(after) && Trimmed(value)
    requires !(|value| >= 2 && value[0] == value[|value| - 1] && (value[0] == '"' || value[0] == '\''))
    ensures Unquote(before + value + after) == value
  {
    TrimAround(before, value, after);
    hide Trim;
  }

  /** One that is, in two quotes of one kind, is what they enclose, white space and other quotes included. */
  lemma {:induction false} QuotedValue(before: string, quote: char, inner: string, after: string)
    requires White(before) && White(after) && (quote == '"' || quote == '\'')
    ensures Unquote(before + ([quote] + inner + [quote]) + after) == inner
  {
    var value := [quote] + inner + [quote];
    assert value[|value| - 1] == quote && value[1..|value| - 1] == inner && Trimmed(value);
    TrimAround(before, value, after);
    hide Trim;
  }

  /** `~` alone and `~/` in front are the home directory, if there is one; nothing else is. */
  lemma {:induction false} TildeMeans(path: string, slashes: string, rest: string, home: Option<string>)
    requires forall i :: 0 <= i < |slashes| ==> slashes[i] == '/'
    requires rest == "" || rest[0] != '/'
    ensures home.Some? && (slashes != "" || rest == "") ==> ExpandTilde("~" + slashes + rest, home) == home.value + "/" + rest
    ensures slashes == "" && rest != "" ==> ExpandTilde("~" + slashes + rest, home) == "~" + slashes + rest
    ensures path == "" || path[0] != '~' || home.None? ==> ExpandTilde(path, home) == path
  {
    var text := "~" + slashes + rest;
    assert text[1..] == slashes + rest;
    assert slashes != "" ==> text[1] == slashes[0];
    assert slashes == "" && rest != "" ==> text[1] == rest[0];
    SlashesSkipped(slashes, rest);
    hide SkipSlashes;
  }

  lemma {:induction false} SlashesSkipped(slashes: string, rest: string)
    requires forall i :: 0 <= i < |slashes| ==> slashes[i] == '/'
    requires rest == "" || rest[0] != '/'
    ensures SkipSlashes(slashes + rest) == rest
  {
    if slashes == "" {
      assert slashes + rest == rest;
    } else {
      assert (slashes + rest)[1..] == slashes[1..] + rest;
      SlashesSkipped(slashes[1..], rest);
    }
  }

  // --- a whole section -----------------------------------------------------------------------------

  /** A line that sets a key. */
  ghost predicate Sets(line: string, key: string) {
    !Remark(line) && exists before, after, raw ::
      White(before) && White(after) && '=' !in before + key + after && line == before + key + after + "=" + raw
  }

  lemma {:induction false} ReadSets(f: Fields, line: string, home: Option<string>)
    requires ReadLine(f, line, home).Ok?
    ensures var g := ReadLine(f, line, home).fields;
            && (g.file.Some? <==> f.file.Some? || Sets(line, "file"))
            && (g.mountpoint.Some? <==> f.mountpoint.Some? || Sets(line, "mountpoint"))
  {
    RemarkIff(line);
    if Remark(line) {
      RemarkRead(f, line, home);
    } else {
      hide Remark, ReadLine, Sets;
      FindsNone(line, '=');
      if '=' !in line {
        NoEqualsSign(f, line, home);
      } else {
        SetsName(f, line, home);
      }
    }
  }

  lemma {:induction false} SetsName(f: Fields, line: string, home: Option<string>)
    requires !Remark(line) && Find(line, '=') < |line| && ReadLine(f, line, home).Ok?
    ensures var g := ReadLine(f, line, home).fields;
            && (g.file.Some? <==> f.file.Some? || Sets(line, "file"))
            && (g.mountpoint.Some? <==> f.mountpoint.Some? || Sets(line, "mountpoint"))
  {
    assert |"file"| == 4 && |"mountpoint"| == 10;
    hide Remark, Find, Trim, Unquote, ReadLine, Sets, KeyOf, Assigned;
    SetsIff(line, "file");
    SetsIff(line, "mountpoint");
    LineAssigned(f, line, home);
    AssignsFile(f, KeyOf(line), Unquote(line[Find(line, '=') + 1..]), home);
    AssignsMountpoint(f, KeyOf(line), Unquote(line[Find(line, '=') + 1..]), home);
  }

  lemma {:induction false} LineAssigned(f: Fields, line: string, home: Option<string>)
    requires !Remark(line) && Find(line, '=') < |line|
    ensures ReadLine(f, line, home) == Assigned(f, KeyOf(line), Unquote(line[Find(line, '=') + 1..]), home)
  {
    RemarkIff(line);
    var i := Find(line, '=');
    hide Remark, Find, Trim, Unquote, SetValue, Assigned, TrimStart;
    AssignedIs(f, line[..i], line[i + 1..], home);
  }

  lemma {:induction false} AssignsFile(f: Fields, key: string, value: string, home: Option<string>)
    requires Assigned(f, key, value, home).Ok?
    ensures Assigned(f, key, value, home).fields.file.Some? <==> f.file.Some? || key == "file"
  {
    hide ExpandTilde, MeansTrue, MeansFalse, SameWord, Trim;
  }

  lemma {:induction false} AssignsMountpoint(f: Fields, key: string, value: string, home: Option<string>)
    requires Assigned(f, key, value, home).Ok?
    ensures Assigned(f, key, value, home).fields.mountpoint.Some? <==> f.mountpoint.Some? || key == "mountpoint"
  {
    assert |"file"| == 4 && |"mountpoint"| == 10;
    hide ExpandTilde, MeansTrue, MeansFalse, SameWord, Trim;
  }

  ghost function KeyOf(line: string): string
    requires Find(line, '=') < |line|
  {
    Trim(line[..Find(line, '=')])
  }

  lemma {:induction false} SetsIff(line: string, key: string)
    requires !Remark(line) && Find(line, '=') < |line| && Trimmed(key)
    ensures Sets(line, key) <==> KeyOf(line) == key
  {
    hide Remark;
    var i := Find(line, '=');
    var name := line[..i];
    if Sets(line, key) {
      var before, after, raw :|
        White(before) && White(after) && '=' !in before + key + after && line == before + key + after + "=" + raw;
      var named := before + key + after;
      assert line[|named|] == '=' && forall j :: 0 <= j < |named| ==> line[j] == named[j] && named[j] in named;
      assert i == |named| && name == named;
      TrimAround(before, key, after);
    }
    if KeyOf(line) == key {
      var before, after := TrimSplits(name);
      assert forall j :: 0 <= j < |name| ==> name[j] == line[j];
      assert '=' !in before + key + after && line == before + key + after + "=" + line[i + 1..];
    }
  }

  lemma {:induction false} LinesSet(f: Fields, lines: seq<string>, home: Option<string>)
    requires ReadLines(f, lines, home).Ok?
    ensures var g := ReadLines(f, lines, home).fields;
            && (g.file.Some? <==> f.file.Some? || exists i :: 0 <= i < |lines| && Sets(lines[i], "file"))
            && (g.mountpoint.Some? <==> f.mountpoint.Some? || exists i :: 0 <= i < |lines| && Sets(lines[i], "mountpoint"))
    decreases |lines|
  {
    hide Sets, ReadLine;
    if lines == [] {
    } else {
      ReadSets(f, lines[0], home);
      var rest := lines[1..];
      LinesSet(ReadLine(f, lines[0], home).fields, rest, home);
      assert forall i :: 1 <= i < |lines| ==> lines[i] == rest[i - 1];
      assert forall i :: 0 <= i < |rest| ==> rest[i] == lines[i + 1];
    }
  }

  /** A section whose lines are all right is a vault, under its own name, if and only if it sets a file and a
      mountpoint; the file is missed first. */
  lemma {:induction false} SectionComplete(section: Section, home: Option<string>)
    requires ReadLines(EMPTY, section.lines, home).Ok?
    ensures var r := VaultFrom(section, home);
            var f := ReadLines(EMPTY, section.lines, home).fields;
            if !exists i :: 0 <= i < |section.lines| && Sets(section.lines[i], "file") then r == Bad(MissingFile)
            else if !exists i :: 0 <= i < |section.lines| && Sets(section.lines[i], "mountpoint") then r == Bad(MissingMountpoint)
            else
              && r.Good? && r.vault.alias == section.name
              && f.file == Some(r.vault.file) && f.mountpoint == Some(r.vault.mountpoint)
              && r.vault.idleTimeout == f.idleTimeout && r.vault.compactOnIdle == f.compactOnIdle
              && r.vault.passwordFile == f.passwordFile && r.vault.passwordCommand == f.passwordCommand
              && r.vault.logFile == f.logFile && r.vault.readOnly == f.readOnly
              && r.vault.enforcePermissions == f.enforcePermissions && r.vault.locking == f.locking
  {
    hide Sets, ReadLines;
    LinesSet(EMPTY, section.lines, home);
  }

  /** One line that is wrong is the answer for the whole section. */
  lemma {:induction false} FirstErrorWins(section: Section, n: nat, home: Option<string>)
    requires n < |section.lines| && ReadLines(EMPTY, section.lines[..n], home).Ok?
    requires ReadLine(ReadLines(EMPTY, section.lines[..n], home).fields, section.lines[n], home).Failed?
    ensures VaultFrom(section, home) ==
            Bad(ReadLine(ReadLines(EMPTY, section.lines[..n], home).fields, section.lines[n], home).error)
  {
    hide ReadLine;
    var f, rest := ReadLines(EMPTY, section.lines[..n], home).fields, section.lines[n..];
    assert section.lines == section.lines[..n] + rest && rest[0] == section.lines[n];
    ReadConcat(EMPTY, section.lines[..n], rest, home);
    assert ReadLines(f, rest, home).Failed? && ReadLines(f, rest, home).error == ReadLine(f, rest[0], home).error;
  }

  /** Lines are read in their order, so that of two settings of one key the later one counts. */
  lemma {:induction false} LastLineCounts(f: Fields, lines: seq<string>, line: string, home: Option<string>)
    ensures ReadLines(f, lines + [line], home) ==
            match ReadLines(f, lines, home) case Failed(e) => Failed(e) case Ok(g) => ReadLine(g, line, home)
  {
    hide ReadLine;
    ReadConcat(f, lines, [line], home);
    assert [line][1..] == [];
  }

  // --- headers ------------------------------------------------------------------------------------------

  /** `[name]`, with any white space around the brackets and the name. */
  lemma {:induction false} HeaderRead(before: string, left: string, name: string, right: string, after: string)
    requires White(before) && White(left) && White(right) && White(after) && Trimmed(name)
    ensures var raw := before + ("[" + left + name + right + "]") + after;
            IsHeader(raw) && HeaderName(raw) == Some(name)
  {
    var line := "[" + left + name + right + "]";
    assert line[0] == '[' && line[|line| - 1] == ']' && Trimmed(line);
    assert line[1..|line| - 1] == left + name + right;
    TrimAround(before, line, after);
    TrimAround(left, name, right);
    hide Trim, White;
  }

  /** A line that starts with a bracket and does not end in one is a broken header. */
  lemma {:induction false} BrokenHeader(before: string, line: string, after: string)
    requires White(before) && White(after) && Trimmed(line) && line != "" && line[0] == '['
    requires |line| == 1 || line[|line| - 1] != ']'
    ensures IsHeader(before + line + after) && HeaderName(before + line + after) == None
  {
    TrimAround(before, line, after);
    hide Trim, White;
  }

  /** Any other line is none. */
  lemma {:induction false} NoHeader(before: string, line: string, after: string)
    requires White(before) && White(after) && Trimmed(line) && (line == "" || line[0] != '[')
    ensures !IsHeader(before + line + after)
  {
    TrimAround(before, line, after);
    hide Trim, White;
  }

  /** What makes line `n` (from 0) an error, given the lines before it. */
  ghost function LineError(lines: seq<string>, n: nat): Option<ParseError>
    requires n < |lines|
  {
    if !IsHeader(lines[n]) then None
    else if HeaderName(lines[n]).None? then Some(MalformedHeader(n + 1))
    else if !ValidAlias(HeaderName(lines[n]).value) then Some(InvalidAlias(n + 1))
    else if exists i :: 0 <= i < n && Heads(lines[i], HeaderName(lines[n]).value) then Some(DuplicateSection(n + 1))
    else None
  }

  ghost predicate Heads(line: string, name: string) {
    IsHeader(line) && HeaderName(line) == Some(name)
  }

  ghost predicate HeadsOne(lines: seq<string>, name: string) {
    exists i :: 0 <= i < |lines| && Heads(lines[i], name)
  }

  lemma {:induction false} HeadsOneMore(init: seq<string>, last: string, name: string)
    ensures HeadsOne(init + [last], name) <==> HeadsOne(init, name) || Heads(last, name)
  {
    hide Heads;
    var lines := init + [last];
    if i :| 0 <= i < |init| && Heads(init[i], name) { assert Heads(lines[i], name); }
    if Heads(last, name) { assert Heads(lines[|init|], name); }
    if i :| 0 <= i < |lines| && Heads(lines[i], name) { assert i < |init| ==> Heads(init[i], name); }
  }

  /** A registry has a section for every header that was read, and no others. */
  lemma {:induction false} SectionsAreHeaders(lines: seq<string>, name: string)
    requires ParseLines(lines).Parsed?
    ensures HasSection(ParseLines(lines).r.sections, name) <==> HeadsOne(lines, name)
    decreases |lines|
  {
    if lines == [] {
      NothingParses();
    } else {
      var init, last := lines[..|lines| - 1], lines[|lines| - 1];
      hide HasSection, HeadsOne, Heads, ParseLines;
      assert lines == init + [last];
      AddedSections(init, last, name);
      SectionsAreHeaders(init, name);
      HeadsOneMore(init, last, name);
    }
  }

  lemma {:induction false} AddedSections(init: seq<string>, last: string, name: string)
    requires ParseLines(init + [last]).Parsed?
    ensures ParseLines(init).Parsed?
    ensures HasSection(ParseLines(init + [last]).r.sections, name) <==>
            HasSection(ParseLines(init).r.sections, name) || Heads(last, name)
  {
    hide IsHeader, HeaderName, ValidAlias;
    assert (init + [last])[..|init|] == init;
    var r, after := ParseLines(init).r, ParseLines(init + [last]).r;
    if !IsHeader(last) {
      assert |after.sections| == |r.sections|;
      assert forall i :: 0 <= i < |r.sections| ==> after.sections[i].name == r.sections[i].name;
    } else {
      assert after.sections == r.sections + [Section(HeaderName(last).value, [])];
      assert after.sections[|r.sections|].name == HeaderName(last).value;
      assert forall i :: 0 <= i < |r.sections| ==> after.sections[i] == r.sections[i];
    }
  }

  /** Parsing stops at the first line that is an error, and says which and what; without one it succeeds. */
  lemma {:induction false} ParseStopsAt(lines: seq<string>, n: nat)
    requires n <= |lines| && forall i :: 0 <= i < n ==> LineError(lines, i).None?
    ensures n == |lines| ==> ParseLines(lines).Parsed?
    ensures n < |lines| && LineError(lines, n).Some? ==> ParseLines(lines) == Rejected(LineError(lines, n).value)
  {
    hide ParseLines, LineError;
    PrefixParses(lines, n);
    assert lines[..|lines|] == lines;
    if n < |lines| && LineError(lines, n).Some? {
      NextLine(lines, n);
      RejectedPrefix(lines, n + 1);
    }
  }

  lemma {:induction false} NextLine(lines: seq<string>, n: nat)
    requires n < |lines| && ParseLines(lines[..n]).Parsed?
    ensures match LineError(lines, n)
            case Some(e) => ParseLines(lines[..n + 1]) == Rejected(e)
            case None => ParseLines(lines[..n + 1]).Parsed?
  {
    hide IsHeader, HeaderName, ValidAlias, HasSection, Heads;
    var init := lines[..n];
    assert lines[..n + 1] == init + [lines[n]];
    ParseAppended(init, ParseLines(init).r, lines[n]);
    if IsHeader(lines[n]) && HeaderName(lines[n]).Some? {
      SectionsAreHeaders(init, HeaderName(lines[n]).value);
      assert forall i :: 0 <= i < n ==> init[i] == lines[i];
    }
    hide ParseLines;
  }

  lemma {:induction false} PrefixParses(lines: seq<string>, n: nat)
    requires n <= |lines| && forall i :: 0 <= i < n ==> LineError(lines, i).None?
    ensures ParseLines(lines[..n]).Parsed?
    decreases n
  {
    hide LineError, ParseLines;
    if n == 0 {
      NothingParses();
      assert lines[..0] == [];
    } else {
      PrefixParses(lines, n - 1);
      NextLine(lines, n - 1);
    }
  }

  lemma {:induction false} NothingParses()
    ensures ParseLines([]) == Parsed(Registry([], []))
  {
  }

  /** An alias cannot be taken for a path or a flag. */
  lemma {:induction false} AliasShape(alias: string)
    requires ValidAlias(alias)
    ensures alias != "" && alias[0] != '-' && alias[0] != '.' && '/' !in alias && '~' !in alias
    ensures forall c: char :: c in alias ==> !IsSpace(c) && c != '[' && c != ']' && c != '=' && c != '#'
  {
  }

  // --- what is written --------------------------------------------------------------------------------

  /** `key = value`, if there is a value. */
  ghost function Line(key: string, value: Option<string>): seq<string> {
    if value.Some? then [key + " = " + value.value] else []
  }

  /** The lines of a vault, each setting on its own and only if it is set. */
  lemma {:induction false} RenderIs(v: Vault)
    ensures Render(v) ==
            Line("file", Some(v.file)) + (Line("mountpoint", Some(v.mountpoint))
            + (Line("idle_timeout", v.idleTimeout) + (Line("compact_on_idle", v.compactOnIdle)
            + (Line("password_file", v.passwordFile) + (Line("password_command", v.passwordCommand)
            + (Line("log_file", v.logFile) + (Line("read_only", if v.readOnly then Some("true") else None)
            + (Line("enforce_permissions", if v.enforcePermissions then Some("true") else None)
            + Line("locking", match v.locking
                              case None => None
                              case Some(Auto) => Some("auto")
                              case Some(Exclusive) => Some("exclusive")
                              case Some(Normal) => Some("normal"))))))))))
  {
    hide LinesOf, Opt, Line;
    var p9 := LockingPair(v.locking);
    var p8 := Flag(KEnforcePermissions, v.enforcePermissions) + p9;
    var p7 := Flag(KReadOnly, v.readOnly) + p8;
    var p6 := Opt(KLogFile, v.logFile) + p7;
    var p5 := Opt(KPasswordCommand, v.passwordCommand) + p6;
    var p4 := Opt(KPasswordFile, v.passwordFile) + p5;
    var p3 := Opt(KCompactOnIdle, v.compactOnIdle) + p4;
    var p2 := Opt(KIdleTimeout, v.idleTimeout) + p3;
    var p1 := Opt(KMountpoint, Some(v.mountpoint)) + p2;
    LineFirst(KFile, "file", Some(v.file), p1);
    LineFirst(KMountpoint, "mountpoint", Some(v.mountpoint), p2);
    LineFirst(KIdleTimeout, "idle_timeout", v.idleTimeout, p3);
    LineFirst(KCompactOnIdle, "compact_on_idle", v.compactOnIdle, p4);
    LineFirst(KPasswordFile, "password_file", v.passwordFile, p5);
    LineFirst(KPasswordCommand, "password_command", v.passwordCommand, p6);
    LineFirst(KLogFile, "log_file", v.logFile, p7);
    LineFirst(KReadOnly, "read_only", if v.readOnly then Some("true") else None, p8);
    LineFirst(KEnforcePermissions, "enforce_permissions", if v.enforcePermissions then Some("true") else None, p9);
    var text := if v.locking.Some? then Some(LockingText(v.locking.value)) else None;
    LineFirst(KLocking, "locking", text, []);
    assert p9 == Opt(KLocking, text) && p9 + [] == p9;
    NoLines();
    assert Line("locking", text) + [] == Line("locking", text);
  }

  lemma {:induction false} NoLines()
    ensures LinesOf([]) == []
  {
  }

  lemma {:induction false} LineFirst(key: Key, text: string, value: Option<string>, rest: seq<Pair>)
    requires KeyText(key) == text
    ensures LinesOf(Opt(key, value) + rest) == Line(text, value) + LinesOf(rest)
  {
    hide KeyText;
    if value.None? {
      assert Opt(key, value) + rest == rest;
    } else {
      var all := Opt(key, value) + rest;
      assert all[0] == Pair(key, value.value) && forall i :: 1 <= i < |all| ==> all[i] == rest[i - 1];
    }
  }
}
