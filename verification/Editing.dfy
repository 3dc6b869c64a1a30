/** Adding, replacing and removing a vault disturbs no other, in memory and through the file. */
module Editing {
  import opened Common
  import opened Text
  import opened Registry
  import opened Vaults

  /** The first section of that name, or the number of sections. */
  function IndexOf(sections: seq<Section>, name: string): (i: nat)
    ensures i <= |sections| && (i < |sections| ==> sections[i].name == name)
    ensures forall j :: 0 <= j < i ==> sections[j].name != name
  {
    if sections == [] || sections[0].name == name then 0 else 1 + IndexOf(sections[1..], name)
  }

  /** `get`: no vault of that name, or what `vault_from` makes of its section. */
  function Get(r: Registry, alias: string, home: Option<string>): Option<VaultResult> {
    var i := IndexOf(r.sections, alias);
    if i < |r.sections| then Some(VaultFrom(r.sections[i], home)) else None
  }

  datatype VaultsResult = All(vaults: seq<Vault>) | Wrong(error: VaultError)

  /** `vaults`: all of them in order, or the first error. */
  function AllVaults(sections: seq<Section>, home: Option<string>): VaultsResult {
    if sections == [] then All([])
    else
      match VaultFrom(sections[0], home)
      case Bad(e) => Wrong(e)
      case Good(v) =>
        match AllVaults(sections[1..], home)
        case Wrong(e) => Wrong(e)
        case All(vs) => All([v] + vs)
  }

  function Names(r: Registry): (names: seq<string>)
    ensures |names| == |r.sections| && forall i :: 0 <= i < |names| ==> names[i] == r.sections[i].name
  {
    seq(|r.sections|, i requires 0 <= i < |r.sections| => r.sections[i].name)
  }

  predicate TrailingBlank(lines: seq<string>) {
    lines != [] && Trim(lines[|lines| - 1]) == ""
  }

  /** Lines with a blank line at the end, unless there is one or there are none. */
  function Separated(lines: seq<string>): seq<string> {
    if lines != [] && !TrailingBlank(lines) then lines + [""] else lines
  }

  function Upserted(r: Registry, v: Vault): Registry {
    var i := IndexOf(r.sections, v.alias);
    if i < |r.sections| then
      var lines := Render(v) + if TrailingBlank(r.sections[i].lines) then [""] else [];
      r.(sections := r.sections[i := Section(v.alias, lines)])
    else if r.sections == [] then
      Registry(Separated(r.preamble), [Section(v.alias, Render(v))])
    else
      var n := |r.sections|;
      var last := r.sections[n - 1];
      r.(sections := r.sections[n - 1 := last.(lines := Separated(last.lines))] + [Section(v.alias, Render(v))])
  }

  function Kept(sections: seq<Section>, alias: string): seq<Section> {
    if sections == [] then []
    else
      var init, last := sections[..|sections| - 1], sections[|sections| - 1];
      Kept(init, alias) + if last.name == alias then [] else [last]
  }

  function Removed(r: Registry, alias: string): Registry {
    r.(sections := Kept(r.sections, alias))
  }

  // --- finding ----------------------------------------------------------------------------

  lemma {:induction false} FoundAt(sections: seq<Section>, i: nat)
    requires i < |sections|
    requires forall j, k :: 0 <= j < k < |sections| ==> sections[j].name != sections[k].name
    ensures IndexOf(sections, sections[i].name) == i
  {
  }

  /** Sections of the same names whose lines read the same answer every `get` the same. */
  lemma {:induction false} SameSections(a: Registry, b: Registry, alias: string, home: Option<string>)
    requires |a.sections| == |b.sections|
    requires forall i :: 0 <= i < |a.sections| ==> a.sections[i].name == b.sections[i].name
    requires forall i :: 0 <= i < |a.sections| ==>
               ReadLines(EMPTY, a.sections[i].lines, home) == ReadLines(EMPTY, b.sections[i].lines, home)
    ensures Get(a, alias, home) == Get(b, alias, home)
  {
    hide ReadLines;
    assert IndexOf(a.sections, alias) == IndexOf(b.sections, alias);
  }

  // --- through the file ---------------------------------------------------------------------

  /** Printing and parsing keeps the sections, and what their lines say. */
  lemma {:induction false} TextKeepsSections(r: Registry, home: Option<string>)
    requires WellFormed(r)
    ensures ParseText(Printed(r)).Parsed?
    ensures var back := ParseText(Printed(r)).r.sections;
            && |back| == |r.sections|
            && (forall i :: 0 <= i < |back| ==> back[i].name == r.sections[i].name)
            && (forall i :: 0 <= i < |back| ==>
                  ReadLines(EMPTY, back[i].lines, home) == ReadLines(EMPTY, r.sections[i].lines, home))
  {
    hide ParseText, Printed, WellFormed, ReadLines, StripRegistry, DropAll, DropBlank, StripAll;
    ParseUndoesPrint(r);
    var kept := DropBlanks(r);
    var back := StripRegistry(kept);
    forall i | 0 <= i < |r.sections|
      ensures back.sections[i].name == r.sections[i].name
      ensures ReadLines(EMPTY, back.sections[i].lines, home) == ReadLines(EMPTY, r.sections[i].lines, home)
    {
      ReadLinesStripped(EMPTY, kept.sections[i].lines, home);
      ReadDropAll(EMPTY, r.sections[i].lines, home);
    }
  }

  /** Printing and parsing changes no vault and no order. */
  lemma {:induction false} TextKeepsVaults(r: Registry, alias: string, home: Option<string>)
    requires WellFormed(r)
    ensures ParseText(Printed(r)).Parsed?
    ensures Get(ParseText(Printed(r)).r, alias, home) == Get(r, alias, home)
    ensures Names(ParseText(Printed(r)).r) == Names(r)
  {
    hide ParseText, Printed, WellFormed, ReadLines, Get;
    TextKeepsSections(r, home);
    SameSections(ParseText(Printed(r)).r, r, alias, home);
  }

  lemma {:induction false} SameAll(a: seq<Section>, b: seq<Section>, home: Option<string>)
    requires |a| == |b| && forall i :: 0 <= i < |a| ==> VaultFrom(a[i], home) == VaultFrom(b[i], home)
    ensures AllVaults(a, home) == AllVaults(b, home)
    decreases |a|
  {
    hide VaultFrom;
    if a == [] {
    } else {
      SameAll(a[1..], b[1..], home);
    }
  }

  lemma {:induction false} TextKeepsAll(r: Registry, home: Option<string>)
    requires WellFormed(r)
    ensures ParseText(Printed(r)).Parsed?
    ensures AllVaults(ParseText(Printed(r)).r.sections, home) == AllVaults(r.sections, home)
  {
    hide ParseText, Printed, WellFormed, ReadLines, Finish, AllVaults;
    TextKeepsSections(r, home);
    SameAll(ParseText(Printed(r)).r.sections, r.sections, home);
  }

  // --- upsert ---------------------------------------------------------------------------------

  lemma {:induction false} SeparatedReads(lines: seq<string>, home: Option<string>)
    ensures ReadLines(EMPTY, Separated(lines), home) == ReadLines(EMPTY, lines, home)
  {
    ReadBlank(EMPTY, lines, home);
  }

  /** The vault put in is the one whose rendered lines are there to be read. */
  lemma {:induction false} UpsertedGet(r: Registry, v: Vault, home: Option<string>)
    ensures Get(Upserted(r, v), v.alias, home) == Some(Finish(v.alias, ReadLines(EMPTY, Render(v), home)))
  {
    ReadBlank(EMPTY, Render(v), home);
    hide ReadLines, Render, Trim, Finish;
    var after := Upserted(r, v);
    var i := IndexOf(r.sections, v.alias);
    assert i < |after.sections| && after.sections[i].name == v.alias;
    assert forall j :: 0 <= j < i ==> after.sections[j].name != v.alias;
    assert IndexOf(after.sections, v.alias) == i;
    assert Render(v) + [] == Render(v);
  }

  /** The same sections as far as `alias` goes, and perhaps more of other names. */
  lemma {:induction false} SameVault(a: Registry, b: Registry, alias: string, home: Option<string>)
    requires |a.sections| <= |b.sections|
    requires forall i :: 0 <= i < |a.sections| ==> a.sections[i].name == b.sections[i].name
    requires forall i :: |a.sections| <= i < |b.sections| ==> b.sections[i].name != alias
    requires forall i :: 0 <= i < |a.sections| && a.sections[i].name == alias ==>
               ReadLines(EMPTY, a.sections[i].lines, home) == ReadLines(EMPTY, b.sections[i].lines, home)
    ensures Get(a, alias, home) == Get(b, alias, home)
  {
    hide ReadLines, Finish;
    var i, j := IndexOf(a.sections, alias), IndexOf(b.sections, alias);
    if j < |b.sections| { assert b.sections[j].name == alias; }
  }

  lemma {:induction false} UpsertedOther(r: Registry, v: Vault, alias: string, home: Option<string>)
    requires alias != v.alias
    ensures Get(Upserted(r, v), alias, home) == Get(r, alias, home)
  {
    hide ReadLines, Render, Separated, TrailingBlank, VaultFrom, Get;
    if r.sections != [] { SeparatedReads(r.sections[|r.sections| - 1].lines, home); }
    SameVault(r, Upserted(r, v), alias, home);
  }

  /** Every other vault keeps its place; a new one comes last. */
  lemma {:induction false} UpsertedNames(r: Registry, v: Vault)
    ensures Names(Upserted(r, v)) == Names(r) + if IndexOf(r.sections, v.alias) < |r.sections| then [] else [v.alias]
  {
    hide Render, Separated, TrailingBlank;
  }

  lemma {:induction false} LinePlain(p: Pair)
    requires OneLine(p.value)
    ensures Plain(LineOf(p))
  {
    KeyTextOk(p.key);
    var line := LineOf(p);
    hide KeyText;
    assert line[0] == KeyText(p.key)[0] && !IsSpace(line[0]);
    assert TrimStart(line) == line;
    TrimEndTrims(line);
    assert Trim(line) != "" ==> Trim(line)[0] == line[0];
    assert OneLine(line);
  }

  ghost predicate ValuesOneLine(pairs: seq<Pair>) {
    forall i :: 0 <= i < |pairs| ==> OneLine(pairs[i].value)
  }

  lemma {:induction false} ConcatOneLine(a: seq<Pair>, b: seq<Pair>)
    requires ValuesOneLine(a) && ValuesOneLine(b)
    ensures ValuesOneLine(a + b)
  {
    hide OneLine;
  }

  lemma {:induction false} OptOneLine(key: Key, value: Option<string>)
    requires OneLineOpt(value)
    ensures ValuesOneLine(Opt(key, value))
  {
    hide OneLine;
  }

  lemma {:induction false} RenderPlain(v: Vault)
    requires OneLiners(v)
    ensures AllPlain(Render(v))
  {
    PairsOneLine(v);
    forall i | 0 <= i < |Pairs(v)| ensures Plain(LineOf(Pairs(v)[i])) {
      LinePlain(Pairs(v)[i]);
    }
    hide Plain, LineOf, Pairs;
  }

  lemma {:induction false} PairsOneLine(v: Vault)
    requires OneLiners(v)
    ensures ValuesOneLine(Pairs(v))
  {
    var text := if v.locking.Some? then Some(LockingText(v.locking.value)) else None;
    assert OneLineOpt(text) && OneLine("true");
    OptOneLine(KLocking, text);
    OptOneLine(KReadOnly, if v.readOnly then Some("true") else None);
    OptOneLine(KEnforcePermissions, if v.enforcePermissions then Some("true") else None);
    OptOneLine(KLogFile, v.logFile);
    OptOneLine(KPasswordCommand, v.passwordCommand);
    OptOneLine(KPasswordFile, v.passwordFile);
    OptOneLine(KCompactOnIdle, v.compactOnIdle);
    OptOneLine(KIdleTimeout, v.idleTimeout);
    OptOneLine(KMountpoint, Some(v.mountpoint));
    OptOneLine(KFile, Some(v.file));
    hide ValuesOneLine, OneLine, Opt, LockingText;
    var p8 := Flag(KEnforcePermissions, v.enforcePermissions) + LockingPair(v.locking);
    ConcatOneLine(Flag(KEnforcePermissions, v.enforcePermissions), LockingPair(v.locking));
    ConcatOneLine(Flag(KReadOnly, v.readOnly), p8);
    var p6 := Opt(KLogFile, v.logFile) + FlagPairs(v);
    ConcatOneLine(Opt(KLogFile, v.logFile), FlagPairs(v));
    var p5 := Opt(KPasswordCommand, v.passwordCommand) + p6;
    ConcatOneLine(Opt(KPasswordCommand, v.passwordCommand), p6);
    var p4 := Opt(KPasswordFile, v.passwordFile) + p5;
    ConcatOneLine(Opt(KPasswordFile, v.passwordFile), p5);
    var p3 := Opt(KCompactOnIdle, v.compactOnIdle) + p4;
    ConcatOneLine(Opt(KCompactOnIdle, v.compactOnIdle), p4);
    var p2 := Opt(KIdleTimeout, v.idleTimeout) + p3;
    ConcatOneLine(Opt(KIdleTimeout, v.idleTimeout), p3);
    var p1 := Opt(KMountpoint, Some(v.mountpoint)) + p2;
    ConcatOneLine(Opt(KMountpoint, Some(v.mountpoint)), p2);
    ConcatOneLine(Opt(KFile, Some(v.file)), p1);
  }

  lemma {:induction false} BlankPlain(lines: seq<string>)
    requires AllPlain(lines)
    ensures AllPlain(lines + [""])
  {
    assert Plain("");
    hide Plain;
  }

  lemma {:induction false} UpsertedWellFormed(r: Registry, v: Vault)
    requires WellFormed(r) && ValidAlias(v.alias) && OneLiners(v)
    ensures WellFormed(Upserted(r, v))
  {
    RenderPlain(v);
    BlankPlain(Render(v));
    if r.sections == [] { BlankPlain(r.preamble); } else { BlankPlain(r.sections[|r.sections| - 1].lines); }
    assert Render(v) + [] == Render(v);
    hide Render, Plain, ValidAlias, TrailingBlank, AllPlain;
  }

  // --- a vault survives the file exactly when it is storable -------------------------------------

  ghost predicate FieldsOneLine(f: Fields) {
    && OneLineOpt(f.file) && OneLineOpt(f.mountpoint) && OneLineOpt(f.idleTimeout) && OneLineOpt(f.compactOnIdle)
    && OneLineOpt(f.passwordFile) && OneLineOpt(f.passwordCommand) && OneLineOpt(f.logFile)
  }

  lemma {:induction false} UnquoteOneLine(v: string)
    requires OneLine(v)
    ensures OneLine(Unquote(v))
  {
    TrimTrims(v);
  }

  lemma {:induction false} SkipSlashesOneLine(s: string)
    requires OneLine(s)
    ensures OneLine(SkipSlashes(s))
  {
    if !StartsWith(s, '/') {
    } else {
      SkipSlashesOneLine(s[1..]);
    }
  }

  lemma {:induction false} ExpandOneLine(v: string, home: Option<string>)
    requires OneLine(v) && HomeOk(home)
    ensures OneLine(ExpandTilde(v, home))
  {
    if v != "" { SkipSlashesOneLine(v[1..]); }
    hide SkipSlashes;
  }

  lemma {:induction false} SetFieldOneLine(f: Fields, key: Key, value: string, home: Option<string>)
    requires FieldsOneLine(f) && OneLine(value) && HomeOk(home) && SetField(f, key, value, home).Ok?
    ensures FieldsOneLine(SetField(f, key, value, home).fields)
  {
    ExpandOneLine(value, home);
    hide OneLine, ExpandTilde, ParseBool, ParseLocking, HomeOk;
  }

  lemma {:induction false} ReadLineOneLine(f: Fields, line: string, home: Option<string>)
    requires FieldsOneLine(f) && OneLine(line) && HomeOk(home) && ReadLine(f, line, home).Ok?
    ensures FieldsOneLine(ReadLine(f, line, home).fields)
  {
    var i := Find(line, '=');
    if !IsComment(line) && i < |line| {
      assert OneLine(line[i + 1..]);
      UnquoteOneLine(line[i + 1..]);
      hide OneLine, IsComment, Find, Unquote, KeyNamed, SetField, FieldsOneLine, Trim, HomeOk;
      SetFieldOneLine(f, KeyNamed(Trim(line[..i])).value, Unquote(line[i + 1..]), home);
    }
  }

  lemma {:induction false} ReadLinesOneLine(f: Fields, lines: seq<string>, home: Option<string>)
    requires FieldsOneLine(f) && AllPlain(lines) && HomeOk(home) && ReadLines(f, lines, home).Ok?
    ensures FieldsOneLine(ReadLines(f, lines, home).fields)
    decreases |lines|
  {
    if lines == [] {
    } else {
      assert Plain(lines[0]);
      ReadLineOneLine(f, lines[0], home);
      hide ReadLine, FieldsOneLine, Plain, HomeOk;
      ReadLinesOneLine(ReadLine(f, lines[0], home).fields, lines[1..], home);
    }
  }

  /** No vault read from a file has a value of two lines. */
  lemma {:induction false} GetOneLine(text: string, alias: string, home: Option<string>)
    requires HomeOk(home) && ParseText(text).Parsed?
    ensures var g := Get(ParseText(text).r, alias, home);
            g.Some? && g.value.Good? ==> OneLiners(g.value.vault)
  {
    var r := ParseText(text).r;
    LinesAreOneLine(text);
    ParsedIsWellFormed(Lines(text));
    var i := IndexOf(r.sections, alias);
    if i < |r.sections| && ReadLines(EMPTY, r.sections[i].lines, home).Ok? {
      hide ParseText, ReadLines, Plain, HomeOk, OneLine;
      assert AllPlain(r.sections[i].lines);
      ReadLinesOneLine(EMPTY, r.sections[i].lines, home);
    }
  }

  /** Put in, written, read and looked up again, a vault is the same exactly when its values are trimmed,
      not empty, on one line and not in quotes, and its paths do not ask for the home directory. */
  lemma {:induction false} UpsertSurvivesIff(r: Registry, v: Vault, home: Option<string>)
    requires WellFormed(r) && ValidAlias(v.alias) && HomeOk(home)
    ensures var back := ParseText(Printed(Upserted(r, v)));
            back.Parsed? && Get(back.r, v.alias, home) == Some(Good(v)) <==> Storable(v, home)
  {
    var after := Upserted(r, v);
    StorableOneLiners(v, home);
    if OneLiners(v) {
      UpsertedWellFormed(r, v);
      hide ParseText, Printed, Upserted, Get, WellFormed, Storable, Finish, ReadBack, AllHaveValues, OneLiners;
      TextKeepsVaults(after, v.alias, home);
      UpsertedGet(r, v, home);
      RenderedReadsBack(v, home);
      ReadsBackIff(v, home);
    } else if ParseText(Printed(after)).Parsed? {
      GetOneLine(Printed(after), v.alias, home);
      hide ParseText, Printed, Upserted, Get, WellFormed, Storable, OneLiners;
    }
  }

  /** One that is not: a path in quotes loses them. */
  lemma {:induction false} QuotedIsLost(home: Option<string>)
    requires HomeOk(home)
    ensures var v := Vault("v", "\"f\"", "/m", None, None, None, None, None, false, false, None);
            var back := ParseText(Printed(Upserted(Registry([], []), v)));
            !(back.Parsed? && Get(back.r, v.alias, home) == Some(Good(v)))
  {
    var v := Vault("v", "\"f\"", "/m", None, None, None, None, None, false, false, None);
    assert Quoted(v.file) && !Storable(v, home);
    assert WellFormed(Registry([], [])) && ValidAlias(v.alias);
    hide ParseText, Printed, Upserted, Get, Storable, WellFormed, ValidAlias, HomeOk;
    UpsertSurvivesIff(Registry([], []), v, home);
  }

  lemma {:induction false} StorableOneLiners(v: Vault, home: Option<string>)
    ensures Storable(v, home) ==> OneLiners(v)
  {
    hide OneLine, Trimmed, Quoted, TildeForm;
  }

  /** Storing a storable vault leaves every other vault, and the order of all of them, as they were. */
  lemma {:induction false} UpsertDisturbsNoOther(r: Registry, v: Vault, alias: string, home: Option<string>)
    requires WellFormed(r) && ValidAlias(v.alias) && OneLiners(v) && alias != v.alias
    ensures var back := ParseText(Printed(Upserted(r, v)));
            && back.Parsed?
            && Get(back.r, alias, home) == Get(r, alias, home)
            && Names(back.r) == Names(r) + if IndexOf(r.sections, v.alias) < |r.sections| then [] else [v.alias]
  {
    UpsertedWellFormed(r, v);
    hide ParseText, Printed, Upserted, Get, WellFormed, OneLiners, IndexOf;
    TextKeepsVaults(Upserted(r, v), alias, home);
    UpsertedOther(r, v, alias, home);
    UpsertedNames(r, v);
  }

  // --- the whole list ------------------------------------------------------------------------------

  /** There is a list of vaults exactly when every section is one, and then it is theirs. */
  lemma {:induction false} AllAt(sections: seq<Section>, home: Option<string>)
    ensures AllVaults(sections, home).All? <==> forall i :: 0 <= i < |sections| ==> VaultFrom(sections[i], home).Good?
    ensures AllVaults(sections, home).All? ==>
              var vs := AllVaults(sections, home).vaults;
              |vs| == |sections| && forall i :: 0 <= i < |vs| ==> VaultFrom(sections[i], home) == Good(vs[i])
    decreases |sections|
  {
    hide VaultFrom;
    if sections == [] {
    } else {
      AllAt(sections[1..], home);
      assert forall i :: 1 <= i < |sections| ==> sections[i] == sections[1..][i - 1];
      assert forall i :: 0 <= i < |sections| - 1 ==> sections[1..][i] == sections[i + 1];
    }
  }

  /** Else the error is that of the first section that is none. */
  lemma {:induction false} FirstWrong(sections: seq<Section>, n: nat, home: Option<string>)
    requires n < |sections| && VaultFrom(sections[n], home).Bad?
    requires forall i :: 0 <= i < n ==> VaultFrom(sections[i], home).Good?
    ensures AllVaults(sections, home) == Wrong(VaultFrom(sections[n], home).error)
    decreases n
  {
    hide VaultFrom;
    if n == 0 {
    } else {
      assert forall i :: 0 <= i < n ==> sections[1..][i] == sections[i + 1];
      FirstWrong(sections[1..], n - 1, home);
    }
  }

  lemma {:induction false} AllIs(sections: seq<Section>, home: Option<string>, vs: seq<Vault>)
    requires |vs| == |sections| && forall i :: 0 <= i < |vs| ==> VaultFrom(sections[i], home) == Good(vs[i])
    ensures AllVaults(sections, home) == All(vs)
  {
    hide VaultFrom, AllVaults;
    AllAt(sections, home);
    var got := AllVaults(sections, home).vaults;
    assert forall i :: 0 <= i < |vs| ==> got[i] == vs[i];
  }

  lemma {:induction false} UpsertedSections(r: Registry, v: Vault, home: Option<string>)
    requires Storable(v, home) && HomeOk(home)
    ensures var i, after := IndexOf(r.sections, v.alias), Upserted(r, v).sections;
            && |after| == (if i < |r.sections| then |r.sections| else |r.sections| + 1)
            && VaultFrom(after[i], home) == Good(v)
            && forall j :: 0 <= j < |r.sections| && j != i ==> VaultFrom(after[j], home) == VaultFrom(r.sections[j], home)
  {
    StorableOneLiners(v, home);
    ReadBlank(EMPTY, Render(v), home);
    hide ReadLines, Render, Finish, Storable, OneLiners, HomeOk, AllHaveValues, ReadBack, TrailingBlank;
    RenderedReadsBack(v, home);
    ReadsBackIff(v, home);
    assert Render(v) + [] == Render(v);
    if r.sections != [] { SeparatedReads(r.sections[|r.sections| - 1].lines, home); }
    hide Separated;
  }

  /** The list of a registry whose sections are all right: a stored vault takes its place in it, or the last one. */
  lemma {:induction false} UpsertListed(r: Registry, v: Vault, home: Option<string>)
    requires WellFormed(r) && ValidAlias(v.alias) && HomeOk(home) && Storable(v, home)
    requires AllVaults(r.sections, home).All?
    ensures var back, vs, i := ParseText(Printed(Upserted(r, v))), AllVaults(r.sections, home).vaults, IndexOf(r.sections, v.alias);
            && back.Parsed? && i <= |vs|
            && AllVaults(back.r.sections, home) == All(if i < |vs| then vs[i := v] else vs + [v])
  {
    hide ParseText, Printed, Upserted, WellFormed, Storable, OneLiners, HomeOk, AllVaults, VaultFrom, IndexOf;
    StorableOneLiners(v, home);
    UpsertedWellFormed(r, v);
    TextKeepsAll(Upserted(r, v), home);
    AllAt(r.sections, home);
    UpsertedSections(r, v, home);
    var vs, i := AllVaults(r.sections, home).vaults, IndexOf(r.sections, v.alias);
    AllIs(Upserted(r, v).sections, home, if i < |vs| then vs[i := v] else vs + [v]);
  }

  // --- remove -----------------------------------------------------------------------------------------

  lemma {:induction false} KeptFrom(sections: seq<Section>, alias: string)
    ensures forall s :: s in Kept(sections, alias) <==> s in sections && s.name != alias
    ensures |Kept(sections, alias)| <= |sections|
    decreases |sections|
  {
    if sections == [] {
    } else {
      var init, last := sections[..|sections| - 1], sections[|sections| - 1];
      assert sections == init + [last];
      KeptFrom(init, alias);
    }
  }

  lemma {:induction false} KeptOk(sections: seq<Section>, alias: string)
    requires SectionsOk(sections)
    ensures SectionsOk(Kept(sections, alias))
    decreases |sections|
  {
    hide ValidAlias, AllPlain;
    if sections == [] {
    } else {
      var init, last := sections[..|sections| - 1], sections[|sections| - 1];
      KeptOk(init, alias);
      KeptFrom(init, alias);
      var kept := Kept(init, alias);
      forall i | 0 <= i < |kept| ensures kept[i].name != last.name {
        assert kept[i] in kept;
      }
    }
  }

  lemma {:induction false} GetMember(r: Registry, s: Section, home: Option<string>)
    requires SectionsOk(r.sections) && s in r.sections
    ensures Get(r, s.name, home) == Some(VaultFrom(s, home))
  {
    var i :| 0 <= i < |r.sections| && r.sections[i] == s;
    FoundAt(r.sections, i);
  }

  lemma {:induction false} RemovedGet(r: Registry, alias: string, other: string, home: Option<string>)
    requires SectionsOk(r.sections)
    ensures Get(Removed(r, alias), other, home) == if other == alias then None else Get(r, other, home)
  {
    KeptFrom(r.sections, alias);
    KeptOk(r.sections, alias);
    var after := Removed(r, alias);
    hide SectionsOk, VaultFrom, Kept;
    var i, j := IndexOf(r.sections, other), IndexOf(after.sections, other);
    if j < |after.sections| {
      assert after.sections[j] in after.sections;
      GetMember(r, after.sections[j], home);
    }
  }

  function Without(names: seq<string>, alias: string): seq<string> {
    if names == [] then []
    else (if names[0] == alias then [] else [names[0]]) + Without(names[1..], alias)
  }

  lemma {:induction false} WithoutLast(names: seq<string>, last: string, alias: string)
    ensures Without(names + [last], alias) == Without(names, alias) + if last == alias then [] else [last]
    decreases |names|
  {
    if names == [] {
      assert [] + [last] == [last] && [last][1..] == [];
    } else {
      assert (names + [last])[1..] == names[1..] + [last];
      WithoutLast(names[1..], last, alias);
    }
  }

  /** The other vaults stay, in their order. */
  lemma {:induction false} RemovedNames(r: Registry, alias: string)
    ensures Names(Removed(r, alias)) == Without(Names(r), alias)
    decreases |r.sections|
  {
    if r.sections == [] {
    } else {
      var init, last := r.sections[..|r.sections| - 1], r.sections[|r.sections| - 1];
      var shorter := r.(sections := init);
      RemovedNames(shorter, alias);
      WithoutLast(Names(shorter), last.name, alias);
      hide Kept, Without;
      assert Names(r) == Names(shorter) + [last.name];
      assert Kept(r.sections, alias) == Kept(init, alias) + if last.name == alias then [] else [last] by {
        KeptLast(r.sections, alias);
      }
      assert Names(Removed(r, alias)) == Names(Removed(shorter, alias)) + if last.name == alias then [] else [last.name];
    }
  }

  lemma {:induction false} KeptLast(sections: seq<Section>, alias: string)
    requires sections != []
    ensures Kept(sections, alias) ==
            Kept(sections[..|sections| - 1], alias)
            + if sections[|sections| - 1].name == alias then [] else [sections[|sections| - 1]]
  {
  }

  /** Removing a vault, through the file, leaves every other, and their order, as it was. */
  lemma {:induction false} RemoveDisturbsNoOther(r: Registry, alias: string, other: string, home: Option<string>)
    requires WellFormed(r)
    ensures var back := ParseText(Printed(Removed(r, alias)));
            && back.Parsed?
            && Get(back.r, other, home) == (if other == alias then None else Get(r, other, home))
            && Names(back.r) == Without(Names(r), alias)
  {
    RemovedNames(r, alias);
    KeptOk(r.sections, alias);
    assert WellFormed(Removed(r, alias));
    RemovedGet(r, alias, other, home);
    hide ParseText, Printed, Removed, Get, WellFormed, Without;
    TextKeepsVaults(Removed(r, alias), other, home);
  }

  // --- every other line stays -------------------------------------------------------------------------------

  /** Whether a blank line has to follow before something new. */
  ghost predicate EndsInText(lines: seq<string>) {
    lines != [] && Trim(lines[|lines| - 1]) != ""
  }

  /** An upsert leaves every line of the registry where it is, remarks and blank lines included, but for those
      of the section it replaces; it keeps a blank line after that, and puts one before a new section. */
  lemma {:induction false} UpsertKeepsLines(r: Registry, v: Vault)
    requires SectionsOk(r.sections)
    ensures var n, after := |r.sections|, Upserted(r, v);
            if exists i :: 0 <= i < n && r.sections[i].name == v.alias then
              && after.preamble == r.preamble && |after.sections| == n
              && (forall j :: 0 <= j < n && r.sections[j].name != v.alias ==> after.sections[j] == r.sections[j])
              && exists i :: 0 <= i < n && r.sections[i].name == v.alias && after.sections[i] ==
                   var was := r.sections[i].lines;
                   Section(v.alias, Render(v) + if was != [] && !EndsInText(was) then [""] else [])
            else
              && |after.sections| == n + 1 && after.sections[n] == Section(v.alias, Render(v))
              && (forall j :: 0 <= j < n - 1 ==> after.sections[j] == r.sections[j])
              && after.preamble == r.preamble + (if n == 0 && EndsInText(r.preamble) then [""] else [])
              && (n > 0 ==>
                    var was := r.sections[n - 1].lines;
                    after.sections[n - 1] == Section(r.sections[n - 1].name, was + if EndsInText(was) then [""] else []))
  {
    hide Render, Trim, ValidAlias, AllPlain;
    var i, n := IndexOf(r.sections, v.alias), |r.sections|;
    assert r.preamble + [] == r.preamble;
    if i < n {
      assert r.sections[i].name == v.alias;
    } else if n > 0 {
      var was := r.sections[n - 1].lines;
      assert was + [] == was && r.sections[n - 1] == Section(r.sections[n - 1].name, was);
    }
  }

  /** A remove takes one section away, with its lines, and leaves all others and what is before them. */
  lemma {:induction false} RemoveKeepsLines(r: Registry, alias: string)
    ensures Removed(r, alias).preamble == r.preamble
    ensures forall s :: s in Removed(r, alias).sections <==> s in r.sections && s.name != alias
    ensures Names(Removed(r, alias)) == Without(Names(r), alias)
  {
    KeptFrom(r.sections, alias);
    RemovedNames(r, alias);
  }

  /** Only empty lines are dropped, from the end, and the first line never. */
  lemma {:induction false} DropBlankIs(lines: seq<string>)
    ensures var kept := DropBlank(lines);
            && |kept| <= |lines| && kept == lines[..|kept|]
            && (forall i :: |kept| <= i < |lines| ==> lines[i] == "")
            && (|kept| >= 2 ==> kept[|kept| - 1] != "") && (lines != [] ==> kept != [])
    decreases |lines|
  {
    if |lines| < 2 || lines[|lines| - 1] != "" {
    } else {
      DropBlankIs(lines[..|lines| - 1]);
    }
  }

  /** Printing and parsing keeps every line in its place, but for empty ones at the end and for one carriage
      return at the end of a line. */
  lemma {:induction false} TextKeepsLines(r: Registry)
    requires WellFormed(r)
    ensures ParseText(Printed(r)).Parsed?
    ensures var was, now := AllLines(r), AllLines(ParseText(Printed(r)).r);
            && |now| <= |was|
            && (forall i :: |now| <= i < |was| ==> was[i] == "")
            && (forall i :: 0 <= i < |now| ==> OneCr(was[i], now[i]))
  {
    var kept := DropBlanks(r);
    DropBlanksWellFormed(r);
    DropBlanksLines(r);
    hide AllLines, ParseText, Printed, DropBlanks, StripRegistry, WellFormed, DropBlank, StripCr;
    ParseUndoesPrint(r);
    StripLines(kept);
    DropBlankIs(AllLines(r));
    forall i | 0 <= i < |AllLines(kept)| ensures OneCr(AllLines(r)[i], StripCr(AllLines(kept)[i])) {
      StripTakesOne(AllLines(r)[i]);
    }
    hide StripAll;
  }

  /** The same but for one carriage return at the end. */
  ghost predicate OneCr(was: string, now: string) {
    was == now || was == now + "\r"
  }

  lemma {:induction false} StripTakesOne(line: string)
    ensures OneCr(line, StripCr(line))
  {
  }
}
