/** src/config.rs: the registry object and its methods, which build and edit it line by line. */
module ConfigFile {
  import opened Common
  import opened Text
  import opened Registry
  import opened Vaults
  import opened Editing

  class Config {
    var preamble: seq<string>
    var sections: seq<Section>

    function Value(): Registry
      reads this
    {
      Registry(preamble, sections)
    }

    constructor Empty()
      ensures Value() == Registry([], [])
    {
      preamble, sections := [], [];
    }

    static method Parse(text: string) returns (c: Config?, error: Option<ParseError>)
      ensures match ParseText(text)
              case Parsed(r) => c != null && fresh(c) && c.Value() == r && error == None
              case Rejected(e) => c == null && error == Some(e)
    {
      hide Trim, HeaderName, ValidAlias;
      var lines := Lines(text);
      var config := new Config.Empty();
      var idx := 0;
      while idx < |lines|
        invariant idx <= |lines| && fresh(config)
        invariant ParseLines(lines[..idx]) == Parsed(config.Value())
      {
        ParseAppended(lines[..idx], config.Value(), lines[idx]);
        assert lines[..idx + 1] == lines[..idx] + [lines[idx]];
        var failed := config.TakeLine(lines[idx], idx + 1);
        if failed.Some? {
          RejectedPrefix(lines, idx + 1);
          return null, failed;
        }
        idx := idx + 1;
      }
      assert lines[..|lines|] == lines;
      c, error := config, None;
    }

    /** One round of the loop: a header opens a section, anything else goes to the last one. */
    method TakeLine(raw: string, number: nat) returns (error: Option<ParseError>)
      modifies this
      ensures match AddLine(old(Value()), raw, number)
              case Parsed(r) => error == None && Value() == r
              case Rejected(e) => error == Some(e)
    {
      hide Trim, ValidAlias;
      if IsHeader(raw) {
        var name := HeaderName(raw);
        if name.None? {
          return Some(MalformedHeader(number));
        }
        if !ValidAlias(name.value) {
          return Some(InvalidAlias(number));
        }
        if HasSection(sections, name.value) {
          return Some(DuplicateSection(number));
        }
        sections := sections + [Section(name.value, [])];
      } else if sections != [] {
        var last := sections[|sections| - 1];
        sections := sections[..|sections| - 1] + [last.(lines := last.lines + [raw])];
      } else {
        preamble := preamble + [raw];
      }
      error := None;
    }

    method ToText() returns (out: string)
      ensures out == Printed(Value())
    {
      hide Header, Join, PopBlank;
      JoinNothing();
      out := "";
      ghost var done: seq<string> := [];
      var i := 0;
      while i < |preamble|
        invariant i <= |preamble| && done == preamble[..i] && out == Join(done)
      {
        JoinAppend(done, preamble[i]);
        out, done, i := out + preamble[i] + "\n", done + [preamble[i]], i + 1;
      }
      var k := 0;
      while k < |sections|
        invariant k <= |sections| && done == preamble + SectionLines(sections[..k]) && out == Join(done)
      {
        ghost var before := done;
        JoinAppend(done, Header(sections[k].name));
        out, done := out + Header(sections[k].name) + "\n", done + [Header(sections[k].name)];
        var j := 0;
        while j < |sections[k].lines|
          invariant j <= |sections[k].lines|
          invariant done == before + [Header(sections[k].name)] + sections[k].lines[..j] && out == Join(done)
        {
          JoinAppend(done, sections[k].lines[j]);
          out, done, j := out + sections[k].lines[j] + "\n", done + [sections[k].lines[j]], j + 1;
        }
        assert sections[..k + 1][..k] == sections[..k];
        k := k + 1;
      }
      assert sections[..k] == sections && done == AllLines(Value());
      out := PopAll(out);
    }

    static lemma JoinNothing()
      ensures Join([]) == ""
    {
    }

    /** The last loop of `to_text`. */
    static method PopAll(text: string) returns (out: string)
      ensures out == PopBlank(text)
    {
      out := text;
      while |out| >= 2 && out[|out| - 1] == '\n' && out[|out| - 2] == '\n'
        invariant PopBlank(out) == PopBlank(text)
        decreases |out|
      {
        out := out[..|out| - 1];
      }
    }

    /** Adds the vault, or replaces the section of its alias; says whether it replaced one. */
    method Upsert(v: Vault) returns (replaced: bool)
      modifies this
      ensures Value() == Upserted(old(Value()), v)
      ensures replaced <==> HasSection(old(sections), v.alias)
    {
      hide Render, Trim;
      var lines := RenderLines(v);
      var i := IndexOf(sections, v.alias);
      if i < |sections| {
        if TrailingBlank(sections[i].lines) {
          lines := lines + [""];
        }
        assert lines == Render(v) + if TrailingBlank(sections[i].lines) then [""] else [];
        sections := sections[i := sections[i].(lines := lines)];
        return true;
      }
      if sections != [] {
        var n := |sections|;
        sections := sections[n - 1 := sections[n - 1].(lines := Separated(sections[n - 1].lines))];
      } else {
        preamble := Separated(preamble);
      }
      sections := sections + [Section(v.alias, lines)];
      replaced := false;
    }

    method Remove(alias: string) returns (removed: bool)
      modifies this
      ensures Value() == Removed(old(Value()), alias)
      ensures removed <==> HasSection(old(sections), alias)
    {
      ghost var all := sections;
      var before := |sections|;
      var kept, i := [], 0;
      while i < |sections|
        invariant i <= |sections| && kept == Kept(sections[..i], alias) && |kept| <= i
        invariant |kept| < i <==> exists j :: 0 <= j < i && sections[j].name == alias
      {
        assert sections[..i + 1][..i] == sections[..i];
        if sections[i].name != alias {
          kept := kept + [sections[i]];
        }
        i := i + 1;
      }
      assert sections[..i] == sections;
      sections := kept;
      removed := |sections| != before;
    }

    method Find(alias: string, home: Option<string>) returns (found: Option<VaultResult>)
      ensures found == Get(Value(), alias, home)
    {
      var i := IndexOf(sections, alias);
      if i == |sections| {
        return None;
      }
      var r := ReadSection(sections[i], home);
      found := Some(r);
    }

    /** `vaults`: the sections one after another, up to the first one that is wrong. */
    method List(home: Option<string>) returns (all: VaultsResult)
      ensures all == AllVaults(sections, home)
    {
      hide VaultFrom;
      var vs, i := [], 0;
      while i < |sections|
        invariant i <= |sections|
        invariant AllVaults(sections, home) ==
                  match AllVaults(sections[i..], home) case Wrong(e) => Wrong(e) case All(rest) => All(vs + rest)
      {
        assert sections[i..][1..] == sections[i + 1..];
        var r := ReadSection(sections[i], home);
        match r {
          case Bad(e) => return Wrong(e);
          case Good(v) =>
            AppendRest(vs, v, AllVaults(sections[i + 1..], home));
            vs := vs + [v];
        }
        i := i + 1;
      }
      assert vs + [] == vs;
      all := All(vs);
    }

    static lemma AppendRest(vs: seq<Vault>, v: Vault, rest: VaultsResult)
      ensures rest.All? ==> vs + ([v] + rest.vaults) == (vs + [v]) + rest.vaults
    {
    }

    /** `vault_from`: line by line, up to the first one that is wrong. */
    static method ReadSection(section: Section, home: Option<string>) returns (r: VaultResult)
      ensures r == VaultFrom(section, home)
    {
      hide ReadLine;
      var f, i := EMPTY, 0;
      while i < |section.lines|
        invariant i <= |section.lines|
        invariant ReadLines(f, section.lines[i..], home) == ReadLines(EMPTY, section.lines, home)
      {
        assert section.lines[i..][1..] == section.lines[i + 1..];
        match ReadLine(f, section.lines[i], home) {
          case Failed(e) => return Bad(e);
          case Ok(g) => f := g;
        }
        i := i + 1;
      }
      r := Finish(section.name, Ok(f));
    }

    /** `render`: one push after another. */
    static method RenderLines(v: Vault) returns (lines: seq<string>)
      ensures lines == Render(v)
    {
      var locking := if v.locking.Some? then Some(LockingText(v.locking.value)) else None;
      var readOnly := if v.readOnly then Some("true") else None;
      var enforce := if v.enforcePermissions then Some("true") else None;
      ghost var p8 := Opt(KEnforcePermissions, enforce) + LockingPair(v.locking);
      ghost var p7 := FlagPairs(v);
      ghost var p6 := Opt(KLogFile, v.logFile) + p7;
      ghost var p5 := Opt(KPasswordCommand, v.passwordCommand) + p6;
      ghost var p4 := Opt(KPasswordFile, v.passwordFile) + p5;
      ghost var p3 := Opt(KCompactOnIdle, v.compactOnIdle) + p4;
      ghost var p2 := Opt(KIdleTimeout, v.idleTimeout) + p3;
      ghost var p1 := Opt(KMountpoint, Some(v.mountpoint)) + p2;
      assert Opt(KLocking, locking) + [] == LockingPair(v.locking) && Opt(KReadOnly, readOnly) + p8 == p7;
      assert Opt(KFile, Some(v.file)) + p1 == Pairs(v) && LinesOf([]) == [];
      hide LinesOf, Opt, LockingText, FlagPairs;
      lines := [];
      assert lines + LinesOf(Pairs(v)) == Render(v);
      lines := Push(lines, KFile, Some(v.file), p1);
      lines := Push(lines, KMountpoint, Some(v.mountpoint), p2);
      lines := Push(lines, KIdleTimeout, v.idleTimeout, p3);
      lines := Push(lines, KCompactOnIdle, v.compactOnIdle, p4);
      lines := Push(lines, KPasswordFile, v.passwordFile, p5);
      lines := Push(lines, KPasswordCommand, v.passwordCommand, p6);
      lines := Push(lines, KLogFile, v.logFile, p7);
      lines := Push(lines, KReadOnly, readOnly, p8);
      lines := Push(lines, KEnforcePermissions, enforce, LockingPair(v.locking));
      lines := Push(lines, KLocking, locking, []);
      assert lines + LinesOf([]) == lines;
    }

    /** A setting that is there becomes a line; `rest` are the settings still to come. */
    static method Push(lines: seq<string>, key: Key, value: Option<string>, ghost rest: seq<Pair>)
      returns (more: seq<string>)
      ensures more + LinesOf(rest) == lines + LinesOf(Opt(key, value) + rest)
    {
      hide LineOf;
      more := if value.Some? then lines + [LineOf(Pair(key, value.value))] else lines;
    }
  }
}
