/** The vaults in a registry: what `vault_from` makes of a section, and what `render` writes. */
module Vaults {
  import opened Common
  import opened Text
  import opened Registry

  datatype Locking = Auto | Exclusive | Normal

  datatype Vault = Vault(
    alias: string, file: string, mountpoint: string,
    idleTimeout: Option<string>, compactOnIdle: Option<string>,
    passwordFile: Option<string>, passwordCommand: Option<string>, logFile: Option<string>,
    readOnly: bool, enforcePermissions: bool, locking: Option<Locking>)

  datatype VaultError = NotKeyValue | NoValue | UnknownKey | BadBool | BadLocking | MissingFile | MissingMountpoint

  datatype VaultResult = Good(vault: Vault) | Bad(error: VaultError)

  // --- keys and values ------------------------------------------------------------------

  datatype Key =
    KFile | KMountpoint | KIdleTimeout | KCompactOnIdle | KPasswordFile | KPasswordCommand | KLogFile
    | KReadOnly | KEnforcePermissions | KLocking

  function KeyText(k: Key): string {
    match k
    case KFile => "file"
    case KMountpoint => "mountpoint"
    case KIdleTimeout => "idle_timeout"
    case KCompactOnIdle => "compact_on_idle"
    case KPasswordFile => "password_file"
    case KPasswordCommand => "password_command"
    case KLogFile => "log_file"
    case KReadOnly => "read_only"
    case KEnforcePermissions => "enforce_permissions"
    case KLocking => "locking"
  }

  function KeyNamed(s: string): Option<Key> {
    if s == KeyText(KFile) then Some(KFile)
    else if s == KeyText(KMountpoint) then Some(KMountpoint)
    else if s == KeyText(KIdleTimeout) then Some(KIdleTimeout)
    else if s == KeyText(KCompactOnIdle) then Some(KCompactOnIdle)
    else if s == KeyText(KPasswordFile) then Some(KPasswordFile)
    else if s == KeyText(KPasswordCommand) then Some(KPasswordCommand)
    else if s == KeyText(KLogFile) then Some(KLogFile)
    else if s == KeyText(KReadOnly) then Some(KReadOnly)
    else if s == KeyText(KEnforcePermissions) then Some(KEnforcePermissions)
    else if s == KeyText(KLocking) then Some(KLocking)
    else None
  }

  predicate Quoted(v: string) {
    |v| >= 2 && ((StartsWith(v, '"') && EndsWith(v, '"')) || (StartsWith(v, '\'') && EndsWith(v, '\'')))
  }

  function Unquote(value: string): string {
    var v := Trim(value);
    if Quoted(v) then v[1..|v| - 1] else v
  }

  /** `~` and `~/...` mean the home directory, if there is one. */
  predicate TildeForm(s: string) {
    StartsWith(s, '~') && (|s| == 1 || s[1] == '/')
  }

  function SkipSlashes(s: string): string {
    if StartsWith(s, '/') then SkipSlashes(s[1..]) else s
  }

  function ExpandTilde(s: string, home: Option<string>): string {
    if TildeForm(s) && home.Some? then home.value + "/" + SkipSlashes(s[1..]) else s
  }

  function LowerChar(c: char): char {
    if 'A' <= c <= 'Z' then ((c as int) + 32) as char else c
  }

  function Lower(s: string): (r: string)
    ensures |r| == |s|
  {
    seq(|s|, i requires 0 <= i < |s| => LowerChar(s[i]))
  }

  function ParseBool(value: string): Option<bool> {
    var v := Lower(value);
    if v == "true" || v == "yes" || v == "on" || v == "1" then Some(true)
    else if v == "false" || v == "no" || v == "off" || v == "0" then Some(false)
    else None
  }

  function LockingText(l: Locking): string {
    match l
    case Auto => "auto"
    case Exclusive => "exclusive"
    case Normal => "normal"
  }

  function ParseLocking(s: string): Option<Locking> {
    var v := Lower(Trim(s));
    if v == "auto" then Some(Auto)
    else if v == "exclusive" then Some(Exclusive)
    else if v == "normal" then Some(Normal)
    else None
  }

  // --- vault_from -------------------------------------------------------------------------

  predicate IsComment(line: string) {
    var t := TrimStart(line);
    t == "" || t[0] == '#' || t[0] == ';'
  }

  /** The locals of `vault_from`. */
  datatype Fields = Fields(
    file: Option<string>, mountpoint: Option<string>,
    idleTimeout: Option<string>, compactOnIdle: Option<string>,
    passwordFile: Option<string>, passwordCommand: Option<string>, logFile: Option<string>,
    readOnly: bool, enforcePermissions: bool, locking: Option<Locking>)

  const EMPTY := Fields(None, None, None, None, None, None, None, false, false, None)

  datatype FieldsResult = Ok(fields: Fields) | Failed(error: VaultError)

  function SetField(f: Fields, key: Key, value: string, home: Option<string>): FieldsResult {
    match key
    case KFile => Ok(f.(file := Some(ExpandTilde(value, home))))
    case KMountpoint => Ok(f.(mountpoint := Some(ExpandTilde(value, home))))
    case KIdleTimeout => Ok(f.(idleTimeout := Some(value)))
    case KCompactOnIdle => Ok(f.(compactOnIdle := Some(value)))
    case KPasswordFile => Ok(f.(passwordFile := Some(ExpandTilde(value, home))))
    case KPasswordCommand => Ok(f.(passwordCommand := Some(value)))
    case KLogFile => Ok(f.(logFile := Some(ExpandTilde(value, home))))
    case KReadOnly =>
      (match ParseBool(value) case None => Failed(BadBool) case Some(b) => Ok(f.(readOnly := b)))
    case KEnforcePermissions =>
      (match ParseBool(value) case None => Failed(BadBool) case Some(b) => Ok(f.(enforcePermissions := b)))
    case KLocking =>
      (match ParseLocking(value) case None => Failed(BadLocking) case Some(l) => Ok(f.(locking := Some(l))))
  }

  function SetValue(f: Fields, name: string, raw: string, home: Option<string>): FieldsResult {
    var value := Unquote(raw);
    if value == "" then Failed(NoValue)
    else
      match KeyNamed(Trim(name))
      case None => Failed(UnknownKey)
      case Some(key) => SetField(f, key, value, home)
  }

  function ReadLine(f: Fields, line: string, home: Option<string>): FieldsResult {
    if IsComment(line) then Ok(f)
    else
      var i := Find(line, '=');
      if i == |line| then Failed(NotKeyValue) else SetValue(f, line[..i], line[i + 1..], home)
  }

  function ReadLines(f: Fields, lines: seq<string>, home: Option<string>): FieldsResult
    decreases |lines|
  {
    if lines == [] then Ok(f)
    else
      match ReadLine(f, lines[0], home)
      case Failed(e) => Failed(e)
      case Ok(g) => ReadLines(g, lines[1..], home)
  }

  function Finish(alias: string, r: FieldsResult): VaultResult {
    match r
    case Failed(e) => Bad(e)
    case Ok(f) =>
      if f.file.None? then Bad(MissingFile)
      else if f.mountpoint.None? then Bad(MissingMountpoint)
      else Good(Vault(alias, f.file.value, f.mountpoint.value, f.idleTimeout, f.compactOnIdle, f.passwordFile,
                      f.passwordCommand, f.logFile, f.readOnly, f.enforcePermissions, f.locking))
  }

  function VaultFrom(section: Section, home: Option<string>): VaultResult {
    Finish(section.name, ReadLines(EMPTY, section.lines, home))
  }

  // --- render -------------------------------------------------------------------------------

  datatype Pair = Pair(key: Key, value: string)

  function LineOf(p: Pair): string {
    KeyText(p.key) + " = " + p.value
  }

  function LinesOf(pairs: seq<Pair>): (lines: seq<string>)
    ensures |lines| == |pairs| && forall i :: 0 <= i < |pairs| ==> lines[i] == LineOf(pairs[i])
  {
    seq(|pairs|, i requires 0 <= i < |pairs| => LineOf(pairs[i]))
  }

  function Opt(key: Key, value: Option<string>): seq<Pair> {
    if value.Some? then [Pair(key, value.value)] else []
  }

  function Flag(key: Key, value: bool): seq<Pair> {
    Opt(key, if value then Some("true") else None)
  }

  function LockingPair(locking: Option<Locking>): seq<Pair> {
    Opt(KLocking, if locking.Some? then Some(LockingText(locking.value)) else None)
  }

  function FlagPairs(v: Vault): seq<Pair> {
    Flag(KReadOnly, v.readOnly) + (Flag(KEnforcePermissions, v.enforcePermissions) + LockingPair(v.locking))
  }

  /** The settings of a vault in the order `render` writes them. */
  function Pairs(v: Vault): seq<Pair> {
    Opt(KFile, Some(v.file))
    + (Opt(KMountpoint, Some(v.mountpoint))
    + (Opt(KIdleTimeout, v.idleTimeout)
    + (Opt(KCompactOnIdle, v.compactOnIdle)
    + (Opt(KPasswordFile, v.passwordFile)
    + (Opt(KPasswordCommand, v.passwordCommand)
    + (Opt(KLogFile, v.logFile)
    + FlagPairs(v)))))))
  }

  function Render(v: Vault): seq<string> {
    LinesOf(Pairs(v))
  }

  // --- reading one rendered line back -----------------------------------------------------------

  lemma {:induction false} KeyLengths()
    ensures |KeyText(KFile)| == 4 && |KeyText(KLocking)| == 7 && |KeyText(KLogFile)| == 8
    ensures |KeyText(KReadOnly)| == 9 && |KeyText(KMountpoint)| == 10 && |KeyText(KIdleTimeout)| == 12
    ensures |KeyText(KPasswordFile)| == 13 && |KeyText(KCompactOnIdle)| == 15
    ensures |KeyText(KPasswordCommand)| == 16 && |KeyText(KEnforcePermissions)| == 19
  {
  }

  lemma {:induction false} KeyNamedText(k: Key)
    ensures KeyNamed(KeyText(k)) == Some(k) && KeyText(k) != ""
  {
    KeyLengths();
    hide KeyText;
  }

  predicate KeyChar(c: char) {
    'a' <= c <= 'z' || c == '_'
  }

  lemma {:induction false} KeyChars(k: Key)
    ensures forall i :: 0 <= i < |KeyText(k)| ==> KeyChar(KeyText(k)[i])
  {
  }

  lemma {:induction false} KeyTextOk(k: Key)
    ensures KeyNamed(KeyText(k)) == Some(k)
    ensures KeyText(k) != "" && Trimmed(KeyText(k)) && KeyChar(KeyText(k)[0])
    ensures '=' !in KeyText(k) && '\n' !in KeyText(k)
  {
    KeyNamedText(k);
    KeyChars(k);
    hide KeyText, KeyNamed;
  }

  /** A rendered line is `key = value`, whatever the value. */
  lemma {:induction false} ReadRendered(f: Fields, p: Pair, home: Option<string>)
    ensures ReadLine(f, LineOf(p), home) ==
            if Unquote(p.value) == "" then Failed(NoValue) else SetField(f, p.key, Unquote(p.value), home)
  {
    KeyTextOk(p.key);
    var key, line := KeyText(p.key), LineOf(p);
    hide KeyText, KeyNamed, SetField, Trim;
    assert line[0] == key[0] && TrimStart(line) == line;
    assert line[|key| + 1] == '=' && line[|key|] == ' ';
    assert forall i :: 0 <= i < |key| ==> line[i] == key[i] && key[i] in key;
    assert Find(line, '=') == |key| + 1;
    assert line[..|key| + 1] == key + [' '] && line[|key| + 2..] == [' '] + p.value;
    TrimAppend(key, ' ');
    TrimTrims(key);
    TrimPrepend(p.value, ' ');
  }

  /** The value of a line may end in a carriage return: `trim` takes it away. */
  lemma {:induction false} ReadStripped(f: Fields, line: string, home: Option<string>)
    ensures ReadLine(f, StripCr(line), home) == ReadLine(f, line, home)
  {
    hide IsComment, Trim, Find, KeyNamed, SetField;
    if EndsWith(line, '\r') {
      var cut := StripCr(line);
      assert line == cut + ['\r'];
      CommentStripped(cut);
      FindPrefix(cut, line, '=');
      var i := Find(cut, '=');
      if i < |cut| {
        assert line[i + 1..] == cut[i + 1..] + ['\r'] && line[..i] == cut[..i];
        TrimAppend(cut[i + 1..], '\r');
      }
    }
  }

  lemma {:induction false} CommentStripped(cut: string)
    ensures IsComment(cut + ['\r']) <==> IsComment(cut)
  {
    TrimStartAppend(cut, '\r');
    hide TrimStart;
  }

  lemma {:induction false} FindPrefix(cut: string, line: string, c: char)
    requires line == cut + ['\r'] && c != '\r'
    ensures Find(line, c) == if Find(cut, c) == |cut| then |line| else Find(cut, c)
  {
    var i, j := Find(cut, c), Find(line, c);
    assert forall k :: 0 <= k < |cut| ==> line[k] == cut[k];
    assert line[|cut|] == '\r';
  }

  lemma {:induction false} ReadLinesStripped(f: Fields, lines: seq<string>, home: Option<string>)
    ensures ReadLines(f, StripAll(lines), home) == ReadLines(f, lines, home)
    decreases |lines|
  {
    if lines == [] {
    } else {
      ReadStripped(f, lines[0], home);
      assert StripAll(lines)[1..] == StripAll(lines[1..]);
      hide ReadLine, StripCr;
      match ReadLine(f, lines[0], home) {
        case Ok(g) => ReadLinesStripped(g, lines[1..], home);
        case Failed(_) =>
      }
    }
  }

  lemma {:induction false} ReadConcat(f: Fields, a: seq<string>, b: seq<string>, home: Option<string>)
    ensures ReadLines(f, a + b, home) ==
            match ReadLines(f, a, home) case Failed(e) => Failed(e) case Ok(g) => ReadLines(g, b, home)
    decreases |a|
  {
    hide ReadLine;
    if a == [] {
      assert a + b == b;
    } else {
      assert (a + b)[1..] == a[1..] + b;
      match ReadLine(f, a[0], home) {
        case Ok(g) => ReadConcat(g, a[1..], b, home);
        case Failed(_) =>
      }
    }
  }

  lemma {:induction false} ReadBlank(f: Fields, lines: seq<string>, home: Option<string>)
    ensures ReadLines(f, lines + [""], home) == ReadLines(f, lines, home)
  {
    ReadConcat(f, lines, [""], home);
    assert forall g :: ReadLine(g, "", home) == Ok(g);
  }

  lemma {:induction false} ReadDropAll(f: Fields, lines: seq<string>, home: Option<string>)
    ensures ReadLines(f, DropAll(lines), home) == ReadLines(f, lines, home)
    decreases |lines|
  {
    if lines == [] || lines[|lines| - 1] != "" {
    } else {
      var init := lines[..|lines| - 1];
      assert lines == init + [""];
      hide ReadLines;
      ReadBlank(f, init, home);
      ReadDropAll(f, init, home);
    }
  }

  // --- reading a rendered vault back ----------------------------------------------------------------

  /** What `vault_from` makes of rendered settings, without the text in between. */
  function SetPairs(f: Fields, pairs: seq<Pair>, home: Option<string>): FieldsResult
    decreases |pairs|
  {
    if pairs == [] then Ok(f)
    else if Unquote(pairs[0].value) == "" then Failed(NoValue)
    else
      match SetField(f, pairs[0].key, Unquote(pairs[0].value), home)
      case Failed(e) => Failed(e)
      case Ok(g) => SetPairs(g, pairs[1..], home)
  }

  lemma {:induction false} ReadIsSet(f: Fields, pairs: seq<Pair>, home: Option<string>)
    ensures ReadLines(f, LinesOf(pairs), home) == SetPairs(f, pairs, home)
    decreases |pairs|
  {
    if pairs == [] {
    } else {
      ReadRendered(f, pairs[0], home);
      assert LinesOf(pairs)[1..] == LinesOf(pairs[1..]);
      hide ReadLine, SetField, Unquote, LineOf;
      if Unquote(pairs[0].value) != "" {
        match SetField(f, pairs[0].key, Unquote(pairs[0].value), home) {
          case Ok(g) => ReadIsSet(g, pairs[1..], home);
          case Failed(_) =>
        }
      }
    }
  }

  lemma {:induction false} SetFirst(f: Fields, p: Pair, rest: seq<Pair>, home: Option<string>)
    ensures SetPairs(f, [p] + rest, home) ==
            if Unquote(p.value) == "" then Failed(NoValue)
            else
              match SetField(f, p.key, Unquote(p.value), home)
              case Failed(e) => Failed(e)
              case Ok(g) => SetPairs(g, rest, home)
  {
    hide SetField, Unquote;
    assert ([p] + rest)[1..] == rest;
  }

  /** The words `render` writes itself mean what they should. */
  lemma {:induction false} OwnWords(l: Locking)
    ensures Unquote("true") == "true" && ParseBool("true") == Some(true)
    ensures Unquote(LockingText(l)) == LockingText(l) && ParseLocking(LockingText(l)) == Some(l)
  {
    TrimTrims("true");
    TrimTrims(LockingText(l));
    LowerWords();
  }

  lemma {:induction false} LowerWords()
    ensures Lower("true") == "true"
    ensures forall l :: Lower(LockingText(l)) == LockingText(l)
  {
    assert Lower("auto") == "auto" && Lower("exclusive") == "exclusive" && Lower("normal") == "normal";
  }

  /** The value that is read back: trimmed, and without the quotes around it. */
  function UnquoteOpt(v: Option<string>): Option<string> {
    if v.Some? then Some(Unquote(v.value)) else None
  }

  function PathRead(v: string, home: Option<string>): string {
    ExpandTilde(Unquote(v), home)
  }

  function PathReadOpt(v: Option<string>, home: Option<string>): Option<string> {
    if v.Some? then Some(PathRead(v.value, home)) else None
  }

  predicate HasValue(v: string) {
    Unquote(v) != ""
  }

  predicate HasValueOpt(v: Option<string>) {
    v.Some? ==> HasValue(v.value)
  }

  predicate AllHaveValues(v: Vault) {
    && HasValue(v.file) && HasValue(v.mountpoint) && HasValueOpt(v.idleTimeout) && HasValueOpt(v.compactOnIdle)
    && HasValueOpt(v.passwordFile) && HasValueOpt(v.passwordCommand) && HasValueOpt(v.logFile)
  }

  function ReadBack(v: Vault, home: Option<string>): Vault {
    Vault(v.alias, PathRead(v.file, home), PathRead(v.mountpoint, home), UnquoteOpt(v.idleTimeout),
          UnquoteOpt(v.compactOnIdle), PathReadOpt(v.passwordFile, home), UnquoteOpt(v.passwordCommand),
          PathReadOpt(v.logFile, home), v.readOnly, v.enforcePermissions, v.locking)
  }

  /** The fields after the strings are read, before the three settings that are not free text. */
  function StringFields(v: Vault, home: Option<string>): Fields {
    Fields(Some(PathRead(v.file, home)), Some(PathRead(v.mountpoint, home)), UnquoteOpt(v.idleTimeout),
           UnquoteOpt(v.compactOnIdle), PathReadOpt(v.passwordFile, home), UnquoteOpt(v.passwordCommand),
           PathReadOpt(v.logFile, home), false, false, None)
  }

  lemma {:induction false} SetFlags(v: Vault, f: Fields, home: Option<string>)
    requires f.readOnly == false && f.enforcePermissions == false && f.locking.None?
    ensures SetPairs(f, FlagPairs(v), home) ==
            Ok(f.(readOnly := v.readOnly, enforcePermissions := v.enforcePermissions, locking := v.locking))
  {
    hide SetPairs, Flag, LockingPair;
    var f1 := f.(readOnly := v.readOnly);
    SetFlag(f, KReadOnly, v.readOnly, Flag(KEnforcePermissions, v.enforcePermissions) + LockingPair(v.locking), home);
    SetFlag(f1, KEnforcePermissions, v.enforcePermissions, LockingPair(v.locking), home);
    SetLocking(f1.(enforcePermissions := v.enforcePermissions), v.locking, home);
  }

  lemma {:induction false} SetFlag(f: Fields, key: Key, value: bool, rest: seq<Pair>, home: Option<string>)
    requires key == KReadOnly || key == KEnforcePermissions
    ensures SetPairs(f, Flag(key, value) + rest, home) ==
            SetPairs(if !value then f else if key == KReadOnly then f.(readOnly := true) else f.(enforcePermissions := true),
                     rest, home)
  {
    OwnWords(Auto);
    hide SetPairs, Unquote, ParseBool, ParseLocking, LockingText, Opt;
    SetSome(f, key, if value then Some("true") else None, rest, home);
  }

  lemma {:induction false} SetLocking(f: Fields, locking: Option<Locking>, home: Option<string>)
    ensures SetPairs(f, LockingPair(locking), home) == Ok(if locking.Some? then f.(locking := locking) else f)
  {
    if locking.Some? { OwnWords(locking.value); LockingTextThere(locking.value); }
    SetNothing(if locking.Some? then f.(locking := locking) else f, home);
    assert LockingPair(locking) + [] == LockingPair(locking);
    hide SetPairs, Unquote, ParseBool, ParseLocking, LockingText, Opt;
    SetSome(f, KLocking, if locking.Some? then Some(LockingText(locking.value)) else None, [], home);
  }

  lemma {:induction false} LockingTextThere(l: Locking)
    ensures LockingText(l) != ""
  {
  }

  lemma {:induction false} SetNothing(f: Fields, home: Option<string>)
    ensures SetPairs(f, [], home) == Ok(f)
  {
  }

  /** One setting, there or not, before the rest. */
  lemma {:induction false} SetSome(f: Fields, key: Key, value: Option<string>, rest: seq<Pair>, home: Option<string>)
    ensures SetPairs(f, Opt(key, value) + rest, home) ==
            if value.None? then SetPairs(f, rest, home)
            else if Unquote(value.value) == "" then Failed(NoValue)
            else
              match SetField(f, key, Unquote(value.value), home)
              case Failed(e) => Failed(e)
              case Ok(g) => SetPairs(g, rest, home)
  {
    if value.None? {
      assert Opt(key, value) + rest == rest;
    } else {
      SetFirst(f, Pair(key, value.value), rest, home);
    }
    hide SetPairs, SetField, Unquote;
  }

  /** Reading a rendered vault back fails exactly when a value is empty, and else gives every value unquoted. */
  lemma {:induction false} SetRendered(v: Vault, home: Option<string>)
    ensures SetPairs(EMPTY, Pairs(v), home) ==
            if AllHaveValues(v)
            then Ok(StringFields(v, home).(readOnly := v.readOnly, enforcePermissions := v.enforcePermissions, locking := v.locking))
            else Failed(NoValue)
  {
    var p7 := FlagPairs(v);
    var p6 := Opt(KLogFile, v.logFile) + p7;
    var p5 := Opt(KPasswordCommand, v.passwordCommand) + p6;
    var p4 := Opt(KPasswordFile, v.passwordFile) + p5;
    var p3 := Opt(KCompactOnIdle, v.compactOnIdle) + p4;
    var p2 := Opt(KIdleTimeout, v.idleTimeout) + p3;
    var p1 := Opt(KMountpoint, Some(v.mountpoint)) + p2;
    hide SetPairs, Unquote, ExpandTilde, FlagPairs, Opt;
    SetSome(EMPTY, KFile, Some(v.file), p1, home);
    if !HasValue(v.file) { return; }
    var f := EMPTY.(file := Some(PathRead(v.file, home)));
    SetSome(f, KMountpoint, Some(v.mountpoint), p2, home);
    if !HasValue(v.mountpoint) { return; }
    f := f.(mountpoint := Some(PathRead(v.mountpoint, home)));
    SetSome(f, KIdleTimeout, v.idleTimeout, p3, home);
    if !HasValueOpt(v.idleTimeout) { return; }
    f := f.(idleTimeout := UnquoteOpt(v.idleTimeout));
    SetSome(f, KCompactOnIdle, v.compactOnIdle, p4, home);
    if !HasValueOpt(v.compactOnIdle) { return; }
    f := f.(compactOnIdle := UnquoteOpt(v.compactOnIdle));
    SetSome(f, KPasswordFile, v.passwordFile, p5, home);
    if !HasValueOpt(v.passwordFile) { return; }
    f := f.(passwordFile := PathReadOpt(v.passwordFile, home));
    SetSome(f, KPasswordCommand, v.passwordCommand, p6, home);
    if !HasValueOpt(v.passwordCommand) { return; }
    f := f.(passwordCommand := UnquoteOpt(v.passwordCommand));
    SetSome(f, KLogFile, v.logFile, p7, home);
    if !HasValueOpt(v.logFile) { return; }
    f := f.(logFile := PathReadOpt(v.logFile, home));
    SetFlags(v, f, home);
  }

  lemma {:induction false} RenderedReadsBack(v: Vault, home: Option<string>)
    ensures Finish(v.alias, ReadLines(EMPTY, Render(v), home)) ==
            if AllHaveValues(v) then Good(ReadBack(v, home)) else Bad(NoValue)
  {
    ReadIsSet(EMPTY, Pairs(v), home);
    SetRendered(v, home);
    hide ReadLines, SetPairs, Pairs, AllHaveValues, PathRead, Unquote;
  }

  // --- when a vault survives -----------------------------------------------------------------------

  /** Trimmed, not empty, one line, not wrapped in matching quotes. */
  ghost predicate CleanValue(v: string) {
    v != "" && OneLine(v) && Trimmed(v) && !Quoted(v)
  }

  /** A path besides must not ask for the home directory. */
  ghost predicate CleanPath(v: string, home: Option<string>) {
    CleanValue(v) && !(TildeForm(v) && home.Some?)
  }

  ghost predicate CleanOpt(v: Option<string>) {
    v.Some? ==> CleanValue(v.value)
  }

  ghost predicate CleanPathOpt(v: Option<string>, home: Option<string>) {
    v.Some? ==> CleanPath(v.value, home)
  }

  ghost predicate Storable(v: Vault, home: Option<string>) {
    && CleanPath(v.file, home) && CleanPath(v.mountpoint, home) && CleanOpt(v.idleTimeout) && CleanOpt(v.compactOnIdle)
    && CleanPathOpt(v.passwordFile, home) && CleanOpt(v.passwordCommand) && CleanPathOpt(v.logFile, home)
  }

  ghost predicate OneLineOpt(v: Option<string>) {
    v.Some? ==> OneLine(v.value)
  }

  ghost predicate OneLiners(v: Vault) {
    && OneLine(v.file) && OneLine(v.mountpoint) && OneLineOpt(v.idleTimeout) && OneLineOpt(v.compactOnIdle)
    && OneLineOpt(v.passwordFile) && OneLineOpt(v.passwordCommand) && OneLineOpt(v.logFile)
  }

  /** $HOME, if set, is an absolute path on one line. */
  ghost predicate HomeOk(home: Option<string>) {
    home.Some? ==> StartsWith(home.value, '/') && OneLine(home.value)
  }

  lemma {:induction false} UnquoteSameIff(v: string)
    ensures Unquote(v) == v <==> Trimmed(v) && !Quoted(v)
  {
    TrimTrims(v);
  }

  lemma {:induction false} ValueSameIff(v: string)
    requires OneLine(v)
    ensures HasValue(v) && Unquote(v) == v <==> CleanValue(v)
  {
    UnquoteSameIff(v);
    hide Unquote, Trimmed, Quoted;
  }

  lemma {:induction false} SlashStays(v: string)
    requires StartsWith(v, '/')
    ensures StartsWith(Unquote(v), '/')
  {
    TrimEndTrims(v);
  }

  lemma {:induction false} PathSameIff(v: string, home: Option<string>)
    requires OneLine(v) && HomeOk(home)
    ensures HasValue(v) && PathRead(v, home) == v <==> CleanPath(v, home)
  {
    ValueSameIff(v);
    if StartsWith(v, '/') { SlashStays(v); }
    hide Unquote, CleanValue, SkipSlashes;
  }

  /** In memory, a one-line vault reads back as itself exactly when it is storable. */
  lemma {:induction false} ReadsBackIff(v: Vault, home: Option<string>)
    requires OneLiners(v) && HomeOk(home)
    ensures AllHaveValues(v) && ReadBack(v, home) == v <==> Storable(v, home)
  {
    hide Unquote, CleanValue, CleanPath, PathRead, HasValue, OneLine, HomeOk;
    PathSameIff(v.file, home);
    PathSameIff(v.mountpoint, home);
    ValueOptIff(v.idleTimeout);
    ValueOptIff(v.compactOnIdle);
    PathOptIff(v.passwordFile, home);
    ValueOptIff(v.passwordCommand);
    PathOptIff(v.logFile, home);
    hide UnquoteOpt, PathReadOpt, HasValueOpt, CleanOpt, CleanPathOpt;
  }

  lemma {:induction false} ValueOptIff(v: Option<string>)
    requires OneLineOpt(v)
    ensures HasValueOpt(v) && UnquoteOpt(v) == v <==> CleanOpt(v)
  {
    if v.Some? { ValueSameIff(v.value); }
  }

  lemma {:induction false} PathOptIff(v: Option<string>, home: Option<string>)
    requires OneLineOpt(v) && HomeOk(home)
    ensures HasValueOpt(v) && PathReadOpt(v, home) == v <==> CleanPathOpt(v, home)
  {
    if v.Some? { PathSameIff(v.value, home); }
  }
}
