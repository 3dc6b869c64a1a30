/** The string functions of Rust's standard library that src/config.rs is built on. */
module Text {
  import opened Common

  /** `char::is_whitespace` */
  predicate IsSpace(c: char) {
    var n := c as int;
    || 9 <= n <= 13 || n == 32 || n == 0x85 || n == 0xA0 || n == 0x1680
    || 0x2000 <= n <= 0x200A || n == 0x2028 || n == 0x2029 || n == 0x202F || n == 0x205F || n == 0x3000
  }

  function TrimStart(s: string): string {
    if s != "" && IsSpace(s[0]) then TrimStart(s[1..]) else s
  }

  function TrimEnd(s: string): string {
    if s != "" && IsSpace(s[|s| - 1]) then TrimEnd(s[..|s| - 1]) else s
  }

  function Trim(s: string): string {
    TrimEnd(TrimStart(s))
  }

  predicate StartsWith(s: string, c: char) {
    s != "" && s[0] == c
  }

  predicate EndsWith(s: string, c: char) {
    s != "" && s[|s| - 1] == c
  }

  /** Neither end is white space. */
  predicate Trimmed(s: string) {
    s == "" || (!IsSpace(s[0]) && !IsSpace(s[|s| - 1]))
  }

  /** The place of the first `c`, or the length if there is none. */
  function Find(s: string, c: char): (i: nat)
    ensures i <= |s| && (i < |s| ==> s[i] == c) && forall j :: 0 <= j < i ==> s[j] != c
  {
    if s == "" || s[0] == c then 0 else 1 + Find(s[1..], c)
  }

  function StripCr(s: string): string {
    if EndsWith(s, '\r') then s[..|s| - 1] else s
  }

  /** `str::lines`: a newline ends a line, and so does a carriage return with a newline. */
  function Lines(text: string): seq<string>
    decreases |text|
  {
    if text == "" then []
    else
      var i := Find(text, '\n');
      if i == |text| then [text] else [StripCr(text[..i])] + Lines(text[i + 1..])
  }

  /** Every line with a newline after it. */
  function Join(lines: seq<string>): string {
    if lines == [] then "" else lines[0] + "\n" + Join(lines[1..])
  }

  /** The text without its last newline, as long as it ends in two of them. */
  function PopBlank(text: string): string
    decreases |text|
  {
    if |text| >= 2 && text[|text| - 1] == '\n' && text[|text| - 2] == '\n' then PopBlank(text[..|text| - 1]) else text
  }

  /** The same on lines: trailing empty lines go, as long as a line is left before them. */
  function DropBlank(lines: seq<string>): seq<string> {
    if |lines| >= 2 && lines[|lines| - 1] == "" then DropBlank(lines[..|lines| - 1]) else lines
  }

  ghost predicate OneLine(s: string) {
    '\n' !in s
  }

  ghost predicate AllOneLine(lines: seq<string>) {
    forall i :: 0 <= i < |lines| ==> OneLine(lines[i])
  }

  function StripAll(lines: seq<string>): (r: seq<string>)
    ensures |r| == |lines| && forall i :: 0 <= i < |r| ==> r[i] == StripCr(lines[i])
  {
    seq(|lines|, i requires 0 <= i < |lines| => StripCr(lines[i]))
  }

  // --- trimming ------------------------------------------------------------------

  lemma {:induction false} TrimStartTrims(s: string)
    ensures |TrimStart(s)| <= |s| && TrimStart(s) == s[|s| - |TrimStart(s)|..]
    ensures TrimStart(s) != "" ==> !IsSpace(TrimStart(s)[0])
    ensures forall i :: 0 <= i < |s| - |TrimStart(s)| ==> IsSpace(s[i])
  {
    hide IsSpace;
    if s == "" || !IsSpace(s[0]) {
    } else {
      var rest := s[1..];
      TrimStartTrims(rest);
      var n := |TrimStart(rest)|;
      assert rest[|rest| - n..] == s[|s| - n..];
      assert forall i :: 1 <= i < |s| - n ==> s[i] == rest[i - 1];
    }
  }

  lemma {:induction false} TrimEndTrims(s: string)
    ensures |TrimEnd(s)| <= |s| && TrimEnd(s) == s[..|TrimEnd(s)|]
    ensures TrimEnd(s) != "" ==> !IsSpace(TrimEnd(s)[|TrimEnd(s)| - 1])
    ensures forall i :: |TrimEnd(s)| <= i < |s| ==> IsSpace(s[i])
  {
    hide IsSpace;
    if s == "" || !IsSpace(s[|s| - 1]) {
    } else {
      TrimEndTrims(s[..|s| - 1]);
    }
  }

  lemma {:induction false} TrimTrims(s: string)
    ensures Trimmed(Trim(s)) && |Trim(s)| <= |s|
    ensures Trimmed(s) ==> Trim(s) == s
    ensures |Trim(s)| == |s| ==> Trim(s) == s
    ensures forall c: char :: c in Trim(s) ==> c in s
  {
    hide IsSpace, TrimStart, TrimEnd;
    TrimStartTrims(s);
    TrimEndTrims(TrimStart(s));
    if Trimmed(s) && s != "" { KeptWhole(s, TrimStart(s), Trim(s)); }
    ContainedIn(s, TrimStart(s), Trim(s));
  }

  /** What neither begins nor ends in white space loses nothing. */
  lemma {:induction false} KeptWhole(s: string, rest: string, word: string)
    requires s != "" && !IsSpace(s[0]) && !IsSpace(s[|s| - 1])
    requires |rest| <= |s| && rest == s[|s| - |rest|..] && forall i :: 0 <= i < |s| - |rest| ==> IsSpace(s[i])
    requires |word| <= |rest| && word == rest[..|word|] && forall i :: |word| <= i < |rest| ==> IsSpace(rest[i])
    ensures word == s
  {
    hide IsSpace;
    assert |rest| == |s|;
    assert rest == s;
    assert |word| == |s|;
  }

  lemma {:induction false} ContainedIn(s: string, rest: string, word: string)
    requires |rest| <= |s| && rest == s[|s| - |rest|..] && |word| <= |rest| && word == rest[..|word|]
    ensures forall c: char :: c in word ==> c in s
    ensures |word| == |s| ==> word == s
  {
  }

  lemma {:induction false} TrimEndSpace(s: string, c: char)
    requires IsSpace(c)
    ensures TrimEnd(s + [c]) == TrimEnd(s)
  {
    assert (s + [c])[..|s|] == s;
  }

  lemma {:induction false} TrimStartAppend(s: string, c: char)
    requires IsSpace(c)
    ensures TrimStart(s + [c]) == if TrimStart(s) == "" then "" else TrimStart(s) + [c]
  {
    if s == "" {
      assert s + [c] == [c] && [c][1..] == "";
    } else if IsSpace(s[0]) {
      assert (s + [c])[1..] == s[1..] + [c];
      TrimStartAppend(s[1..], c);
    }
  }

  /** White space at the end, or before, does not matter to `trim`. */
  lemma {:induction false} TrimAppend(s: string, c: char)
    requires IsSpace(c)
    ensures Trim(s + [c]) == Trim(s)
  {
    TrimStartAppend(s, c);
    if TrimStart(s) != "" { TrimEndSpace(TrimStart(s), c); }
  }

  lemma {:induction false} TrimPrepend(s: string, c: char)
    requires IsSpace(c)
    ensures Trim([c] + s) == Trim(s)
  {
    assert ([c] + s)[1..] == s;
  }

  lemma {:induction false} TrimStripCr(s: string)
    ensures Trim(StripCr(s)) == Trim(s)
  {
    if EndsWith(s, '\r') {
      assert s == s[..|s| - 1] + ['\r'];
      TrimAppend(s[..|s| - 1], '\r');
    }
  }

  // --- lines ---------------------------------------------------------------------

  lemma {:induction false} LinesAreOneLine(text: string)
    ensures AllOneLine(Lines(text))
    decreases |text|
  {
    if text == "" {
    } else {
      var i := Find(text, '\n');
      if i < |text| { LinesAreOneLine(text[i + 1..]); }
    }
  }

  lemma {:induction false} FirstLine(first: string, tail: string)
    requires OneLine(first)
    ensures Lines(first + "\n" + tail) == [StripCr(first)] + Lines(tail)
  {
    hide StripCr;
    var text := first + "\n" + tail;
    assert text[|first|] == '\n' && forall i :: 0 <= i < |first| ==> text[i] == first[i] && first[i] in first;
    assert Find(text, '\n') == |first|;
    assert text[..|first|] == first && text[|first| + 1..] == tail;
  }

  lemma {:induction false} StripAllFirst(lines: seq<string>)
    requires lines != []
    ensures StripAll(lines) == [StripCr(lines[0])] + StripAll(lines[1..])
  {
    hide StripCr;
  }

  /** Reading lines back: each comes without the carriage return it may end in. */
  lemma {:induction false} LinesOfJoin(lines: seq<string>)
    requires AllOneLine(lines)
    ensures Lines(Join(lines)) == StripAll(lines)
    decreases |lines|
  {
    hide StripAll, Lines;
    if lines == [] {
      NothingToRead();
    } else {
      assert OneLine(lines[0]) && AllOneLine(lines[1..]);
      FirstLine(lines[0], Join(lines[1..]));
      LinesOfJoin(lines[1..]);
      StripAllFirst(lines);
    }
  }

  lemma {:induction false} NothingToRead()
    ensures Lines("") == [] && StripAll([]) == []
  {
  }

  lemma {:induction false} FindsNone(line: string, c: char)
    ensures Find(line, c) == |line| <==> c !in line
  {
    var i := Find(line, c);
    assert i < |line| ==> line[i] in line;
  }

  lemma {:induction false} OnlyLine(last: string)
    requires OneLine(last) && last != ""
    ensures Lines(last) == [last]
  {
    FindsNone(last, '\n');
    hide Find;
  }

  /** The last line may come without a newline, and then keeps a carriage return. */
  lemma {:induction false} LinesUnfinished(lines: seq<string>, last: string)
    requires AllOneLine(lines) && OneLine(last) && last != ""
    ensures Lines(Join(lines) + last) == StripAll(lines) + [last]
    decreases |lines|
  {
    hide StripAll, Lines, StripCr;
    if lines == [] {
      assert Join(lines) + last == last;
      OnlyLine(last);
      NothingToRead();
    } else {
      assert OneLine(lines[0]) && AllOneLine(lines[1..]);
      assert Join(lines) + last == lines[0] + "\n" + (Join(lines[1..]) + last);
      FirstLine(lines[0], Join(lines[1..]) + last);
      LinesUnfinished(lines[1..], last);
      StripAllFirst(lines);
    }
  }

  lemma {:induction false} JoinAppend(lines: seq<string>, last: string)
    ensures Join(lines + [last]) == Join(lines) + last + "\n"
    decreases |lines|
  {
    if lines == [] {
      assert lines + [last] == [last] && [last][1..] == [];
    } else {
      assert (lines + [last])[1..] == lines[1..] + [last];
      JoinAppend(lines[1..], last);
    }
  }

  lemma {:induction false} JoinEndsInNewline(lines: seq<string>)
    requires lines != []
    ensures Join(lines) != "" && Join(lines)[|Join(lines)| - 1] == '\n'
  {
    assert lines == lines[..|lines| - 1] + [lines[|lines| - 1]];
    JoinAppend(lines[..|lines| - 1], lines[|lines| - 1]);
  }

  lemma {:induction false} PopAfterBlank(text: string)
    requires text != "" && text[|text| - 1] == '\n'
    ensures PopBlank(text + "\n") == PopBlank(text)
  {
    assert (text + "\n")[..|text|] == text;
  }

  lemma {:induction false} PopAfterText(before: string, last: string)
    requires last != "" && OneLine(last)
    ensures PopBlank(before + last + "\n") == before + last + "\n"
  {
    var text := before + last + "\n";
    assert text[|text| - 2] == last[|last| - 1] && last[|last| - 1] in last;
  }

  /** Popping newlines off the text is dropping empty lines. */
  lemma {:induction false} PopBlankOfJoin(lines: seq<string>)
    requires AllOneLine(lines)
    ensures PopBlank(Join(lines)) == Join(DropBlank(lines))
    decreases |lines|
  {
    if lines == [] {
    } else {
      var init, last := lines[..|lines| - 1], lines[|lines| - 1];
      assert lines == init + [last] && OneLine(last) && AllOneLine(init);
      JoinAppend(init, last);
      if last != "" {
        hide PopBlank, Join;
        PopAfterText(Join(init), last);
      } else if init != [] {
        hide PopBlank, Join;
        JoinEndsInNewline(init);
        assert Join(init) + "" + "\n" == Join(init) + "\n";
        PopAfterBlank(Join(init));
        PopBlankOfJoin(init);
      } else {
        assert Join([]) + "" + "\n" == "\n";
      }
    }
  }

  lemma {:induction false} DropBlankTwice(lines: seq<string>)
    ensures DropBlank(DropBlank(lines)) == DropBlank(lines)
    decreases |lines|
  {
    if |lines| < 2 || lines[|lines| - 1] != "" {
    } else {
      DropBlankTwice(lines[..|lines| - 1]);
    }
  }

  // --- lengths ---------------------------------------------------------------------

  lemma {:induction false} DropBlankShorter(lines: seq<string>)
    ensures |Join(DropBlank(lines))| <= |Join(lines)|
    decreases |lines|
  {
    if |lines| < 2 || lines[|lines| - 1] != "" {
    } else {
      var init := lines[..|lines| - 1];
      assert lines == init + [lines[|lines| - 1]];
      JoinAppend(init, lines[|lines| - 1]);
      DropBlankShorter(init);
    }
  }

  /** Taking carriage returns away makes the text shorter, if there are any. */
  lemma {:induction false} StripShorter(lines: seq<string>)
    ensures |Join(StripAll(lines))| <= |Join(lines)|
    ensures (exists i :: 0 <= i < |lines| && EndsWith(lines[i], '\r')) ==> |Join(StripAll(lines))| < |Join(lines)|
    decreases |lines|
  {
    if lines == [] {
    } else {
      StripShorter(lines[1..]);
      assert StripAll(lines)[1..] == StripAll(lines[1..]);
      if i :| 0 <= i < |lines| && EndsWith(lines[i], '\r') {
        assert i > 0 ==> EndsWith(lines[1..][i - 1], '\r');
      }
    }
  }
}
