/** The decoder for mountpoints in /proc/self/mountinfo (src/main.rs), on bytes; its sums are those of a u8. */
module Mountinfo {
  import opened Common

  predicate Octal(b: Byte) {
    48 <= b <= 55
  }

  predicate EscapeAt(field: Bytes, i: nat) {
    i + 3 < |field| && field[i] == 92 && Octal(field[i + 1]) && Octal(field[i + 2]) && Octal(field[i + 3])
  }

  /** The value of three octal digits, in 8 bits. */
  function Code(a: Byte, b: Byte, c: Byte): Byte {
    (a - 48) * 64 + (b - 48) * 8 + (c - 48)
  }

  function Unescape(field: Bytes): Bytes
    decreases |field|
  {
    if field == [] then []
    else if EscapeAt(field, 0) then [Code(field[1], field[2], field[3])] + Unescape(field[4..])
    else [field[0]] + Unescape(field[1..])
  }

  method UnescapeMountinfo(field: Bytes) returns (out: Bytes)
    ensures out == Unescape(field)
  {
    hide Code;
    var i := 0;
    out := [];
    while i < |field|
      invariant i <= |field|
      invariant out + Unescape(field[i..]) == Unescape(field)
    {
      if EscapeAt(field, i) {
        assert field[i..][4..] == field[i + 4..];
        out := out + [Code(field[i + 1], field[i + 2], field[i + 3])];
        i := i + 4;
      } else {
        assert field[i..][1..] == field[i + 1..];
        out := out + [field[i]];
        i := i + 1;
      }
    }
  }

  /** Without an escape, partial ones included, a field is its own meaning. */
  lemma {:induction false} UnescapePlain(field: Bytes)
    requires forall i: nat :: i < |field| ==> !EscapeAt(field, i)
    ensures Unescape(field) == field
  {
    if field == [] {
    } else {
      forall i: nat | i < |field[1..]| ensures !EscapeAt(field[1..], i) {
        assert !EscapeAt(field, i + 1);
      }
      assert !EscapeAt(field, 0);
      UnescapePlain(field[1..]);
      assert field == [field[0]] + field[1..];
    }
  }

  /** Any three octal digits up to 377 stand for the byte of that value. */
  lemma {:induction false} UnescapeCode(a: Byte, b: Byte, c: Byte, rest: Bytes)
    requires 48 <= a <= 51 && 48 <= b <= 55 && 48 <= c <= 55
    ensures var r := Unescape([92, a, b, c] + rest);
            && r != [] && r[1..] == Unescape(rest)
            && r[0] as bv16 == (a as bv16 - 48) * 64 + (b as bv16 - 48) * 8 + (c as bv16 - 48)
  {
    var field: Bytes := [92, a, b, c] + rest;
    assert EscapeAt(field, 0) && field[4..] == rest;
    CodeFitsIff(a, b, c);
    hide Code, Sum;
    assert Unescape(field) == [Code(a, b, c)] + Unescape(rest);
    SumIs(a, b, c);
  }

  lemma {:induction false} SumIs(a: Byte, b: Byte, c: Byte)
    ensures Sum(a, b, c) == (a as bv16 - 48) * 64 + (b as bv16 - 48) * 8 + (c as bv16 - 48)
  {
  }

  /** How the kernel writes a path: space, tab, newline and backslash as three octal digits (proc(5)). */
  function EscapeByte(b: Byte): Bytes {
    match b
    case 32 => [92, 48, 52, 48]
    case 9 => [92, 48, 49, 49]
    case 10 => [92, 48, 49, 50]
    case 92 => [92, 49, 51, 52]
    case _ => [b]
  }

  function Escape(path: Bytes): Bytes {
    if path == [] then [] else EscapeByte(path[0]) + Escape(path[1..])
  }

  lemma {:induction false} UnescapeByte(b: Byte, rest: Bytes)
    ensures Unescape(EscapeByte(b) + rest) == [b] + Unescape(rest)
  {
    var field := EscapeByte(b) + rest;
    if b == 32 || b == 9 || b == 10 || b == 92 {
      assert EscapeAt(field, 0);
      assert field[4..] == rest;
    } else {
      assert field[0] == b;
      assert field[1..] == rest;
    }
  }

  /** Decoding gives back every path the kernel encoded. */
  lemma {:induction false} UnescapeUndoesEscape(path: Bytes)
    ensures Unescape(Escape(path)) == path
  {
    if path == [] {
    } else {
      UnescapeByte(path[0], Escape(path[1..]));
      UnescapeUndoesEscape(path[1..]);
      assert path == [path[0]] + path[1..];
    }
  }

  /** The sum that three octal digits stand for. */
  function Sum(a: Byte, b: Byte, c: Byte): bv16 {
    (a as bv16 - 48) * 64 + (b as bv16 - 48) * 8 + (c as bv16 - 48)
  }

  /** It stays within 8 bits exactly when the first digit is 3 or less. */
  lemma {:induction false} CodeFitsIff(a: Byte, b: Byte, c: Byte)
    requires Octal(a) && Octal(b) && Octal(c)
    ensures Sum(a, b, c) == Code(a, b, c) as bv16 <==> a <= 51
  {
  }

  /** An escape in what is written for a byte and a rest begins the former or lies in the latter. */
  lemma {:induction false} EscapedAfter(b: Byte, rest: Bytes, i: nat)
    requires EscapeAt(EscapeByte(b) + rest, i)
    ensures var first := EscapeByte(b);
            if i < |first| then (first + rest)[i + 1] <= 49
            else EscapeAt(rest, i - |first|) && (first + rest)[i + 1] == rest[i - |first| + 1]
  {
  }

  /** In what the kernel writes a backslash is never a byte of the path: 0 or 1 comes after it. */
  lemma {:induction false} EscapeStartsLow(path: Bytes, i: nat)
    requires EscapeAt(Escape(path), i)
    ensures Escape(path)[i + 1] <= 49
  {
    if path == [] {
    } else {
      var first, rest := EscapeByte(path[0]), Escape(path[1..]);
      EscapedAfter(path[0], rest, i);
      hide Escape, EscapeByte, EscapeAt;
      if i >= |first| {
        EscapeStartsLow(path[1..], i - |first|);
      }
    }
  }

  /** Decoding what the kernel wrote never leaves 8 bits, wherever an escape is met. */
  lemma {:induction false} EscapedNeverWraps(path: Bytes, i: nat)
    requires EscapeAt(Escape(path), i)
    ensures var f := Escape(path); Sum(f[i + 1], f[i + 2], f[i + 3]) == Code(f[i + 1], f[i + 2], f[i + 3]) as bv16
  {
    EscapeStartsLow(path, i);
    var f := Escape(path);
    assert f[i + 1] <= 51;
    hide Escape, Sum, Code;
    CodeFitsIff(f[i + 1], f[i + 2], f[i + 3]);
  }
}
