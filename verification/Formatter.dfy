/** The bounded formatter of src/print.c:56-165 against an unbounded rendering. */
module Formatter {
  import opened Bytes

  type char16 = x: int | 0 <= x < 0x1_0000

  const PERCENT: char16 := '%' as int

  /** What a caller passes for %s, for %x or %hx, and for %lx; a text ends at its first NUL. */
  datatype Arg = Text(units: seq<char16>) | Word32(low: u64) | Word64(value: u64)

  datatype Directive = Literal(unit: char16) | TextField | HexField(digit: nat)

  predicate IsText(c: char16) { c == 's' as int || c == 'S' as int }
  predicate IsHex(c: char16) { c == 'x' as int || c == 'X' as int }
  predicate IsLong(c: char16) { c == 'l' as int || c == 'L' as int }
  predicate IsShort(c: char16) { c == 'h' as int || c == 'H' as int }

  predicate Terminated(s: seq<char16>) { 0 in s }

  /** The directives of a format, up to its NUL. The last size modifier of a field counts. */
  function Parse(fmt: seq<char16>): seq<Directive>
    requires Terminated(fmt)
    decreases |fmt|
  {
    if fmt[0] == 0 then []
    else if fmt[0] == PERCENT then ParseField(fmt[1..], 7)
    else [Literal(fmt[0])] + Parse(fmt[1..])
  }

  function ParseField(fmt: seq<char16>, digit: nat): seq<Directive>
    requires Terminated(fmt)
    decreases |fmt|
  {
    if fmt[0] == 0 then []
    else if IsText(fmt[0]) then [TextField] + Parse(fmt[1..])
    else if IsLong(fmt[0]) then ParseField(fmt[1..], 15)
    else if IsShort(fmt[0]) then ParseField(fmt[1..], 1)
    else if IsHex(fmt[0]) then [HexField(digit)] + Parse(fmt[1..])
    else [Literal(fmt[0])] + Parse(fmt[1..])
  }

  /** The first argument is there and is what a text field, or a hex field of this width, reads. */
  predicate TextFits(args: seq<Arg>) { args != [] && args[0].Text? && Terminated(args[0].units) }

  predicate HexFits(digit: nat, args: seq<Arg>)
  {
    args != [] && if digit == 15 then args[0].Word64? else args[0].Word32? && args[0].low < 0x1_0000_0000
  }

  function Less(room: nat, used: nat): nat { if used <= room then room - used else 0 }

  /** As long as there is room, every field finds an argument of its kind; later ones are never read. */
  predicate Matching(ds: seq<Directive>, args: seq<Arg>, room: nat)
  {
    ds == [] || room == 0 ||
    match ds[0]
    case Literal(_) => Matching(ds[1..], args, room - 1)
    case TextField => TextFits(args) && Matching(ds[1..], args[1..], Less(room, |CString(args[0].units)|))
    case HexField(d) => HexFits(d, args) && Matching(ds[1..], args[1..], Less(room, d + 1))
  }

  function CString(s: seq<char16>): seq<char16>
    requires Terminated(s)
  {
    if s[0] == 0 then [] else [s[0]] + CString(s[1..])
  }

  function Pow16(n: nat): (p: nat)
    ensures p > 0
  {
    if n == 0 then 1 else 16 * Pow16(n - 1)
  }

  function HexChar(d: nat): char16
    requires d < 16
  {
    if d < 10 then '0' as int + d else 'A' as int + (d - 10)
  }

  /** `(value >> (digit * 4)) & 0xf` */
  function Nibble(v: nat, digit: nat): (d: nat)
    ensures d < 16
  {
    v / Pow16(digit) % 16
  }

  /** Digits `digit` down to 0 of a value. */
  function HexDigits(v: nat, digit: nat): (s: seq<char16>)
    ensures |s| == digit + 1
  {
    [HexChar(Nibble(v, digit))] + if digit == 0 then [] else HexDigits(v, digit - 1)
  }

  /** What a field shows of the next argument; one that does not fit it shows nothing. */
  function FieldText(d: Directive, args: seq<Arg>): seq<char16>
  {
    match d
    case Literal(c) => [c]
    case TextField => if TextFits(args) then CString(args[0].units) else []
    case HexField(digit) =>
      if HexFits(digit, args) then HexDigits(if digit == 15 then args[0].value else args[0].low, digit) else []
  }

  function After(d: Directive, args: seq<Arg>): seq<Arg>
  {
    if d.Literal? || args == [] then args else args[1..]
  }

  /** The text a format stands for, without any bound. */
  function Render(ds: seq<Directive>, args: seq<Arg>): seq<char16>
  {
    if ds == [] then [] else FieldText(ds[0], args) + Render(ds[1..], After(ds[0], args))
  }

  // ----- reading digits back -----

  function HexValue(c: char16): nat
  {
    if '0' as int <= c <= '9' as int then c - '0' as int
    else if 'A' as int <= c <= 'F' as int then c - 'A' as int + 10
    else 0
  }

  function ParseHex(s: seq<char16>): nat
  {
    if s == [] then 0 else HexValue(s[0]) * Pow16(|s| - 1) + ParseHex(s[1..])
  }

  lemma ModStep(v: nat, p: nat)
    requires p > 0
    ensures v % (16 * p) == v / p % 16 * p + v % p
  {
    var q, r := v / p, v % p;
    var a, b := q / 16, q % 16;
    Distribute(a, b, p);
    assert v == q * p + r;
    DivUnique(v, 16 * p, a, b * p + r);
  }

  lemma Distribute(a: nat, b: nat, p: nat)
    requires b < 16
    ensures (16 * a + b) * p == a * (16 * p) + b * p
    ensures 0 <= b * p <= 15 * p
  {
  }

  lemma DivUnique(v: nat, n: nat, q: nat, r: nat)
    requires n > 0 && r < n && v == q * n + r
    ensures v % n == r
  {
    var k := v / n - q;
    assert k * n == (v / n) * n - q * n == r - v % n;
    SmallMultiple(k, n);
  }

  lemma SmallMultiple(k: int, n: int)
    requires n > 0 && -n < k * n < n
    ensures k == 0
  {
  }

  /** A hex field parses back to the argument modulo its width. */
  lemma {:induction false} HexParsesBack(v: nat, digit: nat)
    ensures ParseHex(HexDigits(v, digit)) == v % Pow16(digit + 1)
  {
    var d, p := Nibble(v, digit), Pow16(digit);
    assert HexValue(HexChar(d)) == d;
    assert HexDigits(v, digit)[1..] == if digit == 0 then [] else HexDigits(v, digit - 1);
    if digit == 0 {
      assert ParseHex([]) == 0;
    } else {
      HexParsesBack(v, digit - 1);
    }
    ModStep(v, p);
    assert v % 1 == 0;
  }

  // ----- the letters -----

  lemma {:induction false} TextUpToNul(text: seq<char16>, junk: seq<char16>)
    requires 0 !in text
    ensures CString(text + [0] + junk) == text
  {
    if text == [] {
    } else {
      assert (text + [0] + junk)[1..] == text[1..] + [0] + junk;
      TextUpToNul(text[1..], junk);
    }
  }

  /** `%s` shows a text up to its NUL. */
  lemma TextShown(letter: char16, text: seq<char16>, junk: seq<char16>, rest: seq<char16>, args: seq<Arg>)
    requires letter in {'s' as int, 'S' as int} && 0 !in text && Terminated(rest)
    ensures Render(Parse(['%' as int, letter] + rest), [Text(text + [0] + junk)] + args) ==
            text + Render(Parse(rest), args)
  {
    hide CString;
    var fmt: seq<char16> := ['%' as int, letter] + rest;
    assert fmt[1..] == [letter] + rest && fmt[1..][1..] == rest;
    assert Parse(fmt) == [TextField] + Parse(rest);
    TextUpToNul(text, junk);
  }

  lemma ParseLetter(letter: char16, digit: nat, rest: seq<char16>)
    requires letter in {'x' as int, 'X' as int} && Terminated(rest)
    ensures ParseField([letter] + rest, digit) == [HexField(digit)] + Parse(rest)
  {
    assert ([letter] + rest)[1..] == rest;
  }

  lemma ParseWord(letter: char16, rest: seq<char16>)
    requires letter in {'x' as int, 'X' as int} && Terminated(rest)
    ensures Parse(['%' as int, letter] + rest) == [HexField(7)] + Parse(rest)
  {
    hide ParseField;
    var fmt: seq<char16> := ['%' as int, letter] + rest;
    assert fmt[1..] == [letter] + rest;
    ParseLetter(letter, 7, rest);
  }

  /** `%x` shows eight hexadecimal digits of a 32-bit argument. */
  lemma WordShown(letter: char16, value: u64, rest: seq<char16>, args: seq<Arg>) returns (shown: seq<char16>)
    requires letter in {'x' as int, 'X' as int} && value < 0x1_0000_0000 && Terminated(rest)
    ensures Render(Parse(['%' as int, letter] + rest), [Word32(value)] + args) == shown + Render(Parse(rest), args)
    ensures |shown| == 8 && ParseHex(shown) == value
  {
    hide Parse, Render, HexDigits, ParseHex;
    ParseWord(letter, rest);
    shown := ShownHex(value, 7, Parse(rest), [Word32(value)] + args);
    assert ([Word32(value)] + args)[1..] == args;
  }

  lemma ParseSize(size: char16, letter: char16, rest: seq<char16>)
    requires letter in {'x' as int, 'X' as int} && Terminated(rest)
    requires size in {'h' as int, 'H' as int, 'l' as int, 'L' as int}
    ensures ParseField([size, letter] + rest, 7) ==
            ParseField([letter] + rest, if size in {'l' as int, 'L' as int} then 15 else 1)
  {
    hide Parse;
    assert ([size, letter] + rest)[1..] == [letter] + rest;
  }

  lemma ParseSized(size: char16, letter: char16, rest: seq<char16>)
    requires letter in {'x' as int, 'X' as int} && Terminated(rest)
    requires size in {'h' as int, 'H' as int, 'l' as int, 'L' as int}
    ensures Parse(['%' as int, size, letter] + rest) ==
            [HexField(if size in {'l' as int, 'L' as int} then 15 else 1)] + Parse(rest)
  {
    hide ParseField;
    var fmt: seq<char16> := ['%' as int, size, letter] + rest;
    assert fmt[1..] == [size, letter] + rest;
    ParseSize(size, letter, rest);
    ParseLetter(letter, if size in {'l' as int, 'L' as int} then 15 else 1, rest);
  }

  /** `%hx` shows its low two, and `%lx` sixteen of a 64-bit argument. */
  lemma SizedShown(size: char16, letter: char16, value: u64, rest: seq<char16>, args: seq<Arg>)
    returns (shown: seq<char16>)
    requires letter in {'x' as int, 'X' as int} && Terminated(rest)
    requires size in {'h' as int, 'H' as int, 'l' as int, 'L' as int}
    requires size in {'h' as int, 'H' as int} ==> value < 0x1_0000_0000
    ensures var long := size in {'l' as int, 'L' as int};
            && Render(Parse(['%' as int, size, letter] + rest), [if long then Word64(value) else Word32(value)] + args)
               == shown + Render(Parse(rest), args)
            && |shown| == (if long then 16 else 2)
            && ParseHex(shown) == if long then value else value % 0x100
  {
    hide Parse, Render, HexDigits, ParseHex;
    var long := size in {'l' as int, 'L' as int};
    ParseSized(size, letter, rest);
    var arg := if long then Word64(value) else Word32(value);
    shown := ShownHex(value, if long then 15 else 1, Parse(rest), [arg] + args);
    assert ([arg] + args)[1..] == args;
  }

  lemma ShownHex(value: u64, digit: nat, ds: seq<Directive>, args: seq<Arg>) returns (shown: seq<char16>)
    requires digit in {1, 7, 15} && HexFits(digit, args)
    requires value == if digit == 15 then args[0].value else args[0].low
    ensures Render([HexField(digit)] + ds, args) == shown + Render(ds, args[1..])
    ensures |shown| == digit + 1
    ensures ParseHex(shown) == value % (if digit == 1 then 0x100 else if digit == 7 then 0x1_0000_0000
                                       else 0x1_0000_0000_0000_0000)
  {
    hide HexDigits, ParseHex;
    shown := HexDigits(value, digit);
    assert ([HexField(digit)] + ds)[1..] == ds;
    HexParsesBack(value, digit);
    assert Pow16(2) == 0x100 && Pow16(4) == 0x1_0000 && Pow16(8) == 0x1_0000 * Pow16(4)
           && Pow16(16) == 0x1_0000 * (0x1_0000 * Pow16(8));
  }

  /** Any other unit stands for itself, also after a percent sign. */
  lemma OthersShown(c: char16, rest: seq<char16>, args: seq<Arg>)
    requires c != 0 && Terminated(rest)
    ensures c != '%' as int ==> Render(Parse([c] + rest), args) == [c] + Render(Parse(rest), args)
    ensures c !in {'s' as int, 'S' as int, 'l' as int, 'L' as int, 'h' as int, 'H' as int, 'x' as int, 'X' as int} ==>
              Render(Parse(['%' as int, c] + rest), args) == [c] + Render(Parse(rest), args)
  {
    var plain: seq<char16>, field: seq<char16> := [c] + rest, ['%' as int, c] + rest;
    assert plain[1..] == rest && field[1..] == [c] + rest && field[1..][1..] == rest;
    if c != '%' as int {
      assert Parse(plain) == [Literal(c)] + Parse(rest);
    }
    if !IsText(c) && !IsHex(c) && !IsLong(c) && !IsShort(c) {
      assert Parse(field) == [Literal(c)] + Parse(rest);
    }
  }

  // ----- the bounded form -----

  function Min(a: nat, b: nat): nat { if a <= b then a else b }

  /** What a call leaves in its buffer: as much of the text as fits before a NUL, and the rest untouched. */
  ghost predicate Holds(out: seq<char16>, before: seq<char16>, length: nat, text: seq<char16>)
    requires 0 < length <= |out| == |before|
  {
    var n := Min(length - 1, |text|);
    out[..n] == text[..n] && out[n] == 0 && out[n + 1..] == before[n + 1..]
  }

  /** So far `out[..at]` is the beginning of the text, and nothing after it has changed. */
  ghost predicate Written(out: seq<char16>, before: seq<char16>, at: nat, text: seq<char16>)
    requires at <= |out| == |before| && at <= |text|
  {
    out[..at] == text[..at] && out[at..] == before[at..]
  }

  /** src/print.c:87-95 */
  method PutText(out: array<char16>, from: nat, limit: nat, units: seq<char16>,
                 ghost before: seq<char16>, ghost text: seq<char16>, ghost rest: seq<char16>)
    returns (at: nat)
    requires from <= limit <= out.Length == |before| && Terminated(units)
    requires from <= |text| && Written(out[..], before, from, text) && text[from..] == CString(units) + rest
    modifies out
    ensures at <= limit && at <= |text| && Written(out[..], before, at, text)
    ensures at == limit || (text[at..] == rest && at == from + |CString(units)|)
  {
    hide Written;
    at := from;
    var i := 0;
    while units[i] != 0 && at < limit
      decreases limit - at
      invariant i < |units| && at <= limit && at <= |text| && Terminated(units[i..])
      invariant Written(out[..], before, at, text)
      invariant text[at..] == CString(units[i..]) + rest
    {
      assert units[i..][0] == units[i] && units[i..][1..] == units[i + 1..];
      Append(out[..], before, at, text, units[i], CString(units[i + 1..]) + rest);
      out[at] := units[i];
      at := at + 1;
      i := i + 1;
    }
  }

  lemma Append(out: seq<char16>, before: seq<char16>, at: nat, text: seq<char16>, c: char16, rest: seq<char16>)
    requires at < |out| == |before| && at <= |text|
    requires Written(out, before, at, text) && text[at..] == [c] + rest
    ensures at < |text| && Written(out[at := c], before, at + 1, text) && text[at + 1..] == rest
  {
    assert |text[at..]| == 1 + |rest|;
    assert text[at] == text[at..][0] == c;
    assert text[at + 1..] == text[at..][1..];
    assert out[at := c][..at + 1] == out[..at] + [c] && text[..at + 1] == text[..at] + [c];
    assert out[at := c][at + 1..] == out[at..][1..] && before[at + 1..] == before[at..][1..];
  }

  lemma HexUnfolds(v: nat, digit: nat, rest: seq<char16>)
    ensures HexDigits(v, digit) + rest ==
            [HexChar(Nibble(v, digit))] + ((if digit == 0 then [] else HexDigits(v, digit - 1)) + rest)
  {
  }

  /** src/print.c:130-147 */
  method PutHex(out: array<char16>, from: nat, limit: nat, value: nat, digits: nat,
                ghost before: seq<char16>, ghost text: seq<char16>, ghost rest: seq<char16>)
    returns (at: nat)
    requires from < limit <= out.Length == |before|
    requires from <= |text| && Written(out[..], before, from, text) && text[from..] == HexDigits(value, digits) + rest
    modifies out
    ensures at <= limit && at <= |text| && Written(out[..], before, at, text)
    ensures at == limit || (text[at..] == rest && at == from + digits + 1)
  {
    hide Written, HexDigits, HexChar, Nibble;
    at := from;
    var digit := digits;
    while at < limit
      invariant at <= limit && at <= |text| && 0 <= digit <= digits
      invariant Written(out[..], before, at, text)
      invariant text[at..] == HexDigits(value, digit) + rest
      decreases limit - at
    {
      var c := HexChar(Nibble(value, digit));
      ghost var more := if digit == 0 then [] else HexDigits(value, digit - 1);
      HexUnfolds(value, digit, rest);
      Append(out[..], before, at, text, c, more + rest);
      out[at] := c;
      at := at + 1;
      if digit == 0 {
        assert [] + rest == rest;
        break;
      }
      digit := digit - 1;
    }
  }

  /** What is left to write is what the rest of the format and of the arguments stand for. */
  ghost predicate Pending(fmt: seq<char16>, args: seq<Arg>, todo: seq<char16>, room: nat)
  {
    Terminated(fmt) && Matching(Parse(fmt), args, room) && todo == Render(Parse(fmt), args)
  }

  ghost predicate PendingField(fmt: seq<char16>, digit: nat, args: seq<Arg>, todo: seq<char16>, room: nat)
  {
    && Terminated(fmt) && Matching(ParseField(fmt, digit), args, room)
    && todo == Render(ParseField(fmt, digit), args)
  }

  /** One directive consumed. */
  lemma NextUnit(fmt: seq<char16>, args: seq<Arg>, todo: seq<char16>, room: nat)
    requires Pending(fmt, args, todo, room) && room > 0
    ensures fmt[0] == 0 ==> todo == []
    ensures fmt[0] == PERCENT ==> Terminated(fmt[1..]) && PendingField(fmt[1..], 7, args, todo, room)
    ensures fmt[0] != 0 && fmt[0] != PERCENT ==>
              todo != [] && todo == [fmt[0]] + todo[1..] && Pending(fmt[1..], args, todo[1..], room - 1)
  {
    if fmt[0] != 0 && fmt[0] != PERCENT {
      assert Parse(fmt)[1..] == Parse(fmt[1..]);
      assert todo[1..] == Render(Parse(fmt[1..]), args);
    }
  }

  /** One step inside a field. */
  lemma NextInField(fmt: seq<char16>, digit: nat, args: seq<Arg>, todo: seq<char16>, room: nat)
    requires PendingField(fmt, digit, args, todo, room) && room > 0
    ensures fmt[0] == 0 ==> todo == []
    ensures IsLong(fmt[0]) ==> PendingField(fmt[1..], 15, args, todo, room)
    ensures IsShort(fmt[0]) ==> PendingField(fmt[1..], 1, args, todo, room)
    ensures IsText(fmt[0]) ==>
              && Terminated(fmt[1..]) && TextFits(args)
              && Matching(Parse(fmt[1..]), args[1..], Less(room, |CString(args[0].units)|))
              && todo == CString(args[0].units) + Render(Parse(fmt[1..]), args[1..])
    ensures IsHex(fmt[0]) ==>
              && Terminated(fmt[1..]) && HexFits(digit, args)
              && Matching(Parse(fmt[1..]), args[1..], Less(room, digit + 1))
              && todo == HexDigits(if digit == 15 then args[0].value else args[0].low, digit)
                         + Render(Parse(fmt[1..]), args[1..])
    ensures fmt[0] != 0 && !IsLong(fmt[0]) && !IsShort(fmt[0]) && !IsText(fmt[0]) && !IsHex(fmt[0]) ==>
              todo != [] && todo == [fmt[0]] + todo[1..] && Pending(fmt[1..], args, todo[1..], room - 1)
  {
    hide CString, HexDigits;
    if fmt[0] != 0 && !IsLong(fmt[0]) && !IsShort(fmt[0]) {
      assert ParseField(fmt, digit)[1..] == Parse(fmt[1..]);
      if !IsText(fmt[0]) && !IsHex(fmt[0]) {
        assert todo[1..] == Render(Parse(fmt[1..]), args);
      }
    }
  }

  lemma TextEnds(out: seq<char16>, before: seq<char16>, at: nat, length: nat, text: seq<char16>)
    requires 0 < length <= |out| == |before| && at < length && at <= |text|
    requires Written(out, before, at, text) && (at == length - 1 || at == |text|)
    ensures Holds(out[at := 0], before, length, text)
  {
    assert out[at := 0][..at] == out[..at];
    assert out[at := 0][at + 1..] == out[at..][1..] && before[at + 1..] == before[at..][1..];
  }

  lemma NothingWritten(before: seq<char16>, text: seq<char16>)
    ensures Written(before, before, 0, text)
  {
  }

  /** src/print.c:98-107: each modifier sets the first digit and goes back to the switch. */
  method SkipModifiers(fmt: seq<char16>, start: nat, ghost args: seq<Arg>, ghost todo: seq<char16>, ghost room: nat)
    returns (fmtI: nat, digitIndex: nat)
    requires start < |fmt| && PendingField(fmt[start..], 7, args, todo, room) && room > 0
    ensures start <= fmtI < |fmt| && !IsLong(fmt[fmtI]) && !IsShort(fmt[fmtI])
    ensures digitIndex in {1, 7, 15} && PendingField(fmt[fmtI..], digitIndex, args, todo, room)
  {
    hide Parse, ParseField, Render, Matching;
    fmtI, digitIndex := start, 7;
    while IsLong(fmt[fmtI]) || IsShort(fmt[fmtI])
      invariant start <= fmtI < |fmt| && digitIndex in {1, 7, 15}
      invariant PendingField(fmt[fmtI..], digitIndex, args, todo, room)
      decreases |fmt| - fmtI
    {
      NextInField(fmt[fmtI..], digitIndex, args, todo, room);
      assert fmt[fmtI..][1..] == fmt[fmtI + 1..];
      digitIndex := if IsLong(fmt[fmtI]) then 15 else 1;
      fmtI := fmtI + 1;
    }
  }

  /** The field's own character, src/print.c:84-97 and 108-149. */
  method PutArgument(out: array<char16>, limit: nat, fmt: seq<char16>, digitIndex: nat, args: seq<Arg>, from: nat,
                     ghost before: seq<char16>, ghost text: seq<char16>)
    returns (at: nat)
    requires from < limit <= out.Length == |before| && from <= |text|
    requires Written(out[..], before, from, text)
    requires PendingField(fmt, digitIndex, args, text[from..], limit - from) && (IsText(fmt[0]) || IsHex(fmt[0]))
    modifies out
    ensures at <= limit && at <= |text| && Written(out[..], before, at, text)
    ensures args != [] && Terminated(fmt[1..])
    ensures at == limit || Pending(fmt[1..], args[1..], text[at..], limit - at)
  {
    hide Parse, ParseField, Render, Matching, CString, HexDigits, Written;
    NextInField(fmt, digitIndex, args, text[from..], limit - from);
    ghost var rest := Render(Parse(fmt[1..]), args[1..]);
    if IsText(fmt[0]) {
      at := PutText(out, from, limit, args[0].units, before, text, rest);
    } else {
      var value := if digitIndex == 15 then args[0].value else args[0].low;
      at := PutHex(out, from, limit, value, digitIndex, before, text, rest);
    }
  }

  /** The field after a percent sign, src/print.c:75-156. */
  method PutField(out: array<char16>, limit: nat, fmt: seq<char16>, start: nat, args: seq<Arg>, argStart: nat,
                  from: nat, ghost before: seq<char16>, ghost text: seq<char16>)
    returns (fmtI: nat, at: nat, argI: nat, ended: bool)
    requires from < limit <= out.Length == |before| && from <= |text| && start < |fmt| && argStart <= |args|
    requires Written(out[..], before, from, text)
    requires PendingField(fmt[start..], 7, args[argStart..], text[from..], limit - from)
    modifies out
    ensures at <= limit && at <= |text| && Written(out[..], before, at, text)
    ensures ended ==> at == |text|
    ensures !ended ==>
              && start < fmtI < |fmt| && argI <= |args| && Terminated(fmt[fmtI..])
              && (at == limit || Pending(fmt[fmtI..], args[argI..], text[at..], limit - at))
  {
    hide Parse, ParseField, Render, Matching, CString, HexDigits, Written, Terminated, IsText, IsHex, IsLong, IsShort;
    at, argI, ended := from, argStart, false;
    var digitIndex;
    fmtI, digitIndex := SkipModifiers(fmt, start, args[argStart..], text[from..], limit - from);
    NextInField(fmt[fmtI..], digitIndex, args[argI..], text[at..], limit - from);
    assert fmt[fmtI..][1..] == fmt[fmtI + 1..];
    if fmt[fmtI] == 0 {
      ended := true;
      return;
    }
    if IsText(fmt[fmtI]) || IsHex(fmt[fmtI]) {
      at := PutArgument(out, limit, fmt[fmtI..], digitIndex, args[argI..], from, before, text);
      assert args[argI..][1..] == args[argI + 1..];
      argI := argI + 1;
    } else {
      Append(out[..], before, at, text, fmt[fmtI], text[at..][1..]);
      out[at] := fmt[fmtI];
      at := at + 1;
    }
    fmtI := fmtI + 1;
    HasMore(fmt[fmtI..]);
  }

  lemma HasMore(fmt: seq<char16>)
    requires Terminated(fmt)
    ensures |fmt| > 0
  {
  }

  /**
    src/print.c:56-165: the first units of the unbounded text that leave room for a NUL, the NUL,
    and nothing after it.
  */
  method Vsnprintf(out: array<char16>, outLength: nat, fmt: seq<char16>, args: seq<Arg>)
    requires outLength <= out.Length && Terminated(fmt)
    requires outLength > 0 ==> Matching(Parse(fmt), args, outLength - 1)
    modifies out
    ensures outLength == 0 ==> out[..] == old(out[..])
    ensures outLength > 0 ==> Holds(out[..], old(out[..]), outLength, Render(Parse(fmt), args))
  {
    hide Parse, ParseField, Render, Matching, CString, HexDigits, Written, Holds;
    if outLength == 0 {
      return;
    }
    ghost var before, text := out[..], Render(Parse(fmt), args);
    var fmtI, outI, argI := 0, 0, 0;
    assert fmt[0..] == fmt && args[0..] == args && text[0..] == text;
    NothingWritten(before, text);
    while outI < outLength - 1
      invariant 0 <= outI < outLength && outI <= |text| && 0 <= fmtI < |fmt| && 0 <= argI <= |args|
      invariant Terminated(fmt[fmtI..]) && Written(out[..], before, outI, text)
      invariant outI == outLength - 1 || Pending(fmt[fmtI..], args[argI..], text[outI..], outLength - 1 - outI)
      decreases |fmt| - fmtI
    {
      assert fmt[fmtI..][0] == fmt[fmtI] && fmt[fmtI..][1..] == fmt[fmtI + 1..];
      NextUnit(fmt[fmtI..], args[argI..], text[outI..], outLength - 1 - outI);
      if fmt[fmtI] == 0 {
        TextEnds(out[..], before, outI, outLength, text);
        out[outI] := 0;
        return;
      } else if fmt[fmtI] == PERCENT {
        var ended;
        fmtI, outI, argI, ended := PutField(out, outLength - 1, fmt, fmtI + 1, args, argI, outI, before, text);
        if ended {
          TextEnds(out[..], before, outI, outLength, text);
          out[outI] := 0;
          return;
        }
      } else {
        Append(out[..], before, outI, text, fmt[fmtI], text[outI..][1..]);
        out[outI] := fmt[fmtI];
        outI := outI + 1;
        fmtI := fmtI + 1;
      }
    }
    TextEnds(out[..], before, outI, outLength, text);
    out[outI] := 0;
  }
}
