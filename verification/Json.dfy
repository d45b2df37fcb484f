/** The characters of a JSON document, read as section 7 of RFC 8259 has it. */
module Json {
  import opened Strings

  /** Where in the document a character stands. */
  datatype Mode = Outside | Inside | AfterBackslash | InHex(digits: nat, value: nat)

  /** What the characters mean: punctuation and literals as they are, and strings as UTF-16. */
  datatype Item = Token(c: char) | Open | Unit(unit: nat) | Close

  datatype Reading = Malformed | Read(mode: Mode, items: seq<Item>)

  /** The characters the grammar uses outside strings. */
  predicate IsOutside(c: char) {
    || c == ' ' || c == '\t' || c == '\n' || c == '\r'
    || c == '{' || c == '}' || c == '[' || c == ']' || c == ':' || c == ','
    || c == '+' || c == '-' || c == '.' || '0' <= c <= '9'
    || c == 'E' || c == 'a' || c == 'e' || c == 'f' || c == 'l'
    || c == 'n' || c == 'r' || c == 's' || c == 't' || c == 'u'
  }

  function HexValue(c: char): Option<nat> {
    if '0' <= c <= '9' then Some(c as nat - '0' as nat)
    else if 'a' <= c <= 'f' then Some(c as nat - 'a' as nat + 10)
    else if 'A' <= c <= 'F' then Some(c as nat - 'A' as nat + 10)
    else None
  }

  function ShortEscape(c: char): Option<nat> {
    if c == '"' || c == '\\' || c == '/' then Some(c as nat)
    else if c == 'b' then Some(8)
    else if c == 'f' then Some(12)
    else if c == 'n' then Some(10)
    else if c == 'r' then Some(13)
    else if c == 't' then Some(9)
    else None
  }

  /** UTF-16: above U+FFFF a character is a surrogate pair. */
  function Utf16(c: char): seq<nat> {
    var n := c as nat;
    if n < 0x1_0000 then [n] else [0xD800 + (n - 0x1_0000) / 0x400, 0xDC00 + (n - 0x1_0000) % 0x400]
  }

  function Utf16Of(s: string): seq<nat> {
    if s == [] then [] else Utf16(s[0]) + Utf16Of(s[1..])
  }

  function Units(units: seq<nat>): seq<Item> {
    seq(|units|, i requires 0 <= i < |units| => Unit(units[i]))
  }

  function Step(mode: Mode, c: char): Reading {
    match mode
    case Outside =>
      if c == '"' then Read(Inside, [Open]) else if IsOutside(c) then Read(Outside, [Token(c)]) else Malformed
    case Inside =>
      if c == '"' then Read(Outside, [Close])
      else if c == '\\' then Read(AfterBackslash, [])
      else if c >= ' ' then Read(Inside, Units(Utf16(c)))
      else Malformed
    case AfterBackslash =>
      if c == 'u' then Read(InHex(0, 0), [])
      else if ShortEscape(c).Some? then Read(Inside, [Unit(ShortEscape(c).value)])
      else Malformed
    case InHex(digits, value) =>
      if HexValue(c).None? then Malformed
      else if digits >= 3 then Read(Inside, [Unit(16 * value + HexValue(c).value)])
      else Read(InHex(digits + 1, 16 * value + HexValue(c).value), [])
  }

  function ReadFrom(mode: Mode, doc: string): Reading
    decreases |doc|
  {
    if doc == [] then Read(mode, [])
    else match Step(mode, doc[0])
      case Malformed => Malformed
      case Read(next, items) => Prefixed(items, ReadFrom(next, doc[1..]))
  }

  function Prefixed(items: seq<Item>, rest: Reading): Reading {
    match rest
    case Malformed => Malformed
    case Read(mode, more) => Read(mode, items + more)
  }

  lemma {:induction false} ReadFirst(mode: Mode, c: char, rest: string)
    ensures ReadFrom(mode, [c] + rest) ==
            match Step(mode, c)
            case Malformed => Malformed
            case Read(next, items) => if items == [] then ReadFrom(next, rest) else Prefixed(items, ReadFrom(next,
                      rest))
  {
    hide Step;
    assert ([c] + rest)[1..] == rest;
    if Step(mode, c).Read? {
      var after := ReadFrom(Step(mode, c).mode, rest);
      assert after.Read? ==> [] + after.items == after.items;
    }
  }

  lemma {:induction false} ReadInTwo(mode: Mode, front: string, back: string)
    ensures ReadFrom(mode, front + back) ==
            match ReadFrom(mode, front)
            case Malformed => Malformed
            case Read(next, items) => Prefixed(items, ReadFrom(next, back))
    decreases |front|
  {
    hide Step;
    if front == [] {
      assert front + back == back;
      assert ReadFrom(mode, back).Read? ==> [] + ReadFrom(mode, back).items == ReadFrom(mode, back).items;
    } else {
      assert (front + back)[1..] == front[1..] + back;
      var first := Step(mode, front[0]);
      if first.Read? {
        ReadInTwo(first.mode, front[1..], back);
        var middle := ReadFrom(first.mode, front[1..]);
        if middle.Read? && ReadFrom(middle.mode, back).Read? {
          assert first.items + (middle.items + ReadFrom(middle.mode, back).items) ==
                 (first.items + middle.items) + ReadFrom(middle.mode, back).items;
        }
      }
    }
  }

  /** The scalar values a string's UTF-16 stands for, unless a surrogate is unpaired. */
  function Scalars(units: seq<nat>): Option<string> {
    if units == [] then Some([])
    else if 0xD800 <= units[0] < 0xDC00 then
      if |units| > 1 && 0xDC00 <= units[1] < 0xE000 then
        match Scalars(units[2..])
        case None => None
        case Some(rest) =>
          Some([(0x1_0000 + 0x400 * (units[0] - 0xD800) + (units[1] - 0xDC00)) as char] + rest)
      else None
    else if 0xDC00 <= units[0] < 0xE000 || units[0] >= 0x1_0000 then None
    else
      match Scalars(units[1..])
      case None => None
      case Some(rest) => Some([units[0] as char] + rest)
  }

  /** UTF-16 loses nothing. */
  lemma {:induction false} ScalarsOfUtf16(s: string)
    ensures Scalars(Utf16Of(s)) == Some(s)
  {
    if s != [] {
      ScalarsOfUtf16(s[1..]);
      var units := Utf16Of(s);
      if |Utf16(s[0])| == 2 {
        assert units[2..] == Utf16Of(s[1..]);
        SurrogatePair(s[0]);
      } else {
        assert units[1..] == Utf16Of(s[1..]);
      }
      assert s == [s[0]] + s[1..];
    }
  }

  /** A character above U+FFFF is one high and one low surrogate, and they stand for nothing else. */
  lemma {:induction false} SurrogatePair(c: char)
    requires c as nat >= 0x1_0000
    ensures |Utf16(c)| == 2 && 0xD800 <= Utf16(c)[0] < 0xDC00 <= Utf16(c)[1] < 0xE000
    ensures 0x1_0000 + 0x400 * (Utf16(c)[0] - 0xD800) + (Utf16(c)[1] - 0xDC00) == c as nat
    ensures forall d: char | Utf16(d) == Utf16(c) :: d == c
  {
    ValueOfAPair(c);
    forall d: char | Utf16(d) == Utf16(c) ensures d == c {
      if d as nat >= 0x1_0000 {
        ValueOfAPair(d);
      }
    }
  }

  lemma {:induction false} ValueOfAPair(c: char)
    requires c as nat >= 0x1_0000
    ensures |Utf16(c)| == 2 && 0xD800 <= Utf16(c)[0] < 0xDC00 <= Utf16(c)[1] < 0xE000
    ensures 0x1_0000 + 0x400 * (Utf16(c)[0] - 0xD800) + (Utf16(c)[1] - 0xDC00) == c as nat
  {
    var n := c as nat - 0x1_0000;
    assert 0x400 * (n / 0x400) + n % 0x400 == n && n / 0x400 < 0x400;
  }

  /** The string a whole document of one string literal denotes. */
  function StringValue(literal: string): Option<string> {
    match ReadFrom(Outside, literal)
    case Malformed => None
    case Read(mode, items) =>
      if mode == Outside && |items| >= 2 && items[0] == Open && items[|items| - 1] == Close
         && (forall i | 0 < i < |items| - 1 :: items[i].Unit?)
      then Scalars(seq(|items| - 2, i requires 0 <= i < |items| - 2 && items[i + 1].Unit? => items[i + 1].unit))
      else None
  }
}
