/** Making a JSON document safe to print without changing what it says. */
module Render {
  import opened Strings
  import opened Display
  import opened Json

  /** Four lowercase hexadecimal digits. */
  function Hex4(unit: nat): string
    requires unit < 0x1_0000
  {
    [HexDigit(unit / 0x1000), HexDigit(unit / 0x100 % 16), HexDigit(unit / 0x10 % 16), HexDigit(unit % 16)]
  }

  function UnicodeEscape(unit: nat): string
    requires unit < 0x1_0000
  {
    "\\u" + Hex4(unit)
  }

  /** The escapes of one character's UTF-16: two of them above U+FFFF. */
  function EscapesOf(c: char): string {
    var units := Utf16(c);
    if |units| == 1 then UnicodeEscape(units[0]) else UnicodeEscape(units[0]) + UnicodeEscape(units[1])
  }

  function EscapedChar(c: char): string {
    if IsInvisibleOrReordering(c) then EscapesOf(c) else [c]
  }

  function Escaped(doc: string): string {
    if doc == [] then [] else Escaped(doc[..|doc| - 1]) + EscapedChar(doc[|doc| - 1])
  }

  predicate NothingInvisible(doc: string) {
    forall c <- doc :: !IsInvisibleOrReordering(c)
  }

  method EscapeInvisible(doc: string) returns (out: string)
    ensures out == Escaped(doc)
  {
    hide IsInvisibleOrReordering;
    hide UnicodeEscape;
    if NothingInvisible(doc) {
      VisibleIsUnchanged(doc);
      return doc;
    }
    out := [];
    for k := 0 to |doc|
      invariant out == Escaped(doc[..k])
    {
      assert doc[..k + 1][..k] == doc[..k];
      if IsInvisibleOrReordering(doc[k]) {
        var units := Utf16(doc[k]);
        ghost var before := out;
        for u := 0 to |units|
          invariant u == 0 ==> out == before
          invariant u == 1 ==> out == before + UnicodeEscape(units[0])
          invariant u == 2 ==> out == before + UnicodeEscape(units[0]) + UnicodeEscape(units[1])
        {
          out := out + UnicodeEscape(units[u]);
        }
        assert out == before + EscapesOf(doc[k]);
      } else {
        out := out + [doc[k]];
      }
    }
    assert doc[..|doc|] == doc;
  }

  lemma {:induction false} VisibleIsUnchanged(doc: string)
    requires NothingInvisible(doc)
    ensures Escaped(doc) == doc
  {
    if doc != [] {
      var last := doc[|doc| - 1];
      assert last in doc;
      VisibleIsUnchanged(doc[..|doc| - 1]);
      assert doc == doc[..|doc| - 1] + [last];
    }
  }

  /** What comes out has nothing left to escape. */
  lemma {:induction false} NothingInvisibleIsLeft(doc: string)
    ensures NothingInvisible(Escaped(doc))
  {
    if doc != [] {
      hide EscapedChar;
      hide IsInvisibleOrReordering;
      NothingInvisibleIsLeft(doc[..|doc| - 1]);
      EscapedCharIsVisible(doc[|doc| - 1]);
    }
  }

  lemma {:induction false} EscapedCharIsVisible(c: char)
    ensures NothingInvisible(EscapedChar(c))
  {
    if IsInvisibleOrReordering(c) {
      var units := Utf16(c);
      EscapeIsAscii(units[0]);
      if |units| == 2 {
        EscapeIsAscii(units[1]);
      }
      forall d <- EscapesOf(c) ensures d < '\U{80}' {}
    }
  }

  lemma {:induction false} EscapeIsAscii(unit: nat)
    requires unit < 0x1_0000
    ensures forall c <- UnicodeEscape(unit) :: c < '\U{80}'
  {
  }

  /** So escaping again changes nothing. */
  lemma {:induction false} EscapedIsAFixedPoint(doc: string)
    ensures Escaped(Escaped(doc)) == Escaped(doc)
  {
    NothingInvisibleIsLeft(doc);
    VisibleIsUnchanged(Escaped(doc));
  }

  lemma {:induction false} EscapedFirst(doc: string)
    requires doc != []
    ensures Escaped(doc) == EscapedChar(doc[0]) + Escaped(doc[1..])
  {
    hide EscapedChar;
    var n := |doc| - 1;
    if n == 0 {
      assert Escaped(doc[..0]) == [] && Escaped(doc[1..]) == [];
    } else {
      EscapedFirst(doc[..n]);
      assert doc[..n][1..] == doc[1..][..n - 1];
    }
  }

  /** An invisible character right after a backslash that opens an escape: the one place where
      escaping it would give it another meaning. */
  predicate IsMisplaced(mode: Mode, doc: string)
    decreases |doc|
  {
    && doc != []
    && (|| (mode.AfterBackslash? && IsInvisibleOrReordering(doc[0]))
        || (Step(mode, doc[0]).Read? && IsMisplaced(Step(mode, doc[0]).mode, doc[1..])))
  }

  lemma {:induction false} HexDigitHasItsValue(d: nat)
    requires d < 16
    ensures HexValue(HexDigit(d)) == Some(d)
  {
  }

  lemma {:induction false} HexStep(digits: nat, value: nat, d: nat, rest: string)
    requires digits <= 3 && d < 16
    ensures ReadFrom(InHex(digits, value), [HexDigit(d)] + rest) ==
            if digits < 3 then ReadFrom(InHex(digits + 1, 16 * value + d), rest)
            else Prefixed([Unit(16 * value + d)], ReadFrom(Inside, rest))
  {
    HexDigitHasItsValue(d);
    ReadFirst(InHex(digits, value), HexDigit(d), rest);
  }

  lemma {:induction false} HexReadsBack(a: nat, b: nat, c: nat, d: nat)
    requires a < 16 && b < 16 && c < 16 && d < 16
    ensures ReadFrom(InHex(0, 0), [HexDigit(a), HexDigit(b), HexDigit(c), HexDigit(d)]) ==
            Read(Inside, [Unit(16 * (16 * (16 * a + b) + c) + d)])
  {
    hide ReadFrom;
    hide HexDigit;
    var w, x, y, z := HexDigit(a), HexDigit(b), HexDigit(c), HexDigit(d);
    HexStep(0, 0, a, [x, y, z]);
    HexStep(1, a, b, [y, z]);
    HexStep(2, 16 * a + b, c, [z]);
    HexStep(3, 16 * (16 * a + b) + c, d, []);
    assert [w, x, y, z] == [w] + [x, y, z] && [x, y, z] == [x] + [y, z] && [y, z] == [y] + [z] && [z] == [z] + [];
    NothingToRead(Inside);
  }

  lemma {:induction false} NothingToRead(mode: Mode)
    ensures ReadFrom(mode, []) == Read(mode, [])
  {
  }

  lemma {:induction false} FourDigits(unit: nat)
    requires unit < 0x1_0000
    ensures unit / 0x1000 < 16
    ensures 16 * (16 * (16 * (unit / 0x1000) + unit / 0x100 % 16) + unit / 0x10 % 16) + unit % 16 == unit
  {
  }

  /** The four digits read back as the unit they were written for. */
  lemma {:induction false} EscapeReadsBack(unit: nat)
    requires unit < 0x1_0000
    ensures ReadFrom(Inside, UnicodeEscape(unit)) == Read(Inside, [Unit(unit)])
  {
    hide ReadFrom;
    hide HexDigit;
    FourDigits(unit);
    HexReadsBack(unit / 0x1000, unit / 0x100 % 16, unit / 0x10 % 16, unit % 16);
    var digits := Hex4(unit);
    assert UnicodeEscape(unit) == ['\\'] + (['u'] + digits);
    ReadFirst(Inside, '\\', ['u'] + digits);
    ReadFirst(AfterBackslash, 'u', digits);
  }

  /** Inside a string, the escapes of a character say what the character says. */
  lemma {:induction false} EscapesReadAsTheCharacter(c: char)
    requires IsInvisibleOrReordering(c)
    ensures ReadFrom(Inside, EscapesOf(c)) == Step(Inside, c)
  {
    hide ReadFrom;
    hide UnicodeEscape;
    var units := Utf16(c);
    EscapeReadsBack(units[0]);
    if |units| == 2 {
      EscapeReadsBack(units[1]);
      ReadInTwo(Inside, UnicodeEscape(units[0]), UnicodeEscape(units[1]));
      assert Units(units) == [Unit(units[0])] + [Unit(units[1])];
    } else {
      assert Units(units) == [Unit(units[0])];
    }
  }

  lemma {:induction false} EscapedCharReadsTheSame(mode: Mode, c: char)
    requires !(mode.AfterBackslash? && IsInvisibleOrReordering(c))
    ensures ReadFrom(mode, EscapedChar(c)) == Step(mode, c)
  {
    hide EscapesOf;
    hide IsOutside;
    if IsInvisibleOrReordering(c) {
      if mode.Inside? {
        EscapesReadAsTheCharacter(c);
      } else {
        InvisibleIsOnlyReadInside(mode, c);
      }
    } else {
      ReadFirst(mode, c, []);
      NothingToRead(mode);
      assert [c] + [] == [c];
      var step := Step(mode, c);
      if step.Read? {
        NothingToRead(step.mode);
        assert step.items + [] == step.items;
      }
    }
  }

  lemma {:induction false} InvisibleIsOnlyReadInside(mode: Mode, c: char)
    requires IsInvisibleOrReordering(c) && (mode.Outside? || mode.InHex?)
    ensures Step(mode, c) == Malformed && ReadFrom(mode, EscapesOf(c)) == Malformed
  {
    var escapes := EscapesOf(c);
    assert escapes[0] == '\\';
    assert Step(mode, '\\') == Malformed;
  }

  /** Escaping preserves meaning: unless an invisible character is misplaced, a document reads the
      same before and after, item for item, and if it is malformed it stays so. */
  lemma {:induction false} EscapingPreservesMeaning(mode: Mode, doc: string)
    requires !IsMisplaced(mode, doc)
    ensures ReadFrom(mode, Escaped(doc)) == ReadFrom(mode, doc)
    decreases |doc|
  {
    hide Step;
    hide EscapedChar;
    hide Escaped;
    hide IsInvisibleOrReordering;
    if doc == [] {
      assert Escaped([]) == [] by {
        VisibleIsUnchanged([]);
      }
    }
    if doc != [] {
      EscapedFirst(doc);
      EscapedCharReadsTheSame(mode, doc[0]);
      ReadInTwo(mode, EscapedChar(doc[0]), Escaped(doc[1..]));
      var first := Step(mode, doc[0]);
      if first.Read? {
        EscapingPreservesMeaning(first.mode, doc[1..]);
      }
    }
  }

  /** No document that reads at all has a misplaced character. */
  lemma {:induction false} WellFormedHasNothingMisplaced(mode: Mode, doc: string)
    requires ReadFrom(mode, doc).Read?
    ensures !IsMisplaced(mode, doc)
    decreases |doc|
  {
    if doc != [] {
      WellFormedHasNothingMisplaced(Step(mode, doc[0]).mode, doc[1..]);
    }
  }

  /** Where a reader ends that lets an invisible character follow the backslash of an escape. */
  function ToleratedEnd(mode: Mode, doc: string): Option<Mode>
    decreases |doc|
  {
    if doc == [] then Some(mode)
    else if mode.AfterBackslash? && IsInvisibleOrReordering(doc[0]) then ToleratedEnd(Inside, doc[1..])
    else match Step(mode, doc[0])
      case Malformed => None
      case Read(next, _) => ToleratedEnd(next, doc[1..])
  }

  /** Characters of a string that stand for themselves. */
  predicate IsPlain(text: string) {
    forall c <- text :: c >= ' ' && c != '"' && c != '\\'
  }

  lemma {:induction false} PlainTextReads(text: string)
    requires IsPlain(text)
    ensures ReadFrom(Inside, text).Read? && ReadFrom(Inside, text).mode == Inside
  {
    if text != [] {
      assert text[0] in text && (forall c <- text[1..] :: c in text);
      PlainTextReads(text[1..]);
    }
  }

  lemma {:induction false} DigitsArePlain(unit: nat)
    requires unit < 0x1_0000
    ensures IsPlain(['u'] + Hex4(unit))
  {
  }

  /** A stray backslash escapes the backslash of the escape, and the rest of it is plain text. */
  lemma {:induction false} MisplacedEscapeReads(unit: nat)
    requires unit < 0x1_0000
    ensures ReadFrom(AfterBackslash, UnicodeEscape(unit)).Read?
    ensures ReadFrom(AfterBackslash, UnicodeEscape(unit)).mode == Inside
  {
    hide ReadFrom;
    hide IsPlain;
    var text := ['u'] + Hex4(unit);
    assert UnicodeEscape(unit) == ['\\'] + text;
    ReadFirst(AfterBackslash, '\\', text);
    DigitsArePlain(unit);
    PlainTextReads(text);
  }

  lemma {:induction false} MisplacedEscapesRead(c: char)
    requires IsInvisibleOrReordering(c)
    ensures ReadFrom(AfterBackslash, EscapesOf(c)).Read?
    ensures ReadFrom(AfterBackslash, EscapesOf(c)).mode == Inside
  {
    hide ReadFrom;
    hide UnicodeEscape;
    hide IsInvisibleOrReordering;
    var units := Utf16(c);
    MisplacedEscapeReads(units[0]);
    if |units| == 2 {
      EscapeReadsBack(units[1]);
      ReadInTwo(AfterBackslash, UnicodeEscape(units[0]), UnicodeEscape(units[1]));
    }
  }

  /** When an escaped document reads at all: just when the tolerant reader gets through it, and to the
      same place. */
  lemma {:induction false} WhenTheEscapedReads(mode: Mode, doc: string)
    ensures match ReadFrom(mode, Escaped(doc))
            case Malformed => ToleratedEnd(mode, doc).None?
            case Read(end, _) => ToleratedEnd(mode, doc) == Some(end)
    decreases |doc|
  {
    hide Step;
    hide EscapesOf;
    hide Escaped;
    hide IsInvisibleOrReordering;
    if doc == [] {
      assert Escaped([]) == [] by {
        VisibleIsUnchanged([]);
      }
    } else {
      EscapedFirst(doc);
      ReadInTwo(mode, EscapedChar(doc[0]), Escaped(doc[1..]));
      if mode.AfterBackslash? && IsInvisibleOrReordering(doc[0]) {
        MisplacedEscapesRead(doc[0]);
        WhenTheEscapedReads(Inside, doc[1..]);
      } else {
        EscapedCharReadsTheSame(mode, doc[0]);
        var first := Step(mode, doc[0]);
        if first.Read? {
          WhenTheEscapedReads(first.mode, doc[1..]);
        }
      }
    }
  }

  /** The exact condition: escaping changes what a document says just when a character is misplaced
      and nothing else is wrong with the document, and what it changes is malformed before. */
  lemma {:induction false} WhenTheMeaningChanges(mode: Mode, doc: string)
    ensures ReadFrom(mode, Escaped(doc)) != ReadFrom(mode, doc) <==>
            IsMisplaced(mode, doc) && ToleratedEnd(mode, doc).Some?
    ensures ReadFrom(mode, Escaped(doc)) != ReadFrom(mode, doc) ==> ReadFrom(mode, doc) == Malformed
  {
    hide ReadFrom;
    hide Escaped;
    hide IsMisplaced;
    hide ToleratedEnd;
    WhenTheEscapedReads(mode, doc);
    if IsMisplaced(mode, doc) {
      if ReadFrom(mode, doc).Read? {
        WellFormedHasNothingMisplaced(mode, doc);
      }
    } else {
      EscapingPreservesMeaning(mode, doc);
    }
  }

  /** There is such a document: a string of a backslash and a zero-width space. */
  lemma {:induction false} AMisplacedCharacterChangesTheMeaning(doc: string)
    requires doc == ['"', '\\', '\U{200B}', '"']
    ensures ReadFrom(Outside, doc) == Malformed && ReadFrom(Outside, Escaped(doc)).Read?
  {
    hide ReadFrom;
    var c := doc[2];
    assert doc[1..] == ['\\', c, '"'] && doc[1..][1..] == [c, '"'] && [c, '"'][1..] == ['"'];
    assert ToleratedEnd(Inside, ['"']) == Some(Outside);
    assert ToleratedEnd(AfterBackslash, [c, '"']) == Some(Outside);
    assert ToleratedEnd(Inside, ['\\', c, '"']) == Some(Outside);
    assert IsMisplaced(AfterBackslash, [c, '"']);
    assert IsMisplaced(Inside, ['\\', c, '"']);
    WhenTheMeaningChanges(Outside, doc);
    WhenTheEscapedReads(Outside, doc);
  }

  /** How `serde_json` writes one character of a string. */
  function QuotedChar(c: char): string {
    match ShortForm(c)
    case Some(letter) => ['\\', letter]
    case None => if c < ' ' then UnicodeEscape(c as nat) else [c]
  }

  function ShortForm(c: char): Option<char> {
    if c == '"' || c == '\\' then Some(c)
    else if c == '\U{08}' then Some('b')
    else if c == '\U{0C}' then Some('f')
    else if c == '\n' then Some('n')
    else if c == '\r' then Some('r')
    else if c == '\t' then Some('t')
    else None
  }

  function QuotedChars(s: string): string {
    if s == [] then [] else QuotedChar(s[0]) + QuotedChars(s[1..])
  }

  /** How `serde_json` writes a string. */
  function Quoted(s: string): string {
    "\"" + QuotedChars(s) + "\""
  }

  lemma {:induction false} QuotedCharReadsAsItself(c: char)
    ensures ReadFrom(Inside, QuotedChar(c)) == Read(Inside, Units(Utf16(c)))
  {
    hide ReadFrom;
    hide UnicodeEscape;
    var quoted := QuotedChar(c);
    NothingToRead(Inside);
    assert Units(Utf16(c)) + [] == Units(Utf16(c));
    if ShortForm(c).None? && c >= ' ' {
      ReadFirst(Inside, c, []);
      assert [c] + [] == [c];
    } else {
      assert Units(Utf16(c)) == [Unit(c as nat)];
      if ShortForm(c).None? {
        EscapeReadsBack(c as nat);
      } else {
        assert quoted == ['\\'] + ([quoted[1]] + []);
        ReadFirst(Inside, '\\', [quoted[1]] + []);
        ReadFirst(AfterBackslash, quoted[1], []);
      }
    }
  }

  lemma {:induction false} QuotedCharsReadAsTheString(s: string)
    ensures ReadFrom(Inside, QuotedChars(s)) == Read(Inside, Units(Utf16Of(s)))
  {
    hide ReadFrom;
    hide QuotedChar;
    hide Utf16;
    if s == [] {
      NothingToRead(Inside);
      assert Units(Utf16Of(s)) == [];
    } else {
      QuotedCharReadsAsItself(s[0]);
      QuotedCharsReadAsTheString(s[1..]);
      ReadInTwo(Inside, QuotedChar(s[0]), QuotedChars(s[1..]));
      UnitsOfBoth(Utf16(s[0]), Utf16Of(s[1..]));
    }
  }

  lemma {:induction false} UnitsOfBoth(a: seq<nat>, b: seq<nat>)
    ensures Units(a + b) == Units(a) + Units(b)
  {
  }

  lemma {:induction false} QuotedReadsAsTheString(s: string)
    ensures ReadFrom(Outside, Quoted(s)) == Read(Outside, [Open] + Units(Utf16Of(s)) + [Close])
  {
    var body, end := QuotedChars(s), ['"'];
    QuotedCharsReadAsTheString(s);
    ReadInTwo(Inside, body, end);
    assert end[1..] == [];
    assert ReadFrom(Inside, end) == Read(Outside, [Close]);
    assert Quoted(s)[1..] == body + end;
    assert [Open] + (Units(Utf16Of(s)) + [Close]) == [Open] + Units(Utf16Of(s)) + [Close];
  }

  /** A script that decodes what was printed gets exactly the string that was stored, whatever is
      in it: quotes, control characters, invisible characters, characters above U+FFFF. */
  lemma {:induction false} PrintedStringsDecodeToThemselves(s: string)
    ensures StringValue(Escaped(Quoted(s))) == Some(s)
    ensures NothingInvisible(Escaped(Quoted(s)))
  {
    hide Quoted;
    hide Escaped;
    hide StringValue;
    hide ReadFrom;
    hide NothingInvisible;
    QuotedReadsAsTheString(s);
    WellFormedHasNothingMisplaced(Outside, Quoted(s));
    EscapingPreservesMeaning(Outside, Quoted(s));
    NothingInvisibleIsLeft(Quoted(s));
    ValueOfALiteral(Escaped(Quoted(s)), Utf16Of(s));
    ScalarsOfUtf16(s);
  }

  lemma {:induction false} ValueOfALiteral(literal: string, units: seq<nat>)
    requires ReadFrom(Outside, literal) == Read(Outside, [Open] + Units(units) + [Close])
    ensures StringValue(literal) == Scalars(units)
  {
    hide Scalars;
    hide ReadFrom;
    var items := [Open] + Units(units) + [Close];
    assert forall i | 0 < i < |items| - 1 :: items[i] == Units(units)[i - 1];
    assert seq(|items| - 2, i requires 0 <= i < |items| - 2 && items[i + 1].Unit? => items[i + 1].unit) == units;
  }
}
