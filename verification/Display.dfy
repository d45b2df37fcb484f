/** A preview as one clean line of bounded width, and which characters an output must not carry. */
module Display {
  import opened Strings

  const ELLIPSIS: char := '\U{2026}'

  /** Characters a reader is misled by that are not control characters. */
  predicate IsInvisibleOrReordering(c: char) {
    || c == '\U{AD}'
    || c == '\U{61C}'
    || c == '\U{180E}'
    || '\U{200B}' <= c <= '\U{200F}'
    || '\U{202A}' <= c <= '\U{202E}'
    || '\U{2060}' <= c <= '\U{206F}'
    || c == '\U{FEFF}'
    || '\U{FFF9}' <= c <= '\U{FFFB}'
    || '\U{E0000}' <= c <= '\U{E007F}'
  }

  predicate IsActedOn(c: char) {
    IsControl(c) || IsInvisibleOrReordering(c)
  }

  function HexDigit(d: nat): char
    requires d < 16
  {
    if d < 10 then ('0' as int + d) as char else ('a' as int + d - 10) as char
  }

  /** `{:x}`: lowercase hexadecimal without leading zeros. */
  function Hex(n: nat): string {
    (if n < 16 then [] else Hex(n / 16)) + [HexDigit(n % 16)]
  }

  /** A character as it is shown. */
  function Piece(c: char): string {
    if IsActedOn(c) then "\\u{" + Hex(c as int) + "}" else [c]
  }

  /** The whole text on one line: every character as it is shown, runs of whitespace as one space,
      none at either end. */
  function Rendering(text: string): string
    decreases |text|, 0
  {
    if text == [] then []
    else
      var init, last := text[..|text| - 1], text[|text| - 1];
      if IsWhitespace(last) then Rendering(init)
      else (if OwesASpace(init) then Rendering(init) + " " else Rendering(init)) + Piece(last)
  }

  /** Whether the next visible character has to be set off from what has been rendered. */
  predicate OwesASpace(text: string)
    decreases |text|, 1
  {
    text != [] && IsWhitespace(text[|text| - 1]) && Rendering(text) != []
  }

  /** The rendering of the longest prefix whose rendering fits. */
  function Fitting(text: string, maxChars: nat): string {
    if |Rendering(text)| <= maxChars || text == [] then Rendering(text) else Fitting(text[..|text| - 1], maxChars)
  }

  /** The text on one line if it fits, and otherwise a prefix of that line and an ellipsis. */
  function OneLine(text: string, maxChars: nat): string {
    if maxChars == 0 then []
    else if |Rendering(text)| <= maxChars then Rendering(text)
    else
      var fitting := Fitting(text, maxChars);
      (if |fitting| < maxChars then fitting else fitting[..maxChars - 1]) + [ELLIPSIS]
  }

  /** The bounded loop: it stops reading at the first character that does not fit. */
  method RenderOneLine(text: string, maxChars: nat) returns (line: string)
    ensures line == OneLine(text, maxChars)
  {
    if maxChars == 0 {
      return [];
    }
    hide Piece;
    hide Fitting;
    hide Rendering;
    hide OwesASpace;
    hide IsWhitespace;
    RenderingOfNothing();
    assert text[..0] == [];
    line := [];
    var written := 0;
    var pendingSpace, cut := false, false;
    var k := 0;
    while k < |text|
      invariant 0 <= k <= |text| && !cut
      invariant line == Rendering(text[..k]) && written == |line| <= maxChars
      invariant pendingSpace <==> OwesASpace(text[..k])
    {
      RenderingOfOneMore(text, k);
      if IsWhitespace(text[k]) {
        pendingSpace := written > 0;
        k := k + 1;
        continue;
      }
      var piece := Piece(text[k]);
      var space := if pendingSpace then 1 else 0;
      if written + space + |piece| > maxChars {
        cut := true;
        break;
      }
      if pendingSpace {
        line, written, pendingSpace := line + " ", written + 1, false;
      }
      line, written := line + piece, written + |piece|;
      k := k + 1;
    }
    if cut {
      CutAtTheFirstMisfit(text, k, maxChars);
      line := Popped(line, maxChars);
      line := line + [ELLIPSIS];
    } else {
      assert text[..k] == text;
    }
  }

  /** Make room for one more character, from the end. */
  method Popped(line: string, maxChars: nat) returns (shorter: string)
    requires 0 < maxChars
    ensures shorter == if |line| < maxChars then line else line[..maxChars - 1]
  {
    shorter := line;
    while |shorter| >= maxChars
      invariant shorter == line[..|shorter|]
      invariant |shorter| == |line| || |shorter| >= maxChars - 1
    {
      shorter := shorter[..|shorter| - 1];
    }
  }

  lemma {:induction false} RenderingOfNothing()
    ensures Rendering([]) == [] && !OwesASpace([])
  {
  }

  lemma {:induction false} RenderingOfOneMore(text: string, k: nat)
    requires k < |text|
    ensures var shorter, longer := text[..k], text[..k + 1];
            if IsWhitespace(text[k]) then
              Rendering(longer) == Rendering(shorter) && (OwesASpace(longer) <==> Rendering(shorter) != [])
            else
              Rendering(longer) ==
              (if OwesASpace(shorter) then Rendering(shorter) + " " else Rendering(shorter)) + Piece(text[k]) &&
              !OwesASpace(longer)
  {
    assert text[..k + 1][..k] == text[..k];
  }

  lemma {:induction false} CutAtTheFirstMisfit(text: string, k: nat, maxChars: nat)
    requires k < |text| && |Rendering(text[..k])| <= maxChars < |Rendering(text[..k + 1])|
    ensures |Rendering(text)| > maxChars && Fitting(text, maxChars) == Rendering(text[..k])
  {
    FittingStopsAtTheFirstMisfit(text, k + 1, maxChars);
    assert text[..k + 1][..k] == text[..k];
  }

  lemma {:induction false} RenderingGrows(text: string, n: nat)
    requires n <= |text|
    ensures Rendering(text[..n]) <= Rendering(text)
  {
    if n == |text| {
      assert text[..n] == text;
    } else {
      RenderingGrows(text[..|text| - 1], n);
      assert text[..|text| - 1][..n] == text[..n];
    }
  }

  lemma {:induction false} FittingStopsAtTheFirstMisfit(text: string, n: nat, maxChars: nat)
    requires n <= |text| && |Rendering(text[..n])| > maxChars
    ensures |Rendering(text)| > maxChars && Fitting(text, maxChars) == Fitting(text[..n], maxChars)
  {
    RenderingGrows(text, n);
    if n == |text| {
      assert text[..n] == text;
    } else {
      var init := text[..|text| - 1];
      assert init[..n] == text[..n];
      FittingStopsAtTheFirstMisfit(init, n, maxChars);
    }
  }

  lemma {:induction false} FittingIsAPrefix(text: string, maxChars: nat)
    ensures Fitting(text, maxChars) <= Rendering(text) && |Fitting(text, maxChars)| <= maxChars
  {
    if |Rendering(text)| > maxChars {
      FittingIsAPrefix(text[..|text| - 1], maxChars);
      RenderingGrows(text, |text| - 1);
    }
  }

  /** It fits, and it is the line itself or a prefix of it followed by the ellipsis. */
  lemma {:induction false} OneLineFits(text: string, maxChars: nat)
    ensures var line := OneLine(text, maxChars);
            && |line| <= maxChars
            && (|Rendering(text)| <= maxChars ==> line == Rendering(text))
            && (|Rendering(text)| > maxChars > 0 ==>
                  line[|line| - 1] == ELLIPSIS && line[..|line| - 1] <= Rendering(text))
  {
    FittingIsAPrefix(text, maxChars);
  }

  /** Shown rather than acted on; and if it is whitespace, one space after something visible. */
  predicate IsShownAt(line: string, i: nat)
    requires i < |line|
  {
    && !IsActedOn(line[i])
    && (IsWhitespace(line[i]) ==> line[i] == ' ' && i > 0 && line[i - 1] != ' ')
  }

  ghost predicate IsPlain(line: string) {
    forall i: nat | i < |line| :: IsShownAt(line, i)
  }

  ghost predicate IsClean(line: string) {
    IsPlain(line) && (line != [] ==> !IsWhitespace(line[|line| - 1]))
  }

  predicate IsVisible(c: char) {
    !IsActedOn(c) && !IsWhitespace(c)
  }

  lemma {:induction false} HexIsVisible(n: nat)
    ensures forall c <- Hex(n) :: IsVisible(c)
  {
    if n >= 16 {
      HexIsVisible(n / 16);
    }
  }

  lemma {:induction false} PieceIsVisible(c: char)
    requires !IsWhitespace(c)
    ensures Piece(c) != [] && forall d <- Piece(c) :: IsVisible(d)
  {
    if IsActedOn(c) {
      HexIsVisible(c as int);
    }
  }

  lemma {:induction false} PlainPrefix(line: string, n: nat)
    requires IsPlain(line) && n <= |line|
    ensures IsPlain(line[..n])
  {
    forall i: nat | i < n ensures IsShownAt(line[..n], i) {
      assert IsShownAt(line, i);
    }
  }

  lemma {:induction false} PlainWithOneMore(line: string, c: char)
    requires IsPlain(line) && (IsVisible(c) || (c == ' ' && line != [] && line[|line| - 1] != ' '))
    ensures IsPlain(line + [c])
  {
    forall i: nat | i < |line| + 1 ensures IsShownAt(line + [c], i) {
      if i < |line| {
        assert IsShownAt(line, i);
      }
    }
  }

  lemma {:induction false} PlainWithVisible(line: string, piece: string)
    requires IsPlain(line) && forall c <- piece :: IsVisible(c)
    ensures IsPlain(line + piece)
  {
    if piece == [] {
      assert line + piece == line;
    } else {
      var init, last := piece[..|piece| - 1], piece[|piece| - 1];
      assert last in piece && forall c <- init :: c in piece;
      PlainWithVisible(line, init);
      PlainWithOneMore(line + init, last);
      assert line + piece == line + init + [last];
    }
  }

  lemma {:induction false} CleanWithMore(line: string, owed: bool, piece: string)
    requires IsClean(line) && (owed ==> line != [])
    requires piece != [] && forall c <- piece :: IsVisible(c)
    ensures IsClean((if owed then line + " " else line) + piece)
  {
    var spaced := if owed then line + " " else line;
    if owed {
      PlainWithOneMore(line, ' ');
    }
    PlainWithVisible(spaced, piece);
    assert (spaced + piece)[|spaced + piece| - 1] == piece[|piece| - 1] && piece[|piece| - 1] in piece;
  }

  lemma {:induction false} RenderingIsClean(text: string)
    ensures IsClean(Rendering(text))
  {
    if text != [] {
      var init, last := text[..|text| - 1], text[|text| - 1];
      RenderingIsClean(init);
      if !IsWhitespace(last) {
        PieceIsVisible(last);
        CleanWithMore(Rendering(init), OwesASpace(init), Piece(last));
      }
    }
  }

  /** Whatever the text and the width, the line is safe to show. */
  lemma {:induction false} OneLineIsClean(text: string, maxChars: nat)
    ensures IsClean(OneLine(text, maxChars))
  {
    RenderingIsClean(text);
    FittingIsAPrefix(text, maxChars);
    var line := OneLine(text, maxChars);
    if maxChars > 0 && |Rendering(text)| > maxChars {
      var front := line[..|line| - 1];
      assert front == Rendering(text)[..|front|] && line == front + [ELLIPSIS];
      PlainPrefix(Rendering(text), |front|);
      PlainWithOneMore(front, ELLIPSIS);
    }
  }

  lemma {:induction false} PlainIsShownAt(line: string, i: nat)
    requires IsPlain(line) && i < |line|
    ensures IsShownAt(line, i)
  {
  }

  /** Rendering a plain line gives it back, less the space it may end with. */
  lemma {:induction false} RenderingOfPlain(line: string)
    requires IsPlain(line)
    ensures Rendering(line) == WithoutLastSpace(line)
  {
    hide Rendering;
    hide Piece;
    hide OwesASpace;
    hide IsPlain;
    hide IsWhitespace;
    hide IsActedOn;
    if line == [] {
      RenderingOfNothing();
    } else {
      var init, last := line[..|line| - 1], line[|line| - 1];
      PlainIsShownAt(line, |line| - 1);
      PlainPrefix(line, |line| - 1);
      RenderingOfPlain(init);
      RenderingOfOneMore(line, |line| - 1);
      assert line[..|line| - 1 + 1] == line == init + [last];
      LastIsAddedBack(init, last);
    }
  }

  function WithoutLastSpace(line: string): string {
    if line != [] && IsWhitespace(line[|line| - 1]) then line[..|line| - 1] else line
  }

  lemma {:induction false} LastIsAddedBack(init: string, last: char)
    requires IsPlain(init + [last]) && Rendering(init) == WithoutLastSpace(init)
    ensures if IsWhitespace(last) then Rendering(init) == init
            else (if OwesASpace(init) then Rendering(init) + " " else Rendering(init)) + Piece(last) == init + [last]
  {
    hide Rendering;
    var n := |init|;
    PlainIsShownAt(init + [last], n);
    if n > 0 {
      PlainIsShownAt(init + [last], n - 1);
      assert (init + [last])[n - 1] == init[n - 1];
      assert init == init[..n - 1] + [init[n - 1]];
    }
  }

  /** Rendering at the same width again changes nothing. */
  lemma {:induction false} OneLineIsIdempotent(text: string, maxChars: nat)
    ensures OneLine(OneLine(text, maxChars), maxChars) == OneLine(text, maxChars)
  {
    OneLineIsClean(text, maxChars);
    OneLineFits(text, maxChars);
    RenderingOfPlain(OneLine(text, maxChars));
  }
}
