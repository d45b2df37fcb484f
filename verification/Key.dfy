/** The database key as text: written as hexadecimal digits, and read back. */
module Keys {
  import opened Strings
  import opened Display
  import opened Json

  const KEY_BYTES: nat := 32

  type Key = k: Bytes | |k| == KEY_BYTES witness seq(KEY_BYTES, _ => 0)

  function HexOfByte(b: byte): string {
    [HexDigit(b as nat / 16), HexDigit(b as nat % 16)]
  }

  function HexOf(bytes: Bytes): string {
    if bytes == [] then [] else HexOf(bytes[..|bytes| - 1]) + HexOfByte(bytes[|bytes| - 1])
  }

  /** A byte of two digits, or of a plus sign and one digit. */
  function ByteOfHex(pair: string): Option<byte>
    requires |pair| == 2
  {
    var high := if pair[0] == '+' then Some(0) else HexValue(pair[0]);
    var low := HexValue(pair[1]);
    if high.None? || low.None? then None else Some((16 * high.value + low.value) as byte)
  }

  /** The bytes of the first `n` pairs, if each pair is one. */
  function BytesOfHex(text: string, n: nat): Option<Bytes>
    requires 2 * n <= |text|
  {
    if n == 0 then Some([])
    else if BytesOfHex(text, n - 1).None? || ByteOfHex(text[2 * n - 2..2 * n]).None? then None
    else Some(BytesOfHex(text, n - 1).value + [ByteOfHex(text[2 * n - 2..2 * n]).value])
  }

  /** 64 hexadecimal digits, ignoring whitespace around them. */
  function FromHex(text: string): Option<Key> {
    var digits := Trim(text);
    if |digits| != 2 * KEY_BYTES then None
    else
      BytesOfHexHasAsMany(digits, KEY_BYTES);
      match BytesOfHex(digits, KEY_BYTES)
      case None => None
      case Some(bytes) => Some(bytes)
  }

  lemma {:induction false} BytesOfHexHasAsMany(text: string, n: nat)
    requires 2 * n <= |text|
    ensures BytesOfHex(text, n).Some? ==> |BytesOfHex(text, n).value| == n
  {
    if n > 0 {
      BytesOfHexHasAsMany(text, n - 1);
    }
  }

  /** A pair of two hexadecimal digits, or of a plus sign and one. */
  predicate IsPair(text: string, i: nat)
    requires 2 * i + 2 <= |text|
  {
    (text[2 * i] == '+' || HexValue(text[2 * i]).Some?) && HexValue(text[2 * i + 1]).Some?
  }

  lemma {:induction false} BytesAreOfPairs(text: string, n: nat)
    requires 2 * n <= |text|
    ensures BytesOfHex(text, n).Some? <==> forall i | 0 <= i < n :: IsPair(text, i)
  {
    if n > 0 {
      BytesAreOfPairs(text, n - 1);
      var pair := text[2 * n - 2..2 * n];
      assert pair[0] == text[2 * (n - 1)] && pair[1] == text[2 * (n - 1) + 1];
      assert ByteOfHex(pair).Some? <==> IsPair(text, n - 1);
    }
  }

  /** What is accepted: 64 characters but for whitespace around them, each pair of which is one. */
  lemma {:induction false} AcceptedText(text: string)
    ensures FromHex(text).Some? <==> |Trim(text)| == 64 && forall i | 0 <= i < 32 :: IsPair(Trim(text), i)
  {
    if |Trim(text)| == 64 {
      BytesAreOfPairs(Trim(text), 32);
    }
  }

  predicate IsHexDigits(text: string) {
    |text| == 64 && forall c <- text :: HexValue(c).Some?
  }

  /** 64 hexadecimal digits are accepted, and of what is accepted only they are without a plus sign. */
  lemma {:induction false} AcceptedDigits(text: string)
    ensures IsHexDigits(Trim(text)) <==> FromHex(text).Some? && '+' !in Trim(text)
  {
    hide IsWhitespace;
    var digits := Trim(text);
    AcceptedText(text);
    if IsHexDigits(digits) {
      forall i | 0 <= i < 32 ensures IsPair(digits, i) {
        assert digits[2 * i] in digits && digits[2 * i + 1] in digits;
      }
    }
    if FromHex(text).Some? && '+' !in digits {
      forall c <- digits ensures HexValue(c).Some? {
        var k :| 0 <= k < |digits| && digits[k] == c;
        assert IsPair(digits, k / 2) && k == 2 * (k / 2) + k % 2;
      }
    }
  }

  /** A key read from a text that is not 64 digits: the plus sign stands for a zero. */
  lemma {:induction false} APlusSignIsAccepted(text: string)
    requires |text| == 64 && forall k | 0 <= k < 64 :: text[k] == if k % 2 == 0 then '+' else '7'
    ensures FromHex(text).Some? && (forall b <- FromHex(text).value :: b == 7) && !IsHexDigits(Trim(text))
  {
    assert text[0] == '+' && text[63] == '7';
    assert TrimStart(text) == text && Trim(text) == text;
    SevensOf(text, KEY_BYTES);
    assert text[0] in text;
  }

  lemma {:induction false} SevensOf(text: string, n: nat)
    requires n <= 32 && |text| == 64 && forall k | 0 <= k < 64 :: text[k] == if k % 2 == 0 then '+' else '7'
    ensures BytesOfHex(text, n).Some? && forall b <- BytesOfHex(text, n).value :: b == 7
  {
    if n > 0 {
      SevensOf(text, n - 1);
      var pair := text[2 * n - 2..2 * n];
      assert pair == [text[2 * n - 2], text[2 * n - 1]] == ['+', '7'];
      assert ByteOfHex(pair) == Some(7);
    }
  }

  method ToHex(key: Key) returns (hex: string)
    ensures hex == HexOf(key)
  {
    hex := [];
    for i := 0 to |key|
      invariant hex == HexOf(key[..i])
    {
      assert key[..i + 1][..i] == key[..i];
      hex := hex + HexOfByte(key[i]);
    }
    assert key[..|key|] == key;
  }

  /** The loop that fills the key, pair by pair. */
  method ParseHex(text: string) returns (key: Option<Key>)
    ensures key == FromHex(text)
  {
    var digits := Trim(text);
    if |digits| != 2 * KEY_BYTES {
      return None;
    }
    var bytes := new byte[KEY_BYTES](_ => 0);
    for i := 0 to KEY_BYTES
      invariant BytesOfHex(digits, i) == Some(bytes[..i])
    {
      var b := ByteOfHex(digits[2 * i..2 * (i + 1)]);
      assert digits[2 * (i + 1) - 2..2 * (i + 1)] == digits[2 * i..2 * (i + 1)];
      if b.None? {
        NoBytesOfMore(digits, i + 1, KEY_BYTES);
        return None;
      }
      ghost var before := bytes[..i];
      bytes[i] := b.value;
      assert bytes[..i + 1] == before + [b.value];
    }
    assert bytes[..] == bytes[..KEY_BYTES];
    return Some(bytes[..]);
  }

  lemma {:induction false} NoBytesOfMore(text: string, n: nat, m: nat)
    requires n <= m && 2 * m <= |text| && BytesOfHex(text, n).None?
    ensures BytesOfHex(text, m).None?
  {
    if n < m {
      NoBytesOfMore(text, n, m - 1);
    }
  }

  lemma {:induction false} ByteReadsBack(b: byte)
    ensures |HexOfByte(b)| == 2 && ByteOfHex(HexOfByte(b)) == Some(b)
  {
    var high, low := b as nat / 16, b as nat % 16;
    assert HexValue(HexDigit(high)) == Some(high) && HexValue(HexDigit(low)) == Some(low);
  }

  lemma {:induction false} BytesReadBack(bytes: Bytes, n: nat, text: string)
    requires n <= |bytes| && HexOf(bytes[..n]) <= text
    ensures 2 * n <= |text| && BytesOfHex(text, n) == Some(bytes[..n])
    ensures |HexOf(bytes[..n])| == 2 * n
  {
    if n > 0 {
      hide HexOfByte;
      hide ByteOfHex;
      var before, b := HexOf(bytes[..n - 1]), bytes[n - 1];
      assert bytes[..n][..n - 1] == bytes[..n - 1];
      assert HexOf(bytes[..n]) == before + HexOfByte(b);
      BytesReadBack(bytes, n - 1, text);
      PairOf(text, before, HexOfByte(b));
      ByteReadsBack(b);
      assert bytes[..n] == bytes[..n - 1] + [b];
    }
  }

  lemma {:induction false} PairOf(text: string, before: string, pair: string)
    requires before + pair <= text
    ensures text[|before|..|before| + |pair|] == pair
  {
    assert text[..|before| + |pair|] == before + pair;
  }

  lemma {:induction false} HexHasNoWhitespace(bytes: Bytes)
    ensures forall c <- HexOf(bytes) :: !IsWhitespace(c)
  {
    if bytes != [] {
      HexHasNoWhitespace(bytes[..|bytes| - 1]);
    }
  }

  lemma {:induction false} TrimOfPadded(before: string, middle: string, after: string)
    requires middle != [] && !IsWhitespace(middle[0]) && !IsWhitespace(middle[|middle| - 1])
    requires (forall c <- before :: IsWhitespace(c)) && (forall c <- after :: IsWhitespace(c))
    ensures Trim(before + middle + after) == middle
    decreases |before| + |after|
  {
    if before != [] {
      TrimOfPadded(before[1..], middle, after);
      assert (before + middle + after)[1..] == before[1..] + middle + after;
      assert before[0] in before;
    } else if after != [] {
      var all := before + middle + after;
      TrimOfPadded(before, middle, after[..|after| - 1]);
      assert all[..|all| - 1] == before + middle + after[..|after| - 1];
      assert after[|after| - 1] in after;
      assert TrimStart(all) == all && TrimStart(all[..|all| - 1]) == all[..|all| - 1];
    } else {
      assert before + middle + after == middle;
    }
  }

  /** What was written reads back as the key, whatever whitespace an editor put around it. */
  lemma {:induction false} KeyReadsBack(key: Key, before: string, after: string)
    requires (forall c <- before :: IsWhitespace(c)) && (forall c <- after :: IsWhitespace(c))
    ensures FromHex(before + HexOf(key) + after) == Some(key)
  {
    hide IsWhitespace;
    var hex := HexOf(key);
    assert key[..KEY_BYTES] == key;
    BytesReadBack(key, KEY_BYTES, hex);
    HexHasNoWhitespace(key);
    assert hex[0] in hex && hex[|hex| - 1] in hex;
    TrimOfPadded(before, hex, after);
  }
}
