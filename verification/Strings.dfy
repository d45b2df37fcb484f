/** Characters, strings and bytes, classified as Rust's standard library classifies them. */
module Strings {

  newtype byte = b: int | 0 <= b < 256

  type Bytes = seq<byte>

  datatype Option<+T> = None | Some(value: T)

  /** `char::is_ascii_whitespace`: space, tab, line feed, form feed, carriage return. */
  predicate IsAsciiWhitespace(c: char) {
    c == ' ' || c == '\t' || c == '\n' || c == '\U{0C}' || c == '\r'
  }

  /** `char::is_whitespace`: the Unicode White_Space property. */
  predicate IsWhitespace(c: char) {
    || '\t' <= c <= '\r'
    || c == ' '
    || c == '\U{85}'
    || c == '\U{A0}'
    || c == '\U{1680}'
    || '\U{2000}' <= c <= '\U{200A}'
    || c == '\U{2028}'
    || c == '\U{2029}'
    || c == '\U{202F}'
    || c == '\U{205F}'
    || c == '\U{3000}'
  }

  /** `char::is_control`: general category Cc. */
  predicate IsControl(c: char) {
    c <= '\U{1F}' || '\U{7F}' <= c <= '\U{9F}'
  }

  /** `char::to_ascii_lowercase`. */
  function Lower(c: char): char {
    if 'A' <= c <= 'Z' then (c as int + 32) as char else c
  }

  /** `str::to_ascii_lowercase`. */
  function Lowered(s: string): string {
    seq(|s|, i requires 0 <= i < |s| => Lower(s[i]))
  }

  /** The characters that are not ASCII whitespace, in order. */
  function Squeezed(s: string): string {
    if s == [] then [] else (if IsAsciiWhitespace(s[0]) then [] else [s[0]]) + Squeezed(s[1..])
  }

  /** No ASCII whitespace anywhere. */
  predicate Compact(s: string) {
    forall c <- s :: !IsAsciiWhitespace(c)
  }

  function TrimStart(s: string): string {
    if s != [] && IsWhitespace(s[0]) then TrimStart(s[1..]) else s
  }

  function TrimEnd(s: string): string {
    if s != [] && IsWhitespace(s[|s| - 1]) then TrimEnd(s[..|s| - 1]) else s
  }

  /** `str::trim`. */
  function Trim(s: string): string {
    TrimEnd(TrimStart(s))
  }

  /** What comes before the first occurrence of `c`, or all of `s`. */
  function Before(s: string, c: char): string {
    if s == [] || s[0] == c then [] else [s[0]] + Before(s[1..], c)
  }

  predicate Contains(s: string, part: string) {
    exists i | 0 <= i <= |s| :: part <= s[i..]
  }

  lemma {:induction false} CompactIsItsOwnSqueeze(s: string)
    requires Compact(s)
    ensures Squeezed(s) == s
  {
    if s != [] {
      assert s[0] in s;
      assert forall c <- s[1..] :: c in s;
      CompactIsItsOwnSqueeze(s[1..]);
    }
  }

  /** Case is all that tells `a` from `b`. */
  lemma {:induction false} TrimStartIgnoresCase(a: string, b: string)
    requires Lowered(a) == Lowered(b)
    ensures Lowered(TrimStart(a)) == Lowered(TrimStart(b))
  {
    if a != [] {
      assert Lower(a[0]) == Lowered(a)[0] == Lowered(b)[0] == Lower(b[0]);
      assert Lowered(a[1..]) == Lowered(a)[1..] && Lowered(b[1..]) == Lowered(b)[1..];
      TrimStartIgnoresCase(a[1..], b[1..]);
    }
  }

  lemma {:induction false} TrimEndIgnoresCase(a: string, b: string)
    requires Lowered(a) == Lowered(b)
    ensures Lowered(TrimEnd(a)) == Lowered(TrimEnd(b))
  {
    if a != [] {
      var n := |a| - 1;
      assert |Lowered(a)| == |Lowered(b)|;
      assert Lower(a[n]) == Lowered(a)[n] == Lowered(b)[n] == Lower(b[n]);
      assert Lowered(a[..n]) == Lowered(a)[..n] && Lowered(b[..n]) == Lowered(b)[..n];
      TrimEndIgnoresCase(a[..n], b[..n]);
    }
  }

  lemma {:induction false} BeforeIgnoresCase(a: string, b: string, c: char)
    requires Lowered(a) == Lowered(b)
    requires !('A' <= c <= 'Z') && !('a' <= c <= 'z')
    ensures Lowered(Before(a, c)) == Lowered(Before(b, c))
  {
    if a != [] {
      assert Lower(a[0]) == Lowered(a)[0] == Lowered(b)[0] == Lower(b[0]);
      assert Lowered(a[1..]) == Lowered(a)[1..] && Lowered(b[1..]) == Lowered(b)[1..];
      BeforeIgnoresCase(a[1..], b[1..], c);
      if a[0] != c {
        var p, q := Before(a[1..], c), Before(b[1..], c);
        assert Lowered([a[0]] + p) == [Lower(a[0])] + Lowered(p);
        assert Lowered([b[0]] + q) == [Lower(b[0])] + Lowered(q);
      }
    }
  }
}
