/** The MIME types the watcher bothers to capture, and when two of them are one. */
module Mime {
  import opened Strings

  const INTERESTING_MIMES: seq<string> := [
    "text/plain;charset=utf-8",
    "text/plain",
    "text/html",
    "text/uri-list",
    "image/png",
    "image/jpeg",
    "x-kde-passwordManagerHint"
  ]

  /** A MIME type up to ASCII case and ASCII whitespace. */
  function NormalForm(mime: string): string {
    Lowered(Squeezed(mime))
  }

  predicate Same(mime: string, other: string) {
    NormalForm(mime) == NormalForm(other)
  }

  lemma {:induction false} PlainIsItsOwnForm(mime: string)
    requires forall c <- mime :: !IsAsciiWhitespace(c) && Lower(c) == c
    ensures NormalForm(mime) == mime
  {
    CompactIsItsOwnSqueeze(mime);
  }

  predicate IsInteresting(mime: string) {
    exists i | 0 <= i < |INTERESTING_MIMES| :: Lowered(INTERESTING_MIMES[i]) == NormalForm(mime)
  }

  predicate PairwiseDistinct(mimes: seq<string>) {
    forall i, j | 0 <= i < j < |mimes| :: !Same(mimes[i], mimes[j])
  }

  ghost function Forms(mimes: seq<string>): set<string> {
    set m | m in mimes :: NormalForm(m)
  }

  ghost function KnownForms(known: seq<string>): set<string> {
    set m | m in known :: Lowered(m)
  }

  lemma {:induction false} KnownFormsAreFew(known: seq<string>)
    ensures |KnownForms(known)| <= |known|
  {
    if known != [] {
      var n := |known| - 1;
      KnownFormsAreFew(known[..n]);
      assert known == known[..n] + [known[n]];
      assert KnownForms(known) == KnownForms(known[..n]) + {Lowered(known[n])};
    }
  }

  lemma {:induction false} DistinctMimesHaveAsManyForms(mimes: seq<string>)
    requires PairwiseDistinct(mimes)
    ensures |Forms(mimes)| == |mimes|
  {
    if mimes != [] {
      var n := |mimes| - 1;
      DistinctMimesHaveAsManyForms(mimes[..n]);
      assert mimes == mimes[..n] + [mimes[n]];
      assert Forms(mimes) == Forms(mimes[..n]) + {NormalForm(mimes[n])};
      assert forall m <- mimes[..n] :: !Same(m, mimes[n]);
    }
  }

  /** Pigeonhole on normal forms: interesting types that all differ are at most as many as the
      list names, and once they are that many every interesting type is one of them again. */
  lemma {:induction false} Pigeonhole(mimes: seq<string>)
    requires PairwiseDistinct(mimes)
    requires forall m <- mimes :: IsInteresting(m)
    ensures |mimes| <= |INTERESTING_MIMES|
    ensures |mimes| == |INTERESTING_MIMES| ==>
              forall other | IsInteresting(other) :: exists m <- mimes :: Same(m, other)
  {
    var known := INTERESTING_MIMES;
    DistinctMimesHaveAsManyForms(mimes);
    KnownFormsAreFew(known);
    forall m <- mimes ensures NormalForm(m) in KnownForms(known) {
      InterestingHasAKnownForm(m);
    }
    SubsetSize(Forms(mimes), KnownForms(known));
    forall other | |mimes| == |known| && IsInteresting(other) ensures exists m <- mimes :: Same(m, other) {
      InterestingHasAKnownForm(other);
    }
  }

  lemma {:induction false} InterestIgnoresSpelling(mime: string, other: string)
    requires Same(mime, other) && IsInteresting(mime)
    ensures IsInteresting(other)
  {
  }

  lemma {:induction false} InterestingHasAKnownForm(mime: string)
    requires IsInteresting(mime)
    ensures NormalForm(mime) in KnownForms(INTERESTING_MIMES)
  {
    var i :| 0 <= i < |INTERESTING_MIMES| && Lowered(INTERESTING_MIMES[i]) == NormalForm(mime);
    assert INTERESTING_MIMES[i] in INTERESTING_MIMES;
  }

  lemma {:induction false} SubsetSize<T>(a: set<T>, b: set<T>)
    requires a <= b
    ensures |a| <= |b|
    ensures |a| == |b| ==> a == b
  {
    assert b == a + (b - a);
    assert |b| == |a| + |b - a|;
  }
}
