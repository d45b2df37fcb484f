/** The flavors of an entry that are offered, and the blob that answers a request for one. */
module Offer {
  import opened Strings
  import opened Mime
  import opened Entries

  predicate HasMimeType(flavor: Flavor) {
    Trim(flavor.mime) != []
  }

  /** The flavors that are advertised: those with a MIME type, the first spelling of each. */
  function Offered(flavors: seq<Flavor>): seq<Flavor> {
    FirstOfEach(Filter(flavors, HasMimeType), Same)
  }

  /** The bytes a `send` for this type is answered with. */
  function BlobFor(offered: seq<Flavor>, wanted: string): Option<Bytes> {
    if offered == [] then None
    else if Same(offered[0].mime, wanted) then Some(offered[0].data)
    else BlobFor(offered[1..], wanted)
  }

  /** The loop that builds the advertised list. */
  method OfferedFlavors(flavors: seq<Flavor>) returns (offered: seq<Flavor>)
    ensures offered == Offered(flavors)
  {
    offered := [];
    for k := 0 to |flavors|
      invariant offered == Offered(flavors[..k])
    {
      assert flavors[..k + 1][..k] == flavors[..k];
      var had := Filter(flavors[..k], HasMimeType);
      if Trim(flavors[k].mime) == [] {
        assert had + [] == had;
        continue;
      }
      assert (had + [flavors[k]])[..|had|] == had;
      if HasMime(offered, flavors[k].mime, Same) {
        continue;
      }
      offered := offered + [flavors[k]];
    }
    assert flavors[..|flavors|] == flavors;
  }

  lemma {:induction false} DistinctWithOneMore(mimes: seq<string>, mime: string)
    requires PairwiseDistinct(mimes)
    requires forall m <- mimes :: !Same(m, mime)
    ensures PairwiseDistinct(mimes + [mime])
  {
  }

  /** `offer` is a set: no type is advertised twice. */
  lemma {:induction false} NoTypeTwice(flavors: seq<Flavor>)
    ensures PairwiseDistinct(Mimes(FirstOfEach(flavors, Same)))
  {
    if flavors != [] {
      var n := |flavors| - 1;
      var init, last := FirstOfEach(flavors[..n], Same), flavors[n];
      NoTypeTwice(flavors[..n]);
      if !HasMime(init, last.mime, Same) {
        assert Mimes(init + [last]) == Mimes(init) + [last.mime];
        DistinctWithOneMore(Mimes(init), last.mime);
      } else {
        assert init + [] == init;
      }
    }
  }

  /** And every type that came in is advertised in some spelling. */
  lemma {:induction false} EveryTypeOnce(flavors: seq<Flavor>, f: Flavor)
    requires f in flavors
    ensures HasMime(FirstOfEach(flavors, Same), f.mime, Same)
  {
    var n := |flavors| - 1;
    var init, last := FirstOfEach(flavors[..n], Same), flavors[n];
    assert flavors == flavors[..n] + [last];
    var all := FirstOfEach(flavors, Same);
    assert init <= all;
    if f in flavors[..n] {
      EveryTypeOnce(flavors[..n], f);
      var g :| g in init && Same(g.mime, f.mime);
      assert g in all;
    } else if !HasMime(init, last.mime, Same) {
      assert last in all;
    } else {
      var g :| g in init && Same(g.mime, last.mime);
      assert g in all;
    }
  }

  lemma {:induction false} FirstOfEachGrows(flavors: seq<Flavor>, more: seq<Flavor>)
    ensures FirstOfEach(flavors, Same) <= FirstOfEach(flavors + more, Same)
  {
    if more == [] {
      assert flavors + more == flavors;
    } else {
      var n := |more| - 1;
      FirstOfEachGrows(flavors, more[..n]);
      assert (flavors + more)[..|flavors| + n] == flavors + more[..n];
    }
  }

  /** Asking for exactly what was advertised gives its own bytes. */
  lemma {:induction false} BlobForItsOwnType(offered: seq<Flavor>, k: nat)
    requires k < |offered| && PairwiseDistinct(Mimes(offered))
    ensures BlobFor(offered, offered[k].mime) == Some(offered[k].data)
  {
    var mimes := Mimes(offered);
    if k > 0 {
      assert !Same(mimes[0], mimes[k]);
      var rest := offered[1..];
      forall i, j | 0 <= i < j < |rest| ensures !Same(Mimes(rest)[i], Mimes(rest)[j]) {
        assert !Same(mimes[i + 1], mimes[j + 1]);
      }
      BlobForItsOwnType(rest, k - 1);
    }
  }

  /** A paste is answered exactly when the type was advertised, whatever the spelling. */
  lemma {:induction false} BlobForAnyAdvertisedSpelling(offered: seq<Flavor>, wanted: string)
    ensures BlobFor(offered, wanted).Some? <==> HasMime(offered, wanted, Same)
  {
    if offered != [] {
      BlobForAnyAdvertisedSpelling(offered[1..], wanted);
      assert offered == [offered[0]] + offered[1..];
    }
  }
}
