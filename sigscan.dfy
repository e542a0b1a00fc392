/** The signature scanner: a forward byte-for-byte search for an exact
    pattern, with an optional delegate that may discard a match. The search
    runs over the bytes read from the target starting at the scan's start
    address; the result is an offset relative to that start address, or
    UINT64_MAX when no match is accepted. */
module SigScan {
  import opened Bytes
  import opened Wrappers

  /** SigScanDelegate: called with the offset of a match, the running index
      of that match among all byte-identical matches seen so far, and the
      matched bytes; returning false discards the match. */
  type Delegate = (nat, nat, seq<byte>) -> bool

  /** The signature occurs at offset p of the region. */
  predicate MatchAt(region: seq<byte>, sig: seq<byte>, p: nat) {
    p + |sig| <= |region| && region[p..p + |sig|] == sig
  }

  /** How many byte-identical matches start before offset p. */
  function MatchesBefore(region: seq<byte>, sig: seq<byte>, p: nat): (n: nat)
    ensures n <= p
  {
    if p == 0 then 0
    else MatchesBefore(region, sig, p - 1) + (if MatchAt(region, sig, p - 1) then 1 else 0)
  }

  /** A match that the delegate (if any) lets through. */
  predicate Accepted(region: seq<byte>, sig: seq<byte>, scanFunc: Option<Delegate>, p: nat) {
    && MatchAt(region, sig, p)
    && (scanFunc.None? || scanFunc.value(p, MatchesBefore(region, sig, p), sig))
  }

  /** The search from offset p onward; index counts the matches before p. */
  function ScanFrom(region: seq<byte>, sig: seq<byte>, scanFunc: Option<Delegate>, p: nat, index: nat): (r: u64)
    requires |region| < UINT64_MAX
    decreases |region| + 1 - p
  {
    if p + |sig| > |region| then UINT64_MAX
    else if region[p..p + |sig|] == sig then
      if scanFunc.None? || scanFunc.value(p, index, sig) then p
      else ScanFrom(region, sig, scanFunc, p + 1, index + 1)
    else
      ScanFrom(region, sig, scanFunc, p + 1, index)
  }

  /** The search from p finds the first accepted match at or after p, or
      reports UINT64_MAX when there is none. */
  lemma {:induction false} ScanFromMeaning(region: seq<byte>, sig: seq<byte>, scanFunc: Option<Delegate>, p: nat, index: nat)
    requires |region| < UINT64_MAX
    requires index == MatchesBefore(region, sig, p)
    ensures ScanFrom(region, sig, scanFunc, p, index) == UINT64_MAX ==>
              forall q: nat :: p <= q ==> !Accepted(region, sig, scanFunc, q)
    ensures ScanFrom(region, sig, scanFunc, p, index) != UINT64_MAX ==>
              && p <= ScanFrom(region, sig, scanFunc, p, index)
              && Accepted(region, sig, scanFunc, ScanFrom(region, sig, scanFunc, p, index))
              && forall q: nat :: p <= q < ScanFrom(region, sig, scanFunc, p, index) ==> !Accepted(region, sig, scanFunc, q)
    decreases |region| + 1 - p
  {
    var r := ScanFrom(region, sig, scanFunc, p, index);
    if p + |sig| > |region| {
      assert r == UINT64_MAX;
      assert forall q: nat :: p <= q ==> !MatchAt(region, sig, q);
    } else if region[p..p + |sig|] == sig && (scanFunc.None? || scanFunc.value(p, index, sig)) {
      assert r == p;
      assert Accepted(region, sig, scanFunc, p);
    } else {
      var index' := if region[p..p + |sig|] == sig then index + 1 else index;
      assert r == ScanFrom(region, sig, scanFunc, p + 1, index');
      assert MatchesBefore(region, sig, p + 1) == index';
      assert !Accepted(region, sig, scanFunc, p);
      ScanFromMeaning(region, sig, scanFunc, p + 1, index');
    }
  }

  /** No offset of the region holds a match the delegate accepts. */
  ghost predicate NoneAccepted(region: seq<byte>, sig: seq<byte>, scanFunc: Option<Delegate>) {
    forall q: nat :: !Accepted(region, sig, scanFunc, q)
  }

  /** executeSigScan over the bytes read from the start address. */
  function ExecuteSigScan(region: seq<byte>, sig: seq<byte>, scanFunc: Option<Delegate>): (r: u64)
    requires |region| < UINT64_MAX
    ensures r == UINT64_MAX <==> NoneAccepted(region, sig, scanFunc)
    ensures r != UINT64_MAX ==>
              && Accepted(region, sig, scanFunc, r)
              && forall q: nat :: q < r ==> !Accepted(region, sig, scanFunc, q)
  {
    ScanFromMeaning(region, sig, scanFunc, 0, 0);
    ScanFrom(region, sig, scanFunc, 0, 0)
  }

  /** Without a delegate, a region holding the signature at exactly one
      offset yields that offset. */
  lemma SingleOccurrenceFound(region: seq<byte>, sig: seq<byte>, p: nat)
    requires |region| < UINT64_MAX
    requires MatchAt(region, sig, p)
    requires forall q: nat :: q != p ==> !MatchAt(region, sig, q)
    ensures ExecuteSigScan(region, sig, None) == p
  {
    var r := ExecuteSigScan(region, sig, None);
    assert Accepted(region, sig, None, p);
  }

  /** A delegate that rejects everything makes the scan exhaust the region
      and report UINT64_MAX, even when byte-identical matches exist. */
  lemma RejectingDelegateNotFound(region: seq<byte>, sig: seq<byte>, scanFunc: Delegate)
    requires |region| < UINT64_MAX
    requires forall off: nat, index: nat, bytes: seq<byte> :: !scanFunc(off, index, bytes)
    ensures ExecuteSigScan(region, sig, Some(scanFunc)) == UINT64_MAX
  {
  }
}
