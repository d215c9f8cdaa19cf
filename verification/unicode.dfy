/** The UTF-16 terminator scan of the I/O layer (`unicode_len` in
    io-layer/unicode.c): the string ends at the first pair of zero units
    that starts at an even index. */
module Unicode {
  import opened Bytes

  /** A zero pair starts at `k`. */
  predicate ZeroPairAt(s: seq<U16>, k: nat)
  {
    k + 1 < |s| && s[k] == 0 && s[k + 1] == 0
  }

  /** The buffer holds a zero pair at an even index, which is what the
      scan needs in order to stop inside it. */
  predicate Terminated(s: seq<U16>)
  {
    exists k :: 0 <= k < |s| && k % 2 == 0 && ZeroPairAt(s, k)
  }

  /** The reference definition: the first even index from `from` on at
      which a zero pair starts. */
  ghost function FirstEvenPair(s: seq<U16>, from: nat): (r: nat)
    requires from % 2 == 0
    requires exists k :: k % 2 == 0 && k >= from && ZeroPairAt(s, k)
    decreases |s| - from
  {
    if ZeroPairAt(s, from) then from
    else
      var k :| k % 2 == 0 && k >= from && ZeroPairAt(s, k);
      assert k != from && k >= from + 2;
      FirstEvenPair(s, from + 2)
  }

  /** `unicode_len`: steps through the units two at a time until both the
      unit at the index and the one after it are zero. */
  method UnicodeLen(s: seq<U16>) returns (len: nat)
    requires Terminated(s)
    ensures len % 2 == 0
    ensures ZeroPairAt(s, len)
    ensures forall j :: 0 <= j < len && j % 2 == 0 ==> !ZeroPairAt(s, j)
    ensures len == FirstEvenPair(s, 0)
  {
    len := 0;
    ghost var k: nat :| k % 2 == 0 && ZeroPairAt(s, k);
    while !(s[len] == 0 && s[len + 1] == 0)
      invariant len % 2 == 0 && len <= k
      invariant forall j :: 0 <= j < len && j % 2 == 0 ==> !ZeroPairAt(s, j)
      invariant FirstEvenPair(s, len) == FirstEvenPair(s, 0)
      decreases k - len
    {
      assert len != k;
      len := len + 2;
    }
  }

  /** The scan never looks at a pair that starts at an odd index: a zero
      pair at index 1 is passed over, and the length reported includes it. */
  lemma OddPairSkipped()
    ensures ZeroPairAt([0x61, 0, 0, 0x62, 0, 0], 1)
    ensures ZeroPairAt([0x61, 0, 0, 0x62, 0, 0], 4)
    ensures FirstEvenPair([0x61, 0, 0, 0x62, 0, 0], 0) == 4
  {
    var s: seq<U16> := [0x61, 0, 0, 0x62, 0, 0];
    assert ZeroPairAt(s, 4);
    assert !ZeroPairAt(s, 0) && !ZeroPairAt(s, 2);
  }
}
