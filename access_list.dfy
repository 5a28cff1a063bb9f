/**
 * The purge access list of the VCL generator (getTransformedAccessList in
 * Model/Varnish/VCLGenerator.php): addresses are trimmed, empty ones dropped,
 * and the rest wrapped as `['ip' => $ip]` entries.
 */
module AccessList {
  import opened PhpStrings
  import opened Sequences

  /** One purge access-list entry, `['ip' => $ip]`. */
  datatype AccessEntry = AccessEntry(ip: string)

  /** What one raw address adds: its trimmed form, unless that is empty. */
  function Kept(ip: string): (r: seq<AccessEntry>)
    ensures |r| <= 1
    ensures r == [] <==> Trim(ip) == ""
    ensures r != [] ==> r[0].ip == Trim(ip)
  {
    var t := Trim(ip);
    if |t| > 0 then [AccessEntry(t)] else []
  }

  /** The transformed access list of the addresses `ips`, in input order. */
  function KeptEntries(ips: seq<string>): (r: seq<AccessEntry>)
    ensures |r| <= |ips|
  {
    if ips == [] then []
    else KeptEntries(ips[..|ips| - 1]) + Kept(ips[|ips| - 1])
  }

  /** Every entry holds a non-empty address without surrounding white space. */
  lemma {:induction false} KeptEntriesClean(ips: seq<string>)
    ensures forall e <- KeptEntries(ips) :: e.ip != "" && IsTrimmed(e.ip)
  {
    if ips != [] {
      KeptEntriesClean(ips[..|ips| - 1]);
    }
  }

  /** getTransformedAccessList: trims every address and keeps the non-empty ones as entries. */
  method TransformedAccessList(accessList: seq<string>) returns (result: seq<AccessEntry>)
    ensures result == KeptEntries(accessList)
  {
    result := [];
    var i := 0;
    while i < |accessList|
      invariant 0 <= i <= |accessList|
      invariant result == KeptEntries(accessList[..i])
    {
      var ip := Trim(accessList[i]);
      KeptStep(accessList, i);
      if |ip| > 0 {
        result := result + [AccessEntry(ip)];
      }
      i := i + 1;
    }
    assert accessList[..i] == accessList;
  }

  /** The entries of the first `i + 1` addresses: those of the first `i`, then the trimmed address `i` unless it is blank. */
  lemma KeptStep(ips: seq<string>, i: nat)
    requires i < |ips|
    ensures KeptEntries(ips[..i + 1])
      == KeptEntries(ips[..i]) + (if |Trim(ips[i])| > 0 then [AccessEntry(Trim(ips[i]))] else [])
  {
    assert ips[..i + 1] == ips[..i] + [ips[i]];
    KeptEntriesSnoc(ips[..i], ips[i]);
  }

  /** Appending one address appends what that address alone gives. */
  lemma KeptEntriesSnoc(xs: seq<string>, x: string)
    ensures KeptEntries(xs + [x]) == KeptEntries(xs) + Kept(x)
  {
    var w := xs + [x];
    assert w[..|w| - 1] == xs;
  }

  /** The transform distributes over concatenation: each address is handled on its own, in order. */
  lemma {:induction false} KeptEntriesConcat(xs: seq<string>, ys: seq<string>)
    ensures KeptEntries(xs + ys) == KeptEntries(xs) + KeptEntries(ys)
    decreases |ys|
  {
    if ys == [] {
      assert xs + ys == xs;
    } else {
      var init, last := ys[..|ys| - 1], ys[|ys| - 1];
      assert ys == init + [last];
      assert xs + ys == (xs + init) + [last];
      KeptEntriesSnoc(xs + init, last);
      KeptEntriesSnoc(init, last);
      KeptEntriesConcat(xs, init);
      AppendAssoc(KeptEntries(xs), KeptEntries(init), Kept(last));
    }
  }

  /** Addresses that trim to the empty string. */
  function BlankCount(ips: seq<string>): nat {
    if ips == [] then 0 else BlankCount(ips[..|ips| - 1]) + (if Trim(ips[|ips| - 1]) == "" then 1 else 0)
  }

  /** Exactly the addresses that trim to empty are dropped. */
  lemma {:induction false} KeptEntriesLength(ips: seq<string>)
    ensures |KeptEntries(ips)| == |ips| - BlankCount(ips)
  {
    if ips != [] {
      KeptEntriesLength(ips[..|ips| - 1]);
    }
  }

  function Ips(entries: seq<AccessEntry>): (r: seq<string>)
    ensures |r| == |entries|
    ensures forall j | 0 <= j < |r| :: r[j] == entries[j].ip
  {
    if entries == [] then [] else Ips(entries[..|entries| - 1]) + [entries[|entries| - 1].ip]
  }

  lemma IpsConcat(a: seq<AccessEntry>, b: seq<AccessEntry>)
    ensures Ips(a + b) == Ips(a) + Ips(b)
  {
    assert forall j | 0 <= j < |a| + |b| :: (a + b)[j].ip == (Ips(a) + Ips(b))[j];
  }

  /** Some address of `ips` trims to `x`. */
  predicate TrimsTo(ips: seq<string>, x: string) {
    exists i | 0 <= i < |ips| :: Trim(ips[i]) == x
  }

  /**
   * The addresses of the transformed list are exactly the non-empty trimmed
   * forms of the input addresses.
   */
  lemma {:induction false} KeptEntriesMember(ips: seq<string>, x: string)
    ensures x in Ips(KeptEntries(ips)) <==> x != "" && TrimsTo(ips, x)
  {
    if ips != [] {
      var init, last := ips[..|ips| - 1], ips[|ips| - 1];
      assert ips == init + [last];
      TrimsToSnoc(init, last, x);
      var prior, added := KeptEntries(init), Kept(last);
      assert KeptEntries(ips) == prior + added;
      KeptEntriesMember(init, x);
      IpsConcat(prior, added);
      KeptMember(last, x);
    }
  }

  lemma KeptMember(ip: string, x: string)
    ensures x in Ips(Kept(ip)) <==> x != "" && Trim(ip) == x
  {
    if Kept(ip) != [] {
      assert Ips(Kept(ip)) == [Trim(ip)];
    }
  }

  lemma TrimsToSnoc(init: seq<string>, last: string, x: string)
    ensures TrimsTo(init + [last], x) <==> TrimsTo(init, x) || Trim(last) == x
  {
    var ips := init + [last];
    if TrimsTo(ips, x) {
      var i :| 0 <= i < |ips| && Trim(ips[i]) == x;
      if i < |init| {
        assert ips[i] == init[i];
      }
    }
    if TrimsTo(init, x) {
      var i :| 0 <= i < |init| && Trim(init[i]) == x;
      assert ips[i] == init[i];
    }
    if Trim(last) == x {
      assert ips[|init|] == last;
    }
  }

  /** An address that is kept is kept as it is the second time round. */
  lemma KeptIdempotent(x: string)
    ensures KeptEntries(Ips(Kept(x))) == Kept(x)
  {
    if Kept(x) != [] {
      TrimIdempotent(x);
      assert Ips(Kept(x)) == [] + [Trim(x)];
    }
  }

  /** Feeding the transformed list back in changes nothing. */
  lemma {:induction false} KeptEntriesIdempotent(ips: seq<string>)
    ensures KeptEntries(Ips(KeptEntries(ips))) == KeptEntries(ips)
  {
    if ips != [] {
      var init, last := ips[..|ips| - 1], ips[|ips| - 1];
      var prior, added := KeptEntries(init), Kept(last);
      assert KeptEntries(ips) == prior + added;
      KeptEntriesIdempotent(init);
      IpsConcat(prior, added);
      KeptEntriesConcat(Ips(prior), Ips(added));
      KeptIdempotent(last);
    }
  }
}
