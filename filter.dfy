/**
 * The blacklist filter of the SDK (mail2sdk.go, `filterDomains`): keep,
 * in order, the domains that contain no blacklist entry as a
 * case-insensitive substring.
 */
module DomainFilter {
  import opened AsciiStrings

  /** Some blacklist entry occurs in `d`, ignoring ASCII case. */
  predicate Blocked(d: Domain, blacklist: seq<Bytes>)
  {
    exists bl :: bl in blacklist && MatchesIgnoreCase(d, bl)
  }

  /** The domains `filterDomains` keeps, appended in input order. */
  function Filter(domains: seq<Domain>, blacklist: seq<Bytes>): (r: seq<Domain>)
    ensures |r| <= |domains|
    decreases |domains|
  {
    if domains == [] then []
    else
      var last := domains[|domains| - 1];
      Filter(domains[..|domains| - 1], blacklist) + (if Blocked(last, blacklist) then [] else [last])
  }

  /** The filter keeps exactly the unblocked domains, and never more of them than it was given. */
  lemma {:induction false} FilterMembers(domains: seq<Domain>, blacklist: seq<Bytes>)
    ensures forall d :: d in Filter(domains, blacklist) <==> d in domains && !Blocked(d, blacklist)
    ensures |Filter(domains, blacklist)| <= |domains|
    decreases |domains|
  {
    if domains != [] {
      var init := domains[..|domains| - 1];
      FilterMembers(init, blacklist);
      assert domains == init + [domains[|domains| - 1]];
    }
  }

  /** `filterDomains`: returns its input as is when the blacklist is empty. */
  method FilterDomains(domains: seq<Domain>, blacklist: seq<Bytes>) returns (filtered: seq<Domain>)
    ensures filtered == Filter(domains, blacklist)
    ensures |blacklist| == 0 ==> filtered == domains
  {
    if |blacklist| == 0 {
      FilterWithoutBlacklist(domains);
      return domains;
    }
    filtered := [];
    for i := 0 to |domains|
      invariant filtered == Filter(domains[..i], blacklist)
    {
      var domain := domains[i];
      var blocked := false;
      var j := 0;
      while j < |blacklist|
        invariant 0 <= j <= |blacklist|
        invariant !blocked
        invariant forall k :: 0 <= k < j ==> !MatchesIgnoreCase(domain, blacklist[k])
      {
        var hit := ContainsIgnoreCase(domain, blacklist[j]);
        if hit {
          assert blacklist[j] in blacklist;
          blocked := true;
          break;
        }
        j := j + 1;
      }
      assert blocked <==> Blocked(domain, blacklist);
      if !blocked {
        filtered := filtered + [domain];
      }
      assert domains[..i + 1][..i] == domains[..i];
    }
    assert domains[..|domains|] == domains;
  }

  /** With no blacklist every domain survives, in its place. */
  lemma {:induction false} FilterWithoutBlacklist(domains: seq<Domain>)
    ensures Filter(domains, []) == domains
    decreases |domains|
  {
    if domains != [] {
      var init := domains[..|domains| - 1];
      FilterWithoutBlacklist(init);
      assert !Blocked(domains[|domains| - 1], []);
      assert domains == init + [domains[|domains| - 1]];
    }
  }

  /** An empty blacklist entry occurs in every domain, so it blocks them all. */
  lemma EmptyEntryBlocksAll(domains: seq<Domain>, blacklist: seq<Bytes>)
    requires [] in blacklist
    ensures Filter(domains, blacklist) == []
  {
    forall d | d in domains
      ensures Blocked(d, blacklist)
    {
      assert OccursAt(Lower(d), Lower([]), 0);
      assert MatchesIgnoreCase(d, []);
    }
    FilterMembers(domains, blacklist);
  }

  /** Filtering distributes over concatenation, so it keeps the input order. */
  lemma {:induction false} FilterAppend(a: seq<Domain>, b: seq<Domain>, blacklist: seq<Bytes>)
    ensures Filter(a + b, blacklist) == Filter(a, blacklist) + Filter(b, blacklist)
    decreases |b|
  {
    if b == [] {
      assert a + b == a;
    } else {
      var init := b[..|b| - 1];
      var last := b[|b| - 1];
      FilterAppend(a, init, blacklist);
      assert (a + b)[..|a + b| - 1] == a + init;
      assert (a + b)[|a + b| - 1] == last;
    }
  }

  /** A filtered list has nothing left to filter. */
  lemma {:induction false} FilterIdempotent(domains: seq<Domain>, blacklist: seq<Bytes>)
    ensures Filter(Filter(domains, blacklist), blacklist) == Filter(domains, blacklist)
    decreases |domains|
  {
    if domains != [] {
      var init := domains[..|domains| - 1];
      var last := domains[|domains| - 1];
      FilterIdempotent(init, blacklist);
      var tail := if Blocked(last, blacklist) then [] else [last];
      FilterAppend(Filter(init, blacklist), tail, blacklist);
      if !Blocked(last, blacklist) {
        assert Filter([last], blacklist) == Filter([], blacklist) + [last] by {
          assert [last][..0] == [];
        }
      }
    }
  }

  /** Filtering `["a.eu.org", "b.com"]` by `["EU.ORG"]` leaves `["b.com"]`. */
  lemma FilterExample()
    ensures Filter([Ascii("a.eu.org"), Ascii("b.com")], [Ascii("EU.ORG")]) == [Ascii("b.com")]
  {
    var a, b, bl := Ascii("a.eu.org"), Ascii("b.com"), Ascii("EU.ORG");
    assert Lower(bl) == Ascii("eu.org");
    assert Lower(a) == a;
    assert OccursAt(Lower(a), Lower(bl), 2);
    assert Blocked(a, [bl]) by {
      assert MatchesIgnoreCase(a, bl);
    }
    assert !Blocked(b, [bl]) by {
      assert |Lower(b)| < |Lower(bl)|;
    }
    var ds := [a, b];
    assert ds[..1] == [a];
    assert [a][..0] == [];
  }
}
