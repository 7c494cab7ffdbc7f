/**
 * Mailbox creation in the SDK (mail2sdk.go, `CreateMailbox` and
 * `CreateMailboxWithDomains`) with the HTTP exchange taken out: the mode
 * switch, the choice of domain (explicit, selected from a filtered pool,
 * or left to the server) and the request body that results. The domain
 * list the service would return is an input, as are the random draws.
 */
module MailboxCreation {
  import opened Wrappers
  import opened AsciiStrings
  import opened DomainFilter
  import opened DomainSelection

  /** The generation modes a caller passes. */
  const ModeAuto := 0
  const ModeRandom := 1
  const ModeChinese := 2
  const ModeEnglish := 3

  /** The concrete modes the service understands. */
  datatype ApiMode = Random | Chinese | English
  {
    /** The value sent as `"mode"`. */
    function Wire(): string
    {
      match this
      case Random => "random"
      case Chinese => "chinese"
      case English => "english"
    }
  }

  /** The modes automatic mixing draws from, in the order of the source. */
  const AutoModes: seq<ApiMode> := [Random, Chinese, English]

  /** The `switch mode` of `CreateMailbox`; `roll` is the draw for the automatic mode. */
  function ResolveMode(mode: int, roll: nat): (r: ApiMode)
    ensures mode == ModeRandom ==> r.Wire() == "random"
    ensures mode == ModeChinese ==> r.Wire() == "chinese"
    ensures mode == ModeEnglish ==> r.Wire() == "english"
    ensures (mode < ModeAuto || mode > ModeEnglish) ==> r.Wire() == "random"
    ensures r.Wire() in {"random", "chinese", "english"}
  {
    if mode == ModeAuto then AutoModes[roll % 3]
    else if mode == ModeRandom then Random
    else if mode == ModeChinese then Chinese
    else if mode == ModeEnglish then English
    else Random
  }

  /** Automatic mixing can produce each of the three concrete modes. */
  lemma AutoModeReachesEvery(m: ApiMode)
    ensures exists roll: nat :: ResolveMode(ModeAuto, roll) == m
  {
    var roll: nat := match m case Random => 0 case Chinese => 1 case English => 2;
    assert ResolveMode(ModeAuto, roll) == m;
  }

  /** Only automatic mixing consults the random draw. */
  lemma ExplicitModeIgnoresRoll(mode: int, roll1: nat, roll2: nat)
    requires mode != ModeAuto
    ensures ResolveMode(mode, roll1) == ResolveMode(mode, roll2)
  {
  }

  /** One record of the service's domain list. */
  datatype DomainRecord = DomainRecord(name: Domain, enabled: bool)

  /** The names `GetDomains` returns: the enabled records, in order. */
  function EnabledNames(records: seq<DomainRecord>): (r: seq<Domain>)
    ensures |r| <= |records|
    decreases |records|
  {
    if records == [] then []
    else
      var last := records[|records| - 1];
      EnabledNames(records[..|records| - 1]) + (if last.enabled then [last.name] else [])
  }

  /** A name is listed exactly when some enabled record carries it. */
  lemma {:induction false} EnabledNamesMembers(records: seq<DomainRecord>)
    ensures forall d :: d in EnabledNames(records) <==> DomainRecord(d, true) in records
    ensures |EnabledNames(records)| <= |records|
    decreases |records|
  {
    if records != [] {
      var init := records[..|records| - 1];
      EnabledNamesMembers(init);
      assert records == init + [records[|records| - 1]];
    }
  }

  /** The projection loop of `GetDomains` over the decoded records. */
  method EnabledDomains(records: seq<DomainRecord>) returns (domains: seq<Domain>)
    ensures domains == EnabledNames(records)
  {
    domains := [];
    for i := 0 to |records|
      invariant domains == EnabledNames(records[..i])
    {
      if records[i].enabled {
        domains := domains + [records[i].name];
      }
      assert records[..i + 1][..i] == records[..i];
    }
    assert records[..|records|] == records;
  }

  /** Why no request is sent. */
  datatype CreateError =
    | DomainListFailed(cause: string)  // fetching the domain list failed
    | NoAvailableDomain                // the blacklist removed every domain

  /** How the domain of the request is decided. */
  datatype DomainChoice =
    | Unset                          // no "domain" field: the service picks
    | Pinned(domain: Domain)         // the caller's own domain, used as is
    | SelectFrom(pool: seq<Domain>)  // ask the selector to pick from this filtered pool

  /** The body of `POST /api/mailbox`. */
  datatype CreateRequest = CreateRequest(mode: ApiMode, domain: Option<Domain>)

  /** The body `CreateMailbox` builds: `"domain"` only when the domain is not empty. */
  function BuildRequest(mode: ApiMode, domain: Domain): (r: CreateRequest)
    ensures r.mode == mode
    ensures r.domain == None <==> domain == []
    ensures r.domain.Some? ==> r.domain.value == domain
  {
    CreateRequest(mode, if domain == [] then None else Some(domain))
  }

  /** The decision of `CreateMailbox`; `fetched` is what `GetDomains` would return. */
  function ResolveDomain(domain: Domain, blacklist: seq<Bytes>,
                         fetched: Result<seq<DomainRecord>, string>): (r: Result<DomainChoice, CreateError>)
    ensures r.Failure? ==> domain == [] && |blacklist| > 0
    ensures r == Success(Unset) <==> domain == [] && |blacklist| == 0
    ensures r.Success? && r.value.SelectFrom? ==> |r.value.pool| > 0
  {
    if domain != [] then Success(Pinned(domain))
    else if |blacklist| == 0 then Success(Unset)
    else if fetched.Failure? then Failure(DomainListFailed(fetched.error))
    else
      var filtered := Filter(EnabledNames(fetched.value), blacklist);
      if |filtered| == 0 then Failure(NoAvailableDomain) else Success(SelectFrom(filtered))
  }

  /** The decision of `CreateMailboxWithDomains`. */
  function ResolvePool(domains: seq<Domain>, blacklist: seq<Bytes>,
                       fetched: Result<seq<DomainRecord>, string>): (r: Result<DomainChoice, CreateError>)
    ensures |domains| > 0 && r.Success? ==> r.value.SelectFrom?
    ensures r.Success? ==> !r.value.Pinned?
    ensures r.Success? && r.value.SelectFrom? ==> |r.value.pool| > 0
  {
    if |domains| == 0 then ResolveDomain([], blacklist, fetched)
    else
      var filtered := Filter(domains, blacklist);
      if |filtered| == 0 then Failure(NoAvailableDomain) else Success(SelectFrom(filtered))
  }

  /** The request (or error) and the selector's table once a decision is carried out. */
  function Outcome(m: Counters, choice: Result<DomainChoice, CreateError>, mode: ApiMode,
                   roll: nat): (r: (Result<CreateRequest, CreateError>, Counters))
    ensures r.0.Failure? <==> choice.Failure?
    ensures choice.Failure? ==> r.0.error == choice.error && r.1 == m
    ensures r.0.Success? ==> r.0.value.mode == mode
    ensures choice.Success? && !choice.value.SelectFrom? ==> r.1 == m
  {
    match choice
    case Failure(e) => (Failure(e), m)
    case Success(Unset) => (Success(BuildRequest(mode, [])), m)
    case Success(Pinned(d)) => (Success(BuildRequest(mode, d)), m)
    case Success(SelectFrom(pool)) => (Success(BuildRequest(mode, Pick(m, pool, roll))), After(m, pool, roll))
  }

  /**
   * `CreateMailbox` up to the HTTP call: `sel` is the process-wide selector,
   * `fetched` the answer of the domain list request, `modeRoll` and
   * `pickRoll` the random draws.
   */
  method CreateMailbox(sel: DomainSelector, mode: int, domain: Domain, blacklist: seq<Bytes>,
                       fetched: Result<seq<DomainRecord>, string>, modeRoll: nat, pickRoll: nat)
    returns (r: Result<CreateRequest, CreateError>)
    requires sel.Valid()
    modifies sel
    ensures sel.Valid()
    ensures (r, sel.counters)
      == Outcome(old(sel.counters), ResolveDomain(domain, blacklist, fetched), ResolveMode(mode, modeRoll), pickRoll)
  {
    var apiMode := ResolveMode(mode, modeRoll);
    var chosen := domain;
    if domain == [] && |blacklist| > 0 {
      if fetched.Failure? {
        return Failure(DomainListFailed(fetched.error));
      }
      var allDomains := EnabledDomains(fetched.value);
      var filtered := FilterDomains(allDomains, blacklist);
      if |filtered| == 0 {
        return Failure(NoAvailableDomain);
      }
      chosen := sel.SelectDomain(filtered, pickRoll);
    }
    r := Success(BuildRequest(apiMode, chosen));
  }

  /** `CreateMailboxWithDomains` up to the HTTP call. */
  method CreateMailboxWithDomains(sel: DomainSelector, mode: int, domains: seq<Domain>, blacklist: seq<Bytes>,
                                  fetched: Result<seq<DomainRecord>, string>, modeRoll: nat, pickRoll: nat)
    returns (r: Result<CreateRequest, CreateError>)
    requires sel.Valid()
    modifies sel
    ensures sel.Valid()
    ensures (r, sel.counters)
      == Outcome(old(sel.counters), ResolvePool(domains, blacklist, fetched), ResolveMode(mode, modeRoll), pickRoll)
  {
    ghost var plan := ResolvePool(domains, blacklist, fetched);
    ghost var apiMode := ResolveMode(mode, modeRoll);
    if |domains| == 0 {
      assert plan == ResolveDomain([], blacklist, fetched);
      r := CreateMailbox(sel, mode, [], blacklist, fetched, modeRoll, pickRoll);
      return;
    }
    var filtered := FilterDomains(domains, blacklist);
    if |filtered| == 0 {
      assert plan == Failure(NoAvailableDomain);
      return Failure(NoAvailableDomain);
    }
    assert plan == Success(SelectFrom(filtered));
    var domain := sel.SelectDomain(filtered, pickRoll);
    ghost var afterSelect := sel.counters;
    SelectedDomainIsSent(afterSelect, domain, fetched, apiMode, pickRoll);
    r := CreateMailbox(sel, mode, domain, [], fetched, modeRoll, pickRoll);
    assert (r, sel.counters) == (Success(BuildRequest(apiMode, domain)), afterSelect);
  }

  /** The selector's pick, passed on with no blacklist, is what the request carries. */
  lemma SelectedDomainIsSent(m: Counters, d: Domain, fetched: Result<seq<DomainRecord>, string>, mode: ApiMode, roll: nat)
    ensures Outcome(m, ResolveDomain(d, [], fetched), mode, roll) == (Success(BuildRequest(mode, d)), m)
  {
  }

  /** A non-empty explicit domain is sent as is: no blacklist, no domain list, no selector. */
  lemma ExplicitDomainBypassesBlacklist(m: Counters, domain: Domain, blacklist: seq<Bytes>,
                                        fetched: Result<seq<DomainRecord>, string>, mode: ApiMode, roll: nat)
    requires domain != []
    ensures Outcome(m, ResolveDomain(domain, blacklist, fetched), mode, roll)
         == (Success(CreateRequest(mode, Some(domain))), m)
  {
  }

  /** Neither a domain nor a blacklist: the request has no `"domain"` and the table is untouched. */
  lemma NoDomainNoBlacklistOmitsDomain(m: Counters, fetched: Result<seq<DomainRecord>, string>,
                                       mode: ApiMode, roll: nat)
    ensures Outcome(m, ResolveDomain([], [], fetched), mode, roll) == (Success(CreateRequest(mode, None)), m)
  {
  }

  /** The domain list is consulted only for an empty domain with a non-empty blacklist. */
  lemma FetchOnlyWhenNeeded(domain: Domain, blacklist: seq<Bytes>,
                            f1: Result<seq<DomainRecord>, string>, f2: Result<seq<DomainRecord>, string>)
    requires domain != [] || |blacklist| == 0
    ensures ResolveDomain(domain, blacklist, f1) == ResolveDomain(domain, blacklist, f2)
  {
  }

  /** A non-empty pool never needs the domain list and never fails for another reason. */
  lemma PoolIgnoresFetched(domains: seq<Domain>, blacklist: seq<Bytes>,
                           f1: Result<seq<DomainRecord>, string>, f2: Result<seq<DomainRecord>, string>)
    requires |domains| > 0
    ensures ResolvePool(domains, blacklist, f1) == ResolvePool(domains, blacklist, f2)
    ensures ResolvePool(domains, blacklist, f1).Success? || ResolvePool(domains, blacklist, f1) == Failure(NoAvailableDomain)
  {
  }

  /** A non-empty pool fails exactly when the blacklist blocks every domain in it. */
  lemma PoolExhaustedIffAllBlocked(domains: seq<Domain>, blacklist: seq<Bytes>,
                                   fetched: Result<seq<DomainRecord>, string>)
    requires |domains| > 0
    ensures ResolvePool(domains, blacklist, fetched) == Failure(NoAvailableDomain)
        <==> forall d :: d in domains ==> Blocked(d, blacklist)
  {
    FilterMembers(domains, blacklist);
    var filtered := Filter(domains, blacklist);
    if |filtered| > 0 {
      assert filtered[0] in filtered;
    }
  }

  /** With a blacklist and no domain, failure to fetch the list is reported as such. */
  lemma FetchFailureReported(blacklist: seq<Bytes>, cause: string)
    requires |blacklist| > 0
    ensures ResolveDomain([], blacklist, Failure(cause)) == Failure(DomainListFailed(cause))
  {
  }

  /** With a blacklist and no domain, the fetched list fails exactly when every enabled domain is blocked. */
  lemma FetchedExhaustedIffAllBlocked(blacklist: seq<Bytes>, records: seq<DomainRecord>)
    requires |blacklist| > 0
    ensures ResolveDomain([], blacklist, Success(records)) == Failure(NoAvailableDomain)
        <==> forall d :: d in EnabledNames(records) ==> Blocked(d, blacklist)
  {
    FilterMembers(EnabledNames(records), blacklist);
    var filtered := Filter(EnabledNames(records), blacklist);
    if |filtered| > 0 {
      assert filtered[0] in filtered;
    }
  }

  /** An error sends no request and leaves the usage counts alone. */
  lemma FailureKeepsTable(m: Counters, choice: Result<DomainChoice, CreateError>, mode: ApiMode, roll: nat)
    requires choice.Failure?
    ensures Outcome(m, choice, mode, roll) == (Failure(choice.error), m)
  {
  }

  /**
   * When a pool is filtered and handed to the selector, the request's
   * domain is an unblocked pool member (or, on the selector's one-element
   * fast path, that member; it is omitted only if it is the empty string)
   * and no unblocked member was used less.
   */
  lemma {:induction false} PoolSelectionIsAllowedAndLeastUsed(m: Counters, domains: seq<Domain>, blacklist: seq<Bytes>,
                                                             fetched: Result<seq<DomainRecord>, string>,
                                                             mode: ApiMode, roll: nat)
    requires |domains| > 0
    requires ResolvePool(domains, blacklist, fetched).Success?
    ensures var (r, _) := Outcome(m, ResolvePool(domains, blacklist, fetched), mode, roll);
      var p := Pick(m, Filter(domains, blacklist), roll);
      && r == Success(BuildRequest(mode, p))
      && p in domains && !Blocked(p, blacklist)
      && forall d :: d in domains && !Blocked(d, blacklist) ==> Count(m, p) <= Count(m, d)
  {
    var pool := Filter(domains, blacklist);
    assert ResolvePool(domains, blacklist, fetched) == Success(SelectFrom(pool));
    FilteredPickIsAllowedAndLeastUsed(m, domains, blacklist, roll);
  }

  /**
   * With no domain and a blacklist, the selector picks from the enabled,
   * unblocked names of the fetched list, and none of those was used less.
   */
  lemma {:induction false} FetchedSelectionIsEnabledAndLeastUsed(m: Counters, blacklist: seq<Bytes>,
                                                                records: seq<DomainRecord>, mode: ApiMode, roll: nat)
    requires ResolveDomain([], blacklist, Success(records)).Success?
    requires |blacklist| > 0
    ensures var (r, _) := Outcome(m, ResolveDomain([], blacklist, Success(records)), mode, roll);
      var p := Pick(m, Filter(EnabledNames(records), blacklist), roll);
      && r == Success(BuildRequest(mode, p))
      && DomainRecord(p, true) in records && !Blocked(p, blacklist)
      && forall d :: DomainRecord(d, true) in records && !Blocked(d, blacklist) ==> Count(m, p) <= Count(m, d)
  {
    var names := EnabledNames(records);
    assert ResolveDomain([], blacklist, Success(records)) == Success(SelectFrom(Filter(names, blacklist)));
    FilteredPickIsAllowedAndLeastUsed(m, names, blacklist, roll);
    EnabledNamesMembers(records);
  }

  /** The pick from a non-empty filtered list is an unblocked member, and no unblocked member was used less. */
  lemma FilteredPickIsAllowedAndLeastUsed(m: Counters, names: seq<Domain>, blacklist: seq<Bytes>, roll: nat)
    requires |Filter(names, blacklist)| > 0
    ensures var p := Pick(m, Filter(names, blacklist), roll);
      && p in names && !Blocked(p, blacklist)
      && forall d :: d in names && !Blocked(d, blacklist) ==> Count(m, p) <= Count(m, d)
  {
    var pool := Filter(names, blacklist);
    var p := Pick(m, pool, roll);
    PickIsLeastInPool(m, pool, roll);
    FilterMembers(names, blacklist);
    forall d | d in names && !Blocked(d, blacklist)
      ensures Count(m, p) <= Count(m, d)
    {
      assert d in pool;
      var i :| 0 <= i < |pool| && pool[i] == d;
    }
  }

  /** Any pick from a non-empty pool is one of its least used members, including the single-domain shortcut. */
  lemma PickIsLeastInPool(m: Counters, pool: seq<Domain>, roll: nat)
    requires |pool| > 0
    ensures Pick(m, pool, roll) in pool
    ensures forall i :: 0 <= i < |pool| ==> Count(m, Pick(m, pool, roll)) <= Count(m, pool[i])
  {
    if |pool| == 1 {
      assert Pick(m, pool, roll) == pool[0];
    } else {
      PickIsLeastUsed(m, pool, roll);
    }
  }

  /**
   * Pool `["a.com", "b.com"]` with blacklist `["a.com"]` and automatic mode:
   * the request asks for `b.com` in a concrete mode, and since one domain
   * survives, the selector's table is not touched.
   */
  lemma PoolScenario(m: Counters, fetched: Result<seq<DomainRecord>, string>, modeRoll: nat, pickRoll: nat)
    ensures var mode := ResolveMode(ModeAuto, modeRoll);
      Outcome(m, ResolvePool([Ascii("a.com"), Ascii("b.com")], [Ascii("a.com")], fetched), mode, pickRoll)
        == (Success(CreateRequest(mode, Some(Ascii("b.com")))), m)
  {
    var a, b := Ascii("a.com"), Ascii("b.com");
    assert Lower(a) == a;
    assert OccursAt(Lower(a), Lower(a), 0);
    assert Blocked(a, [a]) by {
      assert MatchesIgnoreCase(a, a);
    }
    assert !Blocked(b, [a]) by {
      assert Lower(b) == b;
      assert b[0] != a[0];
      forall i | 0 <= i <= |Lower(b)| - |Lower(a)|
        ensures !OccursAt(Lower(b), Lower(a), i)
      {
        assert i == 0;
        assert Lower(b)[0..5][0] != Lower(a)[0];
      }
    }
    var ds := [a, b];
    assert ds[..1] == [a];
    var none: seq<Domain> := [];
    assert [a][..0] == none;
    assert Filter([a], [a]) == Filter(none, [a]) == none;
    assert Filter(ds, [a]) == Filter([a], [a]) + [b];
  }
}
