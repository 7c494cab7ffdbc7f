# Domain selection in the mail2sdk Go SDK

The Go SDK (`mail2sdk.go`) creates temporary mailboxes on a remote service.
Before it sends the creation request, it decides locally which mail domain
to ask for. This project models that decision and proves properties of it.
The decision has three parts:

- **The domain selector** (`DomainSelector`). This is a process-wide table
  of usage counts per domain. `selectDomain` first enters every domain it
  has not seen with a count of 0. It then collects the domains with the
  least count, picks one of them at random, and increments that domain's
  count. `resetCounter` drops one entry, `ResetDomainStats` empties the
  table, and `getStats` returns a copy of it.
- **The blacklist filter** (`filterDomains`). It keeps the domains that
  contain no blacklist entry as a substring, ignoring ASCII case. It uses
  its own `toLower` (which folds only `A`-`Z`), `indexSubstring` (a naive
  search) and `containsIgnoreCase`.
- **The creation decision** in `CreateMailbox` and
  `CreateMailboxWithDomains`:
  - the integer mode is mapped to the value the service expects;
  - the domain is either taken as given, or chosen by the selector from a
    filtered pool (the caller's own pool or the enabled domains the server
    lists), or left out so that the server chooses;
  - the result is either the request body (mode plus optional domain) or
    an error.

Modules, one per part plus two helpers:

| file | module | contents |
|---|---|---|
| `wrappers.dfy` | `Wrappers` | `Option`, `Result` |
| `strings.dfy` | `AsciiStrings` | Go strings as byte sequences, `toLower`, `indexSubstring`, `containsIgnoreCase` |
| `filter.dfy` | `DomainFilter` | `filterDomains` and the `Filter` function that specifies it |
| `selector.dfy` | `DomainSelection` | the specification of one selection (`Pick`, `After`) and the `DomainSelector` class |
| `mailbox.dfy` | `MailboxCreation` | the mode switch, the projection done by `GetDomains`, the domain decision, and both creation methods |

Modelling choices:

- **Strings.** Go strings are byte strings, and `toLower` and
  `indexSubstring` work byte by byte. A domain is therefore a `seq<byte>`
  over a `byte` newtype with values 0..255.
- **The selector.** `DomainSelector` is a class with a `counters: map`
  field that its methods update in place, as the Go methods do.
  `SelectDomain` keeps the source's two loops: entering unseen domains,
  then the minimum scan with the `-1` sentinel. The scan is the method
  `LeastUsed`. `SelectDomain` is proved against the pure functions `Pick`
  (the domain returned) and `After` (the new table) of the old table, and
  the properties of a selection are lemmas about those functions.
- **Randomness.** Each random draw is a `nat` parameter (`roll`). `Intn(n)`
  becomes `roll % n`.
- **The domain list.** The answer of the `GET /api/domains` request is an
  input, `fetched`: either the decoded records or an error text.
- **The creation decision.** It is a pure function, `ResolveDomain` or
  `ResolvePool`. It returns an error, `Unset`, `Pinned(domain)` or
  `SelectFrom(pool)`. `Outcome` turns that choice and the selector table
  into the request and the new table. The two creation methods run the
  steps in the order of the source against a `DomainSelector`, and each
  is proved equal to `Outcome` of its decision.

Edge cases kept from the code:

- **Default mode.** Mode 1 and every value outside 0-3, including
  negative ones, give `"random"`.
- **Empty input.** `selectDomain` on an empty list returns the empty
  string and leaves the table alone (`Pick` and `FastPathKeepsTable`).
- **One-element input.** A one-element input to `selectDomain` is returned
  without touching the table, so it is not counted.
- **Empty blacklist entry.** An empty blacklist entry blocks every domain,
  because `indexSubstring` finds an empty substring at 0.
- **Empty-string domain.** If the pool holds the empty string and the
  selector picks it, the request carries no `"domain"` field, exactly as
  when no domain is given. `PoolSelectionIsAllowedAndLeastUsed` states the
  request as `BuildRequest(mode, p)`, which covers this case.

## Model

| member | source | states |
|---|---|---|
| AsciiStrings.ToLower | mail2sdk.go:305-315 | the result has the input's length; every byte in `A`-`Z` is raised by exactly 32 and every other byte is unchanged |
| AsciiStrings.Lower | mail2sdk.go:305-315 | the string `toLower` builds: same length, no byte left in `A`-`Z`, every byte outside `A`-`Z` kept |
| AsciiStrings.LowerHasNoUpper | mail2sdk.go:305-315 | a lowered string has no byte in `A`-`Z` |
| AsciiStrings.LowerIdempotent | mail2sdk.go:305-315 | lowering twice is lowering once |
| AsciiStrings.LowerSlice | mail2sdk.go:305-315 | lowering works byte by byte: lowering a slice equals slicing the lowered string |
| AsciiStrings.IndexSubstring | mail2sdk.go:318-328 | returns -1 exactly when `sub` occurs nowhere in `s`; otherwise returns the least index at which it occurs; an empty `sub` gives 0 |
| AsciiStrings.ContainsIgnoreCase | mail2sdk.go:297-302 | true exactly when the lowered `substr` occurs in the lowered `s`; always true for an empty `substr`; true only when `substr` is no longer than `s` |
| AsciiStrings.OccursAtMatches | mail2sdk.go:297-302 | an exact occurrence is also a case-insensitive match |
| AsciiStrings.MatchesIgnoresCase | mail2sdk.go:297-302 | lowering either argument in advance does not change whether they match |
| DomainFilter.FilterDomains | mail2sdk.go:274-294 | the nested loop with its `blocked` flag and `break` computes `Filter`; an empty blacklist returns the input itself |
| DomainFilter.Filter | mail2sdk.go:274-294 | the domains that no blacklist entry matches, in input order; never longer than the input |
| DomainFilter.FilterMembers | mail2sdk.go:280-291 | a domain is kept exactly when it is in the input and no blacklist entry matches it ignoring case; nothing is added |
| DomainFilter.FilterWithoutBlacklist | mail2sdk.go:275-277 | with no blacklist every domain is kept, in order |
| DomainFilter.EmptyEntryBlocksAll | mail2sdk.go:284-321 | an empty blacklist entry removes every domain |
| DomainFilter.FilterAppend | mail2sdk.go:280-291 | filtering is decided domain by domain and keeps order: filtering a concatenation concatenates the filtered parts |
| DomainFilter.FilterIdempotent | mail2sdk.go:274-294 | filtering an already filtered list changes nothing |
| DomainFilter.FilterExample | mail2sdk.go:274-294 | the blacklist `EU.ORG` removes `a.eu.org` and keeps `b.com` |
| DomainSelection.MaterializeSpec | mail2sdk.go:84-88 | entering unseen domains adds exactly the candidates as keys, with 0, and changes no existing count |
| DomainSelection.MinCountIsLeast | mail2sdk.go:91-102 | the minimum found is the count of some candidate and no candidate has less |
| DomainSelection.TiesAtMembers | mail2sdk.go:95-101 | the tie list holds exactly the candidates with the given count |
| DomainSelection.TiesAreLeastUsed | mail2sdk.go:91-102 | the candidate list is never empty and holds exactly the least-used domains |
| DomainSelection.Pick | mail2sdk.go:72-105 | the domain `selectDomain` returns: the empty string for no domains, otherwise a member of the input (the only one, or the tie list's entry chosen by the draw) |
| DomainSelection.After | mail2sdk.go:72-108 | the table after `selectDomain`: unchanged for zero or one domain; otherwise the picked domain is a key whose count is its old count plus one |
| DomainSelection.PickIsLeastUsed | mail2sdk.go:84-105 | with two or more domains the pick is one of them, its old count (absent counts as 0) is the minimum, and no domain has a smaller count |
| DomainSelection.SelectionUnfold | mail2sdk.go:84-108 | the pick is the element of the tie list at `roll` modulo its length, and the new table is the materialized table with that entry incremented |
| DomainSelection.FastPathKeepsTable | mail2sdk.go:73-78 | with zero or one domain the table is unchanged, and a single domain is returned as is |
| DomainSelection.SelectionFrame | mail2sdk.go:84-108 | afterwards every candidate is a key; the picked domain's count is its old count plus one; every other key keeps its count; newly entered keys that were not picked are 0 |
| DomainSelection.SelectionKeepsNonNegative | mail2sdk.go:91-108 | non-negative counts stay non-negative, so the `-1` sentinel is never a real count |
| DomainSelection.SelectionMonotone | mail2sdk.go:108 | no count ever decreases |
| DomainSelection.EveryTieReachable | mail2sdk.go:105 | every least-used candidate is returned for some draw |
| DomainSelection.SelectionKeepsBalance | mail2sdk.go:70-108 | if no candidate's count exceeds another's by more than one, one more selection from the same candidates keeps that |
| DomainSelection.RunFromFreshIsBalanced | mail2sdk.go:70-108 | from an empty table, any number of selections from the same candidates with any draws keep all their counts within one of each other |
| DomainSelection.RunKeepsBalance | mail2sdk.go:70-108 | repeated selections from the same candidates preserve that balance |
| DomainSelection.LeastUsed | mail2sdk.go:91-102 | the minimum scan with the `-1` sentinel returns exactly the tie list, in input order |
| DomainSelection.DomainSelector.constructor | mail2sdk.go:60-67 | the table starts empty |
| DomainSelection.DomainSelector.SelectDomain | mail2sdk.go:72-111 | returns `Pick` of the old table and leaves the table equal to `After` of the old table; counts stay non-negative |
| DomainSelection.DomainSelector.ResetCounter | mail2sdk.go:114-118 | removes only `domain`'s entry; it is a no-op when `domain` is absent; every other count is unchanged |
| DomainSelection.DomainSelector.GetStats | mail2sdk.go:121-130 | the snapshot equals the table, and the table is not changed |
| DomainSelection.DomainSelector.ResetDomainStats | mail2sdk.go:148-153 | the table is empty afterwards |
| MailboxCreation.ResolveMode | mail2sdk.go:393-406 | 1, 2 and 3 map to `random`, `chinese` and `english`; every other mode except 0 maps to `random`; 0 maps to one of the three |
| MailboxCreation.AutoModeReachesEvery | mail2sdk.go:395-397 | automatic mixing can produce each of the three modes |
| MailboxCreation.ExplicitModeIgnoresRoll | mail2sdk.go:398-405 | only mode 0 depends on the random draw |
| MailboxCreation.EnabledNames | mail2sdk.go:356-361 | the names of the enabled records in record order; never more names than records |
| MailboxCreation.EnabledNamesMembers | mail2sdk.go:356-361 | a name is listed exactly when an enabled record carries it |
| MailboxCreation.EnabledDomains | mail2sdk.go:356-361 | the projection loop returns the enabled names in record order |
| MailboxCreation.BuildRequest | mail2sdk.go:424-432 | the request body: the given mode, and a `"domain"` field exactly when the domain is not empty, holding that domain |
| MailboxCreation.ResolveDomain | mail2sdk.go:408-422 | the decision of `CreateMailbox`: a non-empty domain is `Pinned`; no blacklist gives `Unset`; otherwise the fetch error, `NoAvailableDomain`, or `SelectFrom` the filtered enabled names. Errors arise only for an empty domain with a blacklist, `Unset` exactly when both are empty, and a selection pool is never empty |
| MailboxCreation.ResolvePool | mail2sdk.go:462-476 | the decision of `CreateMailboxWithDomains`: an empty pool defers to `ResolveDomain` with no domain; otherwise `NoAvailableDomain` or `SelectFrom` the filtered pool. It never pins a domain, and a selection pool is never empty |
| MailboxCreation.Outcome | mail2sdk.go:421-432 | carries out a decision: an error is passed through and keeps the table; a request always has the resolved mode; only a selection changes the table (to `After`), and the request then carries `Pick` |
| MailboxCreation.CreateMailbox | mail2sdk.go:389-440 | the request or error and the new selector table are `Outcome` of `ResolveDomain` |
| MailboxCreation.CreateMailboxWithDomains | mail2sdk.go:462-477 | the request or error and the new selector table are `Outcome` of `ResolvePool`; this includes the fallback to `CreateMailbox` for an empty pool and the nil blacklist passed on after selection |
| MailboxCreation.SelectedDomainIsSent | mail2sdk.go:474-476 | a domain passed on with no blacklist is sent as the request's domain, and the table is left alone |
| MailboxCreation.ExplicitDomainBypassesBlacklist | mail2sdk.go:409-432 | a non-empty explicit domain is sent as is, whatever the blacklist and the domain list; the table is untouched |
| MailboxCreation.NoDomainNoBlacklistOmitsDomain | mail2sdk.go:409-432 | no domain and no blacklist produce a request without `"domain"`, and the table is untouched |
| MailboxCreation.FetchOnlyWhenNeeded | mail2sdk.go:409-410 | the domain list matters only for an empty domain with a non-empty blacklist |
| MailboxCreation.FetchFailureReported | mail2sdk.go:410-413 | a failed domain list request is reported as such |
| MailboxCreation.FetchedExhaustedIffAllBlocked | mail2sdk.go:415-418 | the fetched list gives "no available domain" exactly when every enabled domain is blocked |
| MailboxCreation.FetchedSelectionIsEnabledAndLeastUsed | mail2sdk.go:409-421 | a domain chosen from the fetched list is enabled and unblocked, and no enabled, unblocked domain was used less |
| MailboxCreation.PoolIgnoresFetched | mail2sdk.go:462-476 | a non-empty pool never consults the domain list, and its only possible error is "no available domain" |
| MailboxCreation.PoolExhaustedIffAllBlocked | mail2sdk.go:467-471 | a non-empty pool fails exactly when the blacklist blocks every domain in it |
| MailboxCreation.PoolSelectionIsAllowedAndLeastUsed | mail2sdk.go:467-476 | a domain chosen from the pool is in the pool and unblocked, and no unblocked pool domain was used less |
| MailboxCreation.FilteredPickIsAllowedAndLeastUsed | mail2sdk.go:415-421 | the selector's pick from a non-empty filtered list is an unblocked member of the list, and no unblocked member was used less |
| MailboxCreation.PickIsLeastInPool | mail2sdk.go:72-105 | any pick from a non-empty pool, including the one-element shortcut, is a member with the least count |
| MailboxCreation.FailureKeepsTable | mail2sdk.go:410-471 | an error sends no request and leaves the usage counts unchanged |
| MailboxCreation.PoolScenario | mail2sdk.go:462-476 | pool `a.com`, `b.com` with blacklist `a.com` asks for `b.com`, and the table is unchanged because only one domain survives |

## Left out

- HTTP and JSON: `doRequest` (mail2sdk.go:208-264) and the request it sends are left out. The model stops at the request body, and the answer of the domain list request is an input.
- `GetDomains`: only its projection to enabled names is modelled (`EnabledNames`, `EnabledDomains`). The HTTP call and JSON decoding are not.
- `GetMails`, `GetMailDetail`, `ExtractCode` and `DeleteMailbox` are thin remote calls with no local decision logic. They are not modelled.
- `GetDomainStats` is `getStats` on the process-wide selector. It is represented by `DomainSelector.GetStats` on an explicitly passed instance.
- `sync.Mutex` and `sync.Once` only make each selector call atomic and create the singleton lazily. Each method is one sequential atomic step, and the singleton is an instance passed as a parameter. Concurrent interleavings are not modelled.
- Randomness: the time-seeded generator is replaced by draw parameters. Nothing is claimed about the distribution of the draws, so the "even usage" claim is stated only in its deterministic form (`RunFromFreshIsBalanced`: for the same candidates every time, counts stay within one of each other).
- The error texts are reduced to `DomainListFailed(cause)` and `NoAvailableDomain`. The service's answer (`Mailbox`) and the other data-transfer structs (mail2sdk.go:164-205) carry no logic and are not modelled.
- Go `int` is unbounded here. A count cannot realistically reach 2^63 by increments, so the wrap-around of `ds.counters[selected]++` is not modelled.
