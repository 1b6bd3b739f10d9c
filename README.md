# Theorem bounty front-end: synchronization store and list view

This project models the two pieces of client-side logic in the theorem-bounty
front-end. Both work over "theorem" records that a smart contract keeps.

- **The synchronization store** (`TheoremProvider`) holds the snapshot
  `theorems` (record index to `Theorem`) and the connected `account`.
  `updateTheorems` reads `challengeNonce()`. When the nonce is 0 it returns and
  changes nothing. Otherwise it reads `challenges(n)` for every `n` below the
  nonce into a fresh map, decoding each tuple by position. It commits that map
  with one `setTheorems`, and only when every read succeeded. Any exception skips
  the commit. `connectWallet` takes the first returned account when there is one.
  An effect re-runs the refresh whenever `account` changes to a set value.
- **The list view** (`TheoremList`) sorts the snapshot's entries by
  `expirationTimestamp` or `bounty`, ascending or descending. It drops every entry
  whose creator is the zero address and abbreviates each creator. The sort control
  is a state machine over `(sortField, sortAscending)`.

Files:

- `wrappers.dfy`: `Option`.
- `theorem_provider.dfy`, module `TheoremProvider`: the record shape, the abstract
  contract `Source`, decoding, the refresh as a function (`Refreshed`) and its
  lemmas, the loop `FetchAll`, and the class `TheoremStore`. Its method
  `UpdateTheorems` runs the loop and is proved against `Refreshed`.
- `theorem_list.dfy`, module `TheoremList`: the comparator, a stable insertion
  sort, the zero-address filter, the view and its lemmas, the creator
  abbreviation, the toggle function and the class `SortControl`.
- `scenarios.dfy`, module `Scenarios`: worked examples. One is a contract with
  three challenges, one of them a placeholder. Another is an empty contract.

The contract is an abstract value. `Source.nonce` is the result of
`challengeNonce()`; `None` means that getting the contract or that call threw.
`Source.challenges` maps each index whose `challenges(index)` call returns to
its tuple. A missing index is a call that threw. The wallet's answer is an
input value, `ConnectResult`.

Points where the model follows a detail of the code:

- When the nonce is 0, the code returns before `setTheorems`, so the previous
  snapshot is kept, not emptied (`Refreshed`, first ensures).
- Tuple position [2] goes to `theorem` (the body) and [3] to `challengeName`
  (the title), though the `Theorem` interface declares `challengeName` first.
- The code sorts first and filters second. With a stable sort, filtering first
  would give the same list.
- Ties are broken by ascending index. In the code this comes from the stable
  `Array.prototype.sort` (section 23.1.3.30 of ECMA-262, 2023 edition) applied to
  `Map.entries()`. A map iterates in insertion order, and the store only ever
  commits maps filled in index order 0, 1, 2, …. So the model iterates a
  snapshot in ascending key order (`Entries`) and compares with an explicit
  index tie-break (`Precedes`).
- The code does not tell an empty contract apart from "not yet refreshed". The
  model does not either.
- Keys are compared as exact integers, not through `Number(...)`; see Findings.

## Model

| member | source | states |
|---|---|---|
| `TheoremProvider.Decode` | frontend/src/providers/TheoremProvider.tsx:98-105 | decoding is by position: the decoded record re-encodes to the same tuple, with [2] the body `theorem` and [3] the title `challengeName` |
| `TheoremProvider.DecodeEncode` | frontend/src/providers/TheoremProvider.tsx:98-105 | the decoding loses no field: decoding the tuple of a record gives the record back |
| `TheoremProvider.FetchChallenges` | frontend/src/providers/TheoremProvider.tsx:92-106 | reading indices 0..n-1 succeeds exactly when every one of them can be read; the resulting map has exactly the keys 0..n-1, and each key holds the decoding of its own tuple |
| `TheoremProvider.FetchAll` | frontend/src/providers/TheoremProvider.tsx:92-106 | the `for` loop reads indices 0..count-1 in order into a fresh map and yields exactly `FetchChallenges`: the full decoded map, or nothing when a read throws |
| `TheoremProvider.Refreshed` | frontend/src/providers/TheoremProvider.tsx:83-112 | if the nonce cannot be read or is 0, the snapshot is unchanged; if any index below the nonce fails, the snapshot is unchanged; otherwise the keys are exactly 0..nonce-1 and each entry is the decoding of its tuple |
| `TheoremProvider.RefreshFailureKeepsSnapshot` | frontend/src/providers/TheoremProvider.tsx:92-111 | a failing read at any index below the nonce means nothing is committed: the snapshot after the refresh equals the one before |
| `TheoremProvider.RefreshReplacesWholesale` | frontend/src/providers/TheoremProvider.tsx:92-108 | a committing refresh gives the same snapshot whatever the old one was, so nothing is merged in; it has exactly nonce entries, keyed 0..nonce-1 |
| `TheoremProvider.RefreshIdempotent` | frontend/src/providers/TheoremProvider.tsx:83-112 | refreshing twice against an unchanged contract gives the snapshot that refreshing once gives |
| `TheoremProvider.RefreshKeepsContiguous` | frontend/src/providers/TheoremProvider.tsx:92-108 | a refresh keeps the snapshot's keys a contiguous range 0..size-1 |
| `TheoremProvider.TheoremStore.constructor` | frontend/src/providers/TheoremProvider.tsx:46-47 | the store starts with an empty snapshot and no account |
| `TheoremProvider.TheoremStore.ConnectWallet` | frontend/src/providers/TheoremProvider.tsx:61-70 | the account becomes the first returned account exactly when a list was returned and its first entry is non-empty; on an exception, an `undefined` result or an empty list or entry, it is unchanged; the snapshot is never touched |
| `TheoremProvider.TheoremStore.UpdateTheorems` | frontend/src/providers/TheoremProvider.tsx:83-112 | the nonce checks, the loop and the single commit leave the snapshot equal to `Refreshed` of the old snapshot: the new map when every read succeeded, else the old snapshot with no partial map; keys stay contiguous; the account is unchanged |
| `TheoremProvider.TheoremStore.AccountEffect` | frontend/src/providers/TheoremProvider.tsx:114-118 | a refresh runs only when the account is set and non-empty; otherwise the snapshot is unchanged |
| `TheoremProvider.TheoremStore.ConnectAndSync` | frontend/src/providers/TheoremProvider.tsx:114-118 | the effect fires only when connecting changed `account`: then the snapshot is refreshed, and otherwise it is unchanged |
| `TheoremList.Entries` | frontend/src/components/TheoremList.tsx:15 | the snapshot's entries, one per key, each pairing a key with its record, in strictly ascending key order |
| `TheoremList.EntriesOfContiguous` | frontend/src/components/TheoremList.tsx:15 | a snapshot keyed 0..n-1, as every committed one is, iterates as (0, record 0), (1, record 1), …, (n-1, record n-1) |
| `TheoremList.View` | frontend/src/components/TheoremList.tsx:14-71 | the rendered list is `sortedTheorems` followed by the zero-address filter; every rendered entry is an entry of the snapshot, under its own index, whose creator is not the zero address |
| `TheoremList.Compare` | frontend/src/components/TheoremList.tsx:16-26 | the comparator is zero exactly on equal keys; it is negative exactly when the first key is smaller (ascending) or larger (descending) |
| `TheoremList.SortEntries` | frontend/src/components/TheoremList.tsx:14-27 | sorting gives a permutation of its input in which every entry precedes the ones after it |
| `TheoremList.Shown` | frontend/src/components/TheoremList.tsx:66-71 | the filter keeps every entry whose creator is not the zero address, with its multiplicity, and nothing else |
| `TheoremList.ViewOmitsZeroCreator` | frontend/src/components/TheoremList.tsx:66-71 | no rendered entry has the zero address `0x000…000` as creator |
| `TheoremList.ViewSorted` | frontend/src/components/TheoremList.tsx:16-26 | the rendered list is non-decreasing in the chosen field when ascending and non-increasing when descending, for both expiration and reward |
| `TheoremList.ViewMembers` | frontend/src/components/TheoremList.tsx:15-71 | an entry is rendered exactly when it is a snapshot entry whose creator is not the zero address |
| `TheoremList.ViewPermutation` | frontend/src/components/TheoremList.tsx:15-71 | the rendered list is a permutation of the snapshot's listed entries: sorting and filtering neither invent nor duplicate one |
| `TheoremList.ViewDistinct` | frontend/src/components/TheoremList.tsx:15-71 | no entry is rendered twice |
| `TheoremList.ViewTiesByIndex` | frontend/src/components/TheoremList.tsx:15-16 | entries with equal sort keys keep snapshot order: the smaller index comes first |
| `TheoremList.ToNumber` | frontend/src/components/TheoremList.tsx:18-23 | `Number(x)` of an integer is a multiple of the spacing of doubles around `x` and lies within half a spacing of `x` (round to nearest), ties going to the even multiple |
| `TheoremList.ToNumberMonotone` | frontend/src/components/TheoremList.tsx:18-23 | `Number` keeps the order of integers: it can merge two of them into one double but never reverses them |
| `TheoremList.NumberCompare` | frontend/src/components/TheoremList.tsx:16-26 | the comparator as written: it is zero whenever the exact keys are equal, and a non-zero sign always agrees with the exact comparator, so its only error is a false tie |
| `TheoremList.ToNumberExactBelow` | frontend/src/components/TheoremList.tsx:18-23 | `Number` of an integer below 2^53 is that integer |
| `TheoremList.NumberCompareLosesOrder` | frontend/src/components/TheoremList.tsx:21-24 | the comparator as written ties on rewards of 2^53+1 and 2^53 wei, which the exact comparator orders apart |
| `TheoremList.AbbreviateCreator` | frontend/src/components/TheoremList.tsx:91-92 | the abbreviation equals `slice(0, 6)`, then "...", then `slice(-4)`, with `slice` as ECMAScript defines it (`JsSlice`: negative indices count from the end, both ends clamped to the string); a 42-character address gives its first six characters, "...", its last four: 13 characters |
| `TheoremList.Toggle` | frontend/src/components/TheoremList.tsx:29-36 | toggling the active field flips the direction and keeps the field; toggling the other field makes it active and ascending |
| `TheoremList.ToggleActiveTwice` | frontend/src/components/TheoremList.tsx:29-36 | toggling the active field twice restores the original state |
| `TheoremList.SortControl.constructor` | frontend/src/components/TheoremList.tsx:9-12 | the sort control starts at (expiration, ascending) |
| `TheoremList.SortControl.ToggleSort` | frontend/src/components/TheoremList.tsx:29-36 | the new `(sortField, sortAscending)` is `Toggle` of the old state and the clicked field |
| `Scenarios.ThreeChallengesSnapshot` | frontend/src/providers/TheoremProvider.tsx:92-108 | whatever the snapshot before, refreshing from a contract with three readable challenges gives exactly indices 0, 1, 2, each decoded from its tuple |
| `Scenarios.ThreeChallengesByExpiration` | frontend/src/components/TheoremList.tsx:14-71 | with expiration ascending, that snapshot renders the challenge expiring at 500 and then the one expiring at 1000; the placeholder is not shown |
| `Scenarios.ThreeChallengesByReward` | frontend/src/components/TheoremList.tsx:14-71 | with reward descending, that snapshot renders the 200-ether challenge and then the 100-ether one |
| `Scenarios.EmptyContractRendersNothing` | frontend/src/providers/TheoremProvider.tsx:86-90 | a contract whose nonce is 0 leaves an empty snapshot empty, and the view of it is empty |

## Left out

- React plumbing is not modelled: the context, `useTheorems` and its throw, `useMemo`, the scheduling of `useEffect`, and the JSX rendering (links, icons, button labels, CSS).
- `getContract`, the JSON-RPC provider, the signer and the ABI are network and library calls. They are replaced by the abstract `Source`.
- The MetaMask SDK is not modelled. Neither is the `checkConnection` effect (frontend/src/providers/TheoremProvider.tsx:50-59). The connect result is an input value.
- `ethers.formatEther` and `new Date(...).toLocaleDateString()` are library and locale formatting, so the reward and date columns are left out.
- Async interleaving is not modelled. Two refreshes in flight, or two clicks before a re-render, would read stale state. Every operation runs to completion here.
- The empty `submit` stub does nothing and is left out.
- Logging (`console.*`) is left out.
- `ToNumber` does not model Infinity for values of 2^1024 or more. A uint256 never reaches that.
- Strings are sequences of Unicode scalar values, while JavaScript's `slice` counts UTF-16 code units. The two agree on the ASCII hexadecimal addresses the contract returns, and the model does not cover other creators.
- Contract integers are unbounded `nat`s. The uint256 bound of the contract is not modelled; nothing in the front-end depends on it.

## Findings

| source | as written | input that shows it | evidently intended | confidence | as-written member | corrected member |
|---|---|---|---|---|---|---|
| frontend/src/components/TheoremList.tsx:21-24 | the reward comparator subtracts `Number(a.bounty)` and `Number(b.bounty)`, which round to 53 significant bits | two entries at indices 0 and 1 with bounties 2^53+1 and 2^53 wei, sorted by reward ascending: they compare as equal, so the stable sort renders the larger bounty first | order by the exact integer bounty, so that the list is non-decreasing in reward | not executed; the rounding of `Number` is standard IEEE-754 round-to-nearest-even | `TheoremList.NumberCompareLosesOrder` (over `TheoremList.NumberCompare`) | `TheoremList.Compare`, with `TheoremList.ViewSorted` proved about it |

Expiration timestamps are seconds, far below 2^53, so `Number` is exact for them (`TheoremList.ToNumberExactBelow`). Only the reward comparison is affected. Because `Number` is monotone (`TheoremList.ToNumberMonotone`), the as-written comparator never orders two rewards the wrong way round; its only error is to call two different rewards equal (`TheoremList.NumberCompare`), and the stable sort then falls back to index order.
