/**
 * The synchronization store of the theorem-bounty front-end
 * (frontend/src/providers/TheoremProvider.tsx).
 *
 * The smart contract is an abstract record source: the result of
 * `challengeNonce()` and, per index, the result of `challenges(index)`.
 * The store keeps the current snapshot `theorems` (index -> Theorem) and the
 * connected `account`; `UpdateTheorems` re-reads every record and commits the
 * new map only when every read succeeded.
 */
module TheoremProvider {
  import opened Wrappers

  /** The record shape of the front-end, fields in the order they are declared. */
  datatype Theorem = Theorem(
    creator: string,
    challengeId: nat,
    challengeName: string,
    theorem: string,
    bounty: nat,
    expirationTimestamp: nat)

  /** What `challenges(nonce)` returns: (address, uint256, string, string, uint256, uint256). */
  type ChallengeTuple = (string, nat, string, string, nat, nat)

  /** The contract as seen by one refresh.
      `nonce` is `None` when obtaining the contract or calling `challengeNonce()` threw;
      an index missing from `challenges` is a `challenges(index)` call that threw. */
  datatype Source = Source(nonce: Option<nat>, challenges: map<nat, ChallengeTuple>)

  /** The keys of `m` are exactly the indices 0 .. n-1. */
  ghost predicate KeysBelow(m: map<nat, Theorem>, n: nat)
  {
    forall i: nat :: i in m <==> i < n
  }

  /** A snapshot whose keys are exactly 0 .. |m|-1. */
  ghost predicate Contiguous(m: map<nat, Theorem>)
  {
    KeysBelow(m, |m|)
  }

  /** A map keyed by exactly 0 .. n-1 has n entries. */
  lemma {:induction false} KeysBelowSize(m: map<nat, Theorem>, n: nat)
    requires KeysBelow(m, n)
    ensures |m| == n
  {
    if n > 0 {
      var m' := m - {n - 1};
      assert KeysBelow(m', n - 1);
      KeysBelowSize(m', n - 1);
    } else {
      assert m.Keys == {};
    }
  }

  /** The position of each field of a Theorem in the contract's tuple. */
  function Encode(t: Theorem): ChallengeTuple
  {
    (t.creator, t.challengeId, t.theorem, t.challengeName, t.bounty, t.expirationTimestamp)
  }

  /** Turns a tuple into a Theorem by position: [0] creator, [1] challengeId,
      [2] theorem (the body), [3] challengeName, [4] bounty, [5] expirationTimestamp. */
  function Decode(c: ChallengeTuple): (t: Theorem)
    ensures Encode(t) == c
    ensures t.theorem == c.2 && t.challengeName == c.3
  {
    Theorem(
      creator := c.0,
      challengeId := c.1,
      theorem := c.2,
      challengeName := c.3,
      bounty := c.4,
      expirationTimestamp := c.5)
  }

  lemma DecodeEncode(t: Theorem)
    ensures Decode(Encode(t)) == t
  {
  }

  /** The map built by reading indices 0 .. n-1 in order; `None` as soon as a read fails. */
  function FetchChallenges(src: Source, n: nat): (r: Option<map<nat, Theorem>>)
    ensures r.Some? <==> forall i: nat :: i < n ==> i in src.challenges
    ensures r.Some? ==> KeysBelow(r.value, n)
    ensures r.Some? ==> forall i :: i in r.value ==> i in src.challenges && r.value[i] == Decode(src.challenges[i])
    decreases n
  {
    if n == 0 then Some(map[])
    else
      match FetchChallenges(src, n - 1)
      case None => None
      case Some(m) =>
        if n - 1 in src.challenges then Some(m[n - 1 := Decode(src.challenges[n - 1])]) else None
  }

  /** The snapshot after one refresh from the snapshot before it. */
  function Refreshed(snapshot: map<nat, Theorem>, src: Source): (r: map<nat, Theorem>)
    ensures src.nonce == None || src.nonce == Some(0) ==> r == snapshot
    ensures src.nonce.Some? && (exists i: nat :: i < src.nonce.value && i !in src.challenges) ==> r == snapshot
    ensures src.nonce.Some? && src.nonce.value > 0 && (forall i: nat :: i < src.nonce.value ==> i in src.challenges) ==>
              KeysBelow(r, src.nonce.value) &&
              forall i :: i in r ==> r[i] == Decode(src.challenges[i])
  {
    match src.nonce
    case None => snapshot
    case Some(count) =>
      if count == 0 then snapshot
      else
        match FetchChallenges(src, count)
        case None => snapshot
        case Some(fetched) => fetched
  }

  /** Whether a refresh commits a new snapshot: the nonce was read, it is not 0,
      and every index below it was read. */
  predicate Commits(src: Source)
  {
    src.nonce.Some? && src.nonce.value > 0 && forall i: nat :: i < src.nonce.value ==> i in src.challenges
  }

  /** A failing read at any index below the nonce leaves the snapshot as it was. */
  lemma RefreshFailureKeepsSnapshot(snapshot: map<nat, Theorem>, src: Source, bad: nat)
    requires src.nonce.Some? && bad < src.nonce.value && bad !in src.challenges
    ensures !Commits(src)
    ensures Refreshed(snapshot, src) == snapshot
  {
  }

  /** A committing refresh replaces the snapshot wholesale: nothing of the old one survives. */
  lemma {:induction false} RefreshReplacesWholesale(a: map<nat, Theorem>, b: map<nat, Theorem>, src: Source)
    requires Commits(src)
    ensures Refreshed(a, src) == Refreshed(b, src)
    ensures Contiguous(Refreshed(a, src)) && |Refreshed(a, src)| == src.nonce.value
  {
    KeysBelowSize(Refreshed(a, src), src.nonce.value);
  }

  /** Refreshing twice against an unchanged source gives what refreshing once gives. */
  lemma RefreshIdempotent(snapshot: map<nat, Theorem>, src: Source)
    ensures Refreshed(Refreshed(snapshot, src), src) == Refreshed(snapshot, src)
  {
  }

  /** A refresh keeps the snapshot's keys contiguous. */
  lemma {:induction false} RefreshKeepsContiguous(snapshot: map<nat, Theorem>, src: Source)
    requires Contiguous(snapshot)
    ensures Contiguous(Refreshed(snapshot, src))
  {
    if Commits(src) {
      KeysBelowSize(Refreshed(snapshot, src), src.nonce.value);
    }
  }

  /** Once index `bad` cannot be read, no read of `n > bad` indices succeeds. */
  lemma {:induction false} NoFetchPast(src: Source, bad: nat, n: nat)
    requires bad < n && bad !in src.challenges
    ensures FetchChallenges(src, n) == None
  {
    if n > bad + 1 {
      NoFetchPast(src, bad, n - 1);
    }
  }

  /** The `for` loop of `updateTheorems`: reads indices 0 .. count-1 in order into a
      fresh map; `None` when a read throws, which ends the loop. */
  method FetchAll(src: Source, count: nat) returns (fetched: Option<map<nat, Theorem>>)
    ensures fetched == FetchChallenges(src, count)
  {
    var theorems: map<nat, Theorem> := map[];
    var n: nat := 0;
    while n < count
      invariant n <= count
      invariant FetchChallenges(src, n) == Some(theorems)
    {
      if n !in src.challenges {
        NoFetchPast(src, n, count);
        return None;
      }
      assert FetchChallenges(src, n + 1) == Some(theorems[n := Decode(src.challenges[n])]);
      theorems := theorems[n := Decode(src.challenges[n])];
      n := n + 1;
    }
    return Some(theorems);
  }

  /** What `sdk?.connect()` produced: it threw, it gave `undefined`, or it gave a list of accounts. */
  datatype ConnectResult = Threw | Undefined | Accounts(list: seq<string>)

  /** `accounts && accounts[0]`: a list was returned and its first entry is a non-empty string. */
  predicate Accepts(result: ConnectResult)
  {
    result.Accounts? && |result.list| > 0 && result.list[0] != ""
  }

  /** `if (account)`: the account is set and is not the empty string. */
  predicate Truthy(account: Option<string>)
  {
    account.Some? && account.value != ""
  }

  /** The provider's state: the current snapshot and the connected account. */
  class TheoremStore {
    var theorems: map<nat, Theorem>
    var account: Option<string>

    /** The snapshot's keys are always a contiguous range 0 .. n-1. */
    ghost predicate Valid()
      reads this
    {
      Contiguous(theorems)
    }

    constructor ()
      ensures Valid()
      ensures theorems == map[] && account == None
    {
      theorems := map[];
      account := None;
    }

    /** `connectWallet`: takes the first account only when the result is accepted. */
    method ConnectWallet(result: ConnectResult)
      requires Valid()
      modifies this`account
      ensures Valid()
      ensures Accepts(result) ==> account == Some(result.list[0])
      ensures !Accepts(result) ==> account == old(account)
      ensures Accepts(result) ==> Truthy(account)
      ensures theorems == old(theorems)
    {
      match result
      case Threw =>
      case Undefined =>
      case Accounts(list) =>
        if |list| > 0 && list[0] != "" {
          account := Some(list[0]);
        }
    }

    /** `updateTheorems`: read the nonce, read every index below it into a fresh map,
        and commit that map only when no read failed. */
    method UpdateTheorems(src: Source)
      requires Valid()
      modifies this`theorems
      ensures Valid()
      ensures theorems == Refreshed(old(theorems), src)
      ensures Commits(src) ==> KeysBelow(theorems, src.nonce.value)
      ensures !Commits(src) ==> theorems == old(theorems)
      ensures account == old(account)
    {
      if src.nonce.None? {
        return;
      }
      var lastChallengeNonce := src.nonce.value;
      if lastChallengeNonce == 0 {
        return;
      }
      var fetched := FetchAll(src, lastChallengeNonce);
      if fetched.None? {
        // a read threw: the catch skips the commit
        return;
      }
      RefreshKeepsContiguous(theorems, src);
      theorems := fetched.value;
    }

    /** The effect that runs whenever `account` changes: refresh only when an account is set. */
    method AccountEffect(src: Source)
      requires Valid()
      modifies this`theorems
      ensures Valid()
      ensures Truthy(account) ==> theorems == Refreshed(old(theorems), src)
      ensures !Truthy(account) ==> theorems == old(theorems)
      ensures account == old(account)
    {
      if Truthy(account) {
        UpdateTheorems(src);
      }
    }

    /** A connection attempt followed by the effect, which React runs only when
        `account` took a new value. */
    method ConnectAndSync(result: ConnectResult, src: Source)
      requires Valid()
      modifies this
      ensures Valid()
      ensures Accepts(result) ==> account == Some(result.list[0])
      ensures !Accepts(result) ==> account == old(account)
      ensures account != old(account) ==> theorems == Refreshed(old(theorems), src)
      ensures account == old(account) ==> theorems == old(theorems)
    {
      var previous := account;
      ConnectWallet(result);
      if account != previous {
        AccountEffect(src);
      }
    }
  }
}
