/**
 * Worked examples: a contract holding three challenges, the second of which
 * is a placeholder with the zero address as creator.
 */
module Scenarios {
  import opened Wrappers
  import opened TheoremProvider
  import opened TheoremList

  const Alice: string := "0x1111111111111111111111111111111111111111"
  const Bob: string := "0x2222222222222222222222222222222222222222"
  const Ether: nat := 1_000_000_000_000_000_000

  function ThreeChallenges(): Source
  {
    Source(Some(3), map[
      0 := (Alice, 1, "T1", "", 100 * Ether, 1000),
      1 := (ZeroAddress, 2, "T2", "", 50 * Ether, 2000),
      2 := (Bob, 3, "T3", "", 200 * Ether, 500)])
  }

  /** The three challenges, decoded. */
  function ThreeTheorems(): map<nat, Theorem>
  {
    map[0 := Decode(ThreeChallenges().challenges[0]),
        1 := Decode(ThreeChallenges().challenges[1]),
        2 := Decode(ThreeChallenges().challenges[2])]
  }

  lemma ThreeTheoremsKeys()
    ensures KeysBelow(ThreeTheorems(), 3)
  {
    forall i: nat
      ensures i in ThreeTheorems() <==> i < 3
    {
    }
  }

  /** The snapshot a refresh of the three challenges commits, whatever the snapshot before. */
  lemma ThreeChallengesSnapshot(snapshot: map<nat, Theorem>)
    ensures Refreshed(snapshot, ThreeChallenges()) == ThreeTheorems()
  {
    var src := ThreeChallenges();
    var d := ThreeTheorems();
    assert FetchChallenges(src, 1) == Some(map[0 := d[0]]);
    assert FetchChallenges(src, 2) == Some(map[0 := d[0], 1 := d[1]]);
    assert FetchChallenges(src, 3) == Some(d);
  }

  /** A snapshot keyed 0, 1, 2 iterates as index 0, then 1, then 2. */
  lemma EntriesOfThree(m: map<nat, Theorem>)
    requires KeysBelow(m, 3)
    ensures Entries(m) == [(0, m[0]), (1, m[1]), (2, m[2])]
  {
    EntriesOfContiguous(m, 3);
  }

  lemma ShownSteps(b: Entry, a: Entry, z: Entry)
    requires Listed(b) && Listed(a) && !Listed(z)
    ensures Shown([b, a, z]) == [b, a]
  {
    assert [b, a, z][1..] == [a, z] && [a, z][1..] == [z];
    assert Shown([z]) == [] by {
      assert [z][1..] == [];
    }
    assert Shown([a, z]) == [a];
  }

  lemma CreatorsDiffer()
    ensures Alice != ZeroAddress && Bob != ZeroAddress
  {
    assert Bob[2] != ZeroAddress[2] && Alice[2] != ZeroAddress[2];
  }

  lemma SortTwo(x: Entry, y: Entry, st: SortState)
    requires !Precedes(x, y, st)
    ensures SortEntries([x, y], st) == [y, x]
  {
    assert [x, y][1..] == [y];
    assert SortEntries([y], st) == [y];
    assert Insert(x, [y], st) == [y, x];
  }

  lemma InsertSecond(x: Entry, y: Entry, z: Entry, st: SortState)
    requires !Precedes(x, y, st) && Precedes(x, z, st)
    ensures Insert(x, [y, z], st) == [y, x, z]
  {
    assert [y, z][1..] == [z];
    assert Insert(x, [z], st) == [x, z];
  }

  /** Inserting the three entries in turn, for a state in which the third
      entry precedes the first and the first precedes the second. */
  lemma SortSteps(e0: Entry, e1: Entry, e2: Entry, st: SortState)
    requires !Precedes(e0, e2, st) && Precedes(e0, e1, st) && !Precedes(e1, e2, st)
    ensures SortEntries([e0, e1, e2], st) == [e2, e0, e1]
  {
    assert [e0, e1, e2][1..] == [e1, e2];
    SortTwo(e1, e2, st);
    InsertSecond(e0, e2, e1, st);
  }

  /** A snapshot keyed 0, 1, 2 in which the key at 2 goes first, then the one at 0,
      and whose entry at 1 is a placeholder, renders entry 2 and then entry 0. */
  lemma ViewOfThree(m: map<nat, Theorem>, st: SortState)
    requires KeysBelow(m, 3)
    requires !Precedes((0, m[0]), (2, m[2]), st) && Precedes((0, m[0]), (1, m[1]), st)
    requires !Precedes((1, m[1]), (2, m[2]), st)
    requires Listed((2, m[2])) && Listed((0, m[0])) && !Listed((1, m[1]))
    ensures View(m, st) == [(2, m[2]), (0, m[0])]
  {
    EntriesOfThree(m);
    SortSteps((0, m[0]), (1, m[1]), (2, m[2]), st);
    ShownSteps((2, m[2]), (0, m[0]), (1, m[1]));
  }

  /** Sorted by expiration, earliest first: Bob's (500) then Alice's (1000); the placeholder is not shown. */
  lemma ThreeChallengesByExpiration()
    ensures View(ThreeTheorems(), SortState(Expiration, true)) == [(2, ThreeTheorems()[2]), (0, ThreeTheorems()[0])]
  {
    var m := ThreeTheorems();
    CreatorsDiffer();
    ThreeTheoremsKeys();
    assert m[0].expirationTimestamp == 1000 && m[1].expirationTimestamp == 2000 && m[2].expirationTimestamp == 500;
    ViewOfThree(m, SortState(Expiration, true));
  }

  /** Sorted by reward, highest first: Bob's (200 ether) then Alice's (100 ether). */
  lemma ThreeChallengesByReward()
    ensures View(ThreeTheorems(), SortState(Reward, false)) == [(2, ThreeTheorems()[2]), (0, ThreeTheorems()[0])]
  {
    var m := ThreeTheorems();
    CreatorsDiffer();
    ThreeTheoremsKeys();
    assert m[0].bounty == 100 * Ether && m[1].bounty == 50 * Ether && m[2].bounty == 200 * Ether;
    ViewOfThree(m, SortState(Reward, false));
  }

  /** An empty contract leaves the snapshot as it was, so an empty snapshot renders nothing. */
  lemma EmptyContractRendersNothing(s: SortState)
    ensures Refreshed(map[], Source(Some(0), map[])) == map[]
    ensures View(Refreshed(map[], Source(Some(0), map[])), s) == []
  {
  }
}
