/** Sampling addresses, picking one to dial, and every run of the address manager. */
module AddrRuns {
  import opened Wrappers
  import opened AddrTables
  import opened AddrOps

  // ---------- sizes ----------

  function Elems(ids: seq<nat>): set<nat> {
    set id | id in ids
  }

  lemma {:induction false} DistinctSize(ids: seq<nat>)
    requires forall i, j | 0 <= i < j < |ids| :: ids[i] != ids[j]
    ensures |Elems(ids)| == |ids|
  {
    if ids != [] {
      var rest, last := ids[..|ids| - 1], ids[|ids| - 1];
      DistinctSize(rest);
      assert ids == rest + [last];
      assert Elems(ids) == Elems(rest) + {last} by {
        forall id ensures id in Elems(ids) <==> id in Elems(rest) + {last} {}
      }
    }
  }

  lemma RandomIsDistinct(s: State, i: nat, j: nat)
    requires RandomOk(s) && i < j < |s.random|
    ensures s.random[i] != s.random[j]
  {
    assert PlaceKnown(s, i) && PlaceKnown(s, j);
  }

  /** The first thing the consistency check compares. */
  lemma RandomHoldsBothTables(e: Env, s: State)
    requires Inv(e, s)
    ensures |s.random| == s.nNew + s.nTried
  {
    forall i, j | 0 <= i < j < |s.random| ensures s.random[i] != s.random[j] {
      RandomIsDistinct(s, i, j);
    }
    DistinctSize(s.random);
    forall id ensures id in s.info <==> id in Elems(s.random) {
      assert IdPlaced(s, id);
      if k :| 0 <= k < |s.random| && s.random[k] == id {
        assert PlaceKnown(s, k);
      }
    }
    assert Elems(s.random) == s.info.Keys;
    assert s.info.Keys == NewIds(s) + TriedIds(s);
    assert NewIds(s) - {} == NewIds(s);
  }

  lemma PickFrom(ids: set<nat>) returns (id: nat)
    requires |ids| > 0
    ensures id in ids
  {
    id :| id in ids;
  }

  /**
   Select_ first flips a coin for a table and then draws slots until one is occupied. The table
   it settles on has an occupied slot whenever there is any address at all, and whatever
   occupied slot it hits belongs to a known address of that table.
   */
  lemma SelectSearchesANonEmptyTable(e: Env, s: State, coin: bool)
    requires Inv(e, s) && s.random != []
    ensures s.nTried > 0 && (s.nNew == 0 || coin) ==>
              s.tried != map[] && forall slot | slot in s.tried :: s.tried[slot] in s.info && s.info[s.tried[slot]].inTried
    ensures !(s.nTried > 0 && (s.nNew == 0 || coin)) ==>
              s.news != map[] && forall slot | slot in s.news :: s.news[slot] in s.info && !s.info[s.news[slot]].inTried
  {
    RandomHoldsBothTables(e, s);
    forall slot ensures (slot in s.tried ==> s.tried[slot] in s.info && s.info[s.tried[slot]].inTried)
                     && (slot in s.news ==> s.news[slot] in s.info && !s.info[s.news[slot]].inTried) {
      assert TriedSlotOk(e, s, slot) && NewSlotOk(e, s, slot);
    }
    if s.nTried > 0 {
      var id := PickFrom(TriedIds(s));
      assert TriedIdOk(e, s, id);
    }
    if s.nNew > 0 {
      var id := PickFrom(NewIds(s) - {});
      assert RefOk(s, {}, id);
      var slot :| slot in Refs(s.news, id);
    }
  }

  // ---------- sampling ----------

  lemma SwapKeepsInv(e: Env, s: State, i: nat, j: nat)
    requires Inv(e, s) && i < |s.random| && j < |s.random|
    ensures PlaceKnown(s, i) && PlaceKnown(s, j)
    ensures Inv(e, SwapRandom(s, i, j))
    ensures forall id :: Kept(s, SwapRandom(s, i, j), id)
  {
    SwapRandomKeeps(s, i, j);
    var s' := SwapRandom(s, i, j);
    forall id ensures Kept(s, s', id) && IdNamed(s', id) && TriedIdOk(e, s', id) && RefOk(s', {}, id) {
      assert IdNamed(s, id) && TriedIdOk(e, s, id) && RefOk(s, {}, id);
      if id in s.info {
        SwapRandomAt(s, i, j, id);
      }
    }
    SwapTables(e, s, i, j);
    SwapCounts(s, i, j);
  }

  lemma SwapTables(e: Env, s: State, i: nat, j: nat)
    requires AddrsOk(s) && NewsOk(e, s) && TriedOk(e, s) && RandomOk(s) && i < |s.random| && j < |s.random|
    ensures PlaceKnown(s, i) && PlaceKnown(s, j)
    ensures forall slot :: NewSlotOk(e, SwapRandom(s, i, j), slot) && TriedSlotOk(e, SwapRandom(s, i, j), slot)
    ensures forall a :: NameKnown(SwapRandom(s, i, j), a)
  {
    assert PlaceKnown(s, i) && PlaceKnown(s, j);
    var s' := SwapRandom(s, i, j);
    forall slot ensures NewSlotOk(e, s', slot) && TriedSlotOk(e, s', slot) {
      assert NewSlotOk(e, s, slot) && TriedSlotOk(e, s, slot);
    }
    forall a ensures NameKnown(s', a) {
      assert NameKnown(s, a);
    }
  }

  lemma SwapCounts(s: State, i: nat, j: nat)
    requires Counted(s, {}, 0) && RandomOk(s) && i < |s.random| && j < |s.random|
    ensures PlaceKnown(s, i) && PlaceKnown(s, j)
    ensures Counted(SwapRandom(s, i, j), {}, 0)
  {
    assert PlaceKnown(s, i) && PlaceKnown(s, j);
    SameSides(s, SwapRandom(s, i, j));
    hide NewIds, TriedIds, RandomOk;
  }

  /** The addresses of those of the ids that are not terrible, in order. */
  function Gather(info: map<nat, Info>, ids: seq<nat>, now: int): seq<Address> {
    if ids == [] then [] else
      var id := ids[|ids| - 1];
      Gather(info, ids[..|ids| - 1], now) +
      (if id in info && !info[id].IsTerrible(now) then [info[id].address] else [])
  }

  lemma {:induction false} GatherIgnoresPlaces(s: State, s': State, ids: seq<nat>, now: int)
    requires forall id :: Kept(s, s', id)
    requires forall id | id in ids :: id in s.info
    ensures Gather(s'.info, ids, now) == Gather(s.info, ids, now)
  {
    if ids != [] {
      GatherIgnoresPlaces(s, s', ids[..|ids| - 1], now);
      assert Kept(s, s', ids[|ids| - 1]);
    }
  }

  function Cap(s: State): nat {
    var n := GETADDR_MAX_PCT * |s.random| / 100;
    if n > GETADDR_MAX then GETADDR_MAX else n
  }

  /** A random position from n on. */
  function Draw(pick: nat, n: nat, size: nat): (j: nat)
    requires n < size
    ensures n <= j < size
  {
    pick % (size - n) + n
  }

  lemma KeptTwice(s: State, s1: State, s2: State)
    requires forall id :: Kept(s, s1, id)
    requires forall id :: Kept(s1, s2, id)
    ensures forall id :: Kept(s, s2, id)
  {
    forall id ensures Kept(s, s2, id) {
      assert Kept(s, s1, id) && Kept(s1, s2, id);
    }
  }

  /** The loop of GetAddr_ from its n-th round on; `picks` are the random draws. */
  function SampleFrom(e: Env, s: State, n: nat, cap: nat, out: seq<Address>, picks: nat -> nat, now: int): (r: (State, seq<Address>))
    requires Inv(e, s) && n <= |s.random|
    ensures Inv(e, r.0)
    decreases |s.random| - n
  {
    if n >= |s.random| || |out| >= cap then (s, out) else
      var j := Draw(picks(n), n, |s.random|);
      SwapKeepsInv(e, s, n, j);
      var s1 := SwapRandom(s, n, j);
      assert PlaceKnown(s1, n);
      var info := s1.info[s1.random[n]];
      SampleFrom(e, s1, n + 1, cap, if info.IsTerrible(now) then out else out + [info.address], picks, now)
  }

  function GetAddr(e: Env, s: State, picks: nat -> nat, now: int): (r: (State, seq<Address>))
    requires Inv(e, s)
    ensures Inv(e, r.0)
  {
    SampleFrom(e, s, 0, Cap(s), [], picks, now)
  }

  /** One round of the loop appends the n-th id of the reshuffled vector, unless it is terrible. */
  lemma SampleRound(e: Env, s: State, n: nat, j: nat, now: int)
    requires Inv(e, s) && n <= j < |s.random|
    ensures PlaceKnown(s, n) && PlaceKnown(s, j)
    ensures var s1 := SwapRandom(s, n, j);
            && |s1.random| == |s.random| && multiset(s1.random) == multiset(s.random) && s1.random[n] in s1.info
            && Gather(s1.info, s1.random[..n + 1], now) ==
               Gather(s.info, s.random[..n], now)
               + (if s1.info[s1.random[n]].IsTerrible(now) then [] else [s1.info[s1.random[n]].address])
  {
    hide Inv, Loose, Gather, Kept, SwapRandom;
    SwapKeepsInv(e, s, n, j);
    var s1 := SwapRandom(s, n, j);
    SwappedVector(s, n, j);
    PlacesAreKnown(e, s);
    PlacesAreKnown(e, s1);
    GatherIgnoresPlaces(s, s1, s.random[..n], now);
    GatherStep(s1.info, s1.random, n, now);
  }

  lemma SwappedVector(s: State, n: nat, j: nat)
    requires n <= j < |s.random| && s.random[n] in s.info && s.random[j] in s.info
    ensures var s1 := SwapRandom(s, n, j);
            |s1.random| == |s.random| && multiset(s1.random) == multiset(s.random) && s1.random[..n] == s.random[..n]
  {
  }

  lemma PlacesAreKnown(e: Env, s: State)
    requires Inv(e, s)
    ensures forall k | 0 <= k < |s.random| :: s.random[k] in s.info
  {
    forall k | 0 <= k < |s.random| ensures s.random[k] in s.info { assert PlaceKnown(s, k); }
  }

  lemma GatherStep(info: map<nat, Info>, ids: seq<nat>, n: nat, now: int)
    requires n < |ids|
    ensures Gather(info, ids[..n + 1], now)
            == Gather(info, ids[..n], now) + (if ids[n] in info && !info[ids[n]].IsTerrible(now) then [info[ids[n]].address] else [])
  {
    assert ids[..n + 1][..n] == ids[..n];
  }

  lemma {:induction false} SampleIsAPrefix(e: Env, s: State, n: nat, cap: nat, out: seq<Address>, picks: nat -> nat, now: int) returns (m: nat)
    requires Inv(e, s) && n <= |s.random| && |out| <= cap
    requires out == Gather(s.info, s.random[..n], now)
    ensures var r := SampleFrom(e, s, n, cap, out, picks, now);
            && m <= |r.0.random| == |s.random| && multiset(r.0.random) == multiset(s.random)
            && r.1 == Gather(r.0.info, r.0.random[..m], now)
            && |r.1| <= cap && (m == |s.random| || |r.1| == cap)
            && (forall id :: Kept(s, r.0, id))
    decreases |s.random| - n
  {
    hide Loose, Inv, SwapRandom, Gather, PlaceKnown, Draw;
    if n >= |s.random| || |out| >= cap {
      m := n;
    } else {
      var j := Draw(picks(n), n, |s.random|);
      SwapKeepsInv(e, s, n, j);
      SampleRound(e, s, n, j, now);
      var s1 := SwapRandom(s, n, j);
      var info := s1.info[s1.random[n]];
      m := SampleIsAPrefix(e, s1, n + 1, cap, if info.IsTerrible(now) then out else out + [info.address], picks, now);
      KeptTwice(s, s1, SampleFrom(e, s, n, cap, out, picks, now).0);
    }
  }

  lemma {:induction false} GatheredAreKnown(e: Env, s: State, m: nat, now: int)
    requires Inv(e, s) && m <= |s.random|
    ensures forall a | a in Gather(s.info, s.random[..m], now) ::
              a.service.ip in s.addrs && s.addrs[a.service.ip] in s.random[..m]
              && s.addrs[a.service.ip] in s.info && s.info[s.addrs[a.service.ip]].address == a
              && !s.info[s.addrs[a.service.ip]].IsTerrible(now)
    ensures forall i, j | 0 <= i < j < |Gather(s.info, s.random[..m], now)| ::
              Gather(s.info, s.random[..m], now)[i].service.ip != Gather(s.info, s.random[..m], now)[j].service.ip
  {
    if m > 0 {
      GatheredAreKnown(e, s, m - 1, now);
      assert s.random[..m][..m - 1] == s.random[..m - 1];
      var id := s.random[m - 1];
      assert PlaceKnown(s, m - 1) && IdNamed(s, id);
      forall i | 0 <= i < m - 1 ensures s.random[i] != id {
        RandomIsDistinct(s, i, m - 1);
      }
    }
  }

  /**
   GetAddr_ returns different known addresses, none of them terrible, at most 2500 and at most
   23 percent of all; it falls short of that only by having offered every address that is not terrible.
   It only shuffles the random vector.
   */
  lemma GetAddrSamples(e: Env, s: State, picks: nat -> nat, now: int)
    requires Inv(e, s)
    ensures var (s', out) := GetAddr(e, s, picks, now);
            var cap := if |s.random| * 23 / 100 < 2500 then |s.random| * 23 / 100 else 2500;
            && multiset(s'.random) == multiset(s.random) && (forall id :: Kept(s, s', id))
            && |out| <= cap
            && (forall i, j | 0 <= i < j < |out| :: out[i].service.ip != out[j].service.ip)
            && (forall a | a in out :: a.service.ip in s'.addrs && s'.addrs[a.service.ip] in s'.info
                  && s'.info[s'.addrs[a.service.ip]].address == a && !s'.info[s'.addrs[a.service.ip]].IsTerrible(now))
            && (|out| < cap ==> out == Gather(s'.info, s'.random, now))
  {
    assert s.random[..0] == [];
    var m := SampleIsAPrefix(e, s, 0, Cap(s), [], picks, now);
    var (s', out) := GetAddr(e, s, picks, now);
    GatheredAreKnown(e, s', m, now);
    assert s'.random[..|s'.random|] == s'.random;
  }

  // ---------- runs ----------

  datatype Op =
    | OpAdd(a: Address, source: Ip, penalty: int, now: int, roll: nat)
    | OpGood(service: Service, time: int)
    | OpAttempt(service: Service, time: int)
    | OpConnected(service: Service, time: int)
    | OpGetAddr(picks: nat -> nat, now: int)

  function Step(e: Env, s: State, op: Op): (s': State)
    requires Inv(e, s)
    ensures Inv(e, s')
  {
    match op
    case OpAdd(a, source, penalty, now, roll) => Add(e, s, a, source, penalty, now, roll).0
    case OpGood(service, time) => Good(e, s, service, time)
    case OpAttempt(service, time) => Attempt(e, s, service, time)
    case OpConnected(service, time) => Connected(e, s, service, time)
    case OpGetAddr(picks, now) => GetAddr(e, s, picks, now).0
  }

  function Run(e: Env, s: State, ops: seq<Op>): (s': State)
    requires Inv(e, s)
    ensures Inv(e, s')
    decreases |ops|
  {
    if ops == [] then s else Run(e, Step(e, s, ops[0]), ops[1..])
  }

  lemma EmptyIsOk(e: Env, key: Key)
    ensures Inv(e, Empty(key))
  {
    var s := Empty(key);
    assert NewIds(s) - {} == {} && TriedIds(s) == {};
  }

  lemma CountsAddUp(e: Env, s: State)
    requires Inv(e, s)
    ensures |s.info| == s.nNew + s.nTried
  {
    BothSides(s);
    hide NewIds, TriedIds;
  }

  /** Whatever an empty manager is put through, its indexes stay consistent and its counters exact. */
  lemma RunsStayConsistent(e: Env, key: Key, ops: seq<Op>)
    ensures Inv(e, Empty(key))
    ensures var s := Run(e, Empty(key), ops);
            Inv(e, s) && |s.random| == s.nNew + s.nTried && |s.info| == |s.random|
  {
    EmptyIsOk(e, key);
    var s := Run(e, Empty(key), ops);
    RandomHoldsBothTables(e, s);
    CountsAddUp(e, s);
  }
}
