/** The pending-transaction tracker: two maps that must agree, over every sequence of events. */
module Mempool {
  import opened Words
  import opened Model

  datatype PendingState = Active | Replaced(byHash: string) | Included(blockNumber: u64) | Dropped

  datatype PendingRecord =
    PendingRecord(tx: PendingTransaction, state: PendingState, firstSeenSeq: u64, lastSeenSeq: u64)

  datatype ObserveOutcome =
    | NewActive(txHash: string)
    | Duplicate(txHash: string)
    | ReplacedActive(oldHash: string, newHash: string)
    | IgnoredStaleReplacement(activeHash: string, staleHash: string)

  /** The contents of a tracker. */
  datatype Tracked =
    Tracked(nextSeq: u64, records: map<string, PendingRecord>, activeByIdentity: map<TxIdentity, string>)

  const EMPTY: Tracked := Tracked(0, map[], map[])

  /** Strictly higher in the lexicographic order of fee and priority fee. */
  predicate Outranks(a: PendingTransaction, b: PendingTransaction) {
    || b.maxFeePerGas < a.maxFeePerGas
    || (b.maxFeePerGas == a.maxFeePerGas && b.maxPriorityFeePerGas < a.maxPriorityFeePerGas)
  }

  function Bump(seqNo: u64): u64 {
    if seqNo + 1 < TWO_64 then seqNo + 1 else TWO_64 - 1
  }

  function WithActive(records: map<string, PendingRecord>, tx: PendingTransaction, seen: u64)
    : map<string, PendingRecord>
  {
    records[tx.txHash := PendingRecord(tx, Active, seen, seen)]
  }

  /** One observation, as a function of the tracker's contents. */
  function Observed(s: Tracked, tx: PendingTransaction): (Tracked, ObserveOutcome) {
    var seen := Bump(s.nextSeq);
    var identity := tx.Identity();
    if tx.txHash in s.records then
      (Tracked(seen, s.records[tx.txHash := s.records[tx.txHash].(lastSeenSeq := seen)], s.activeByIdentity),
       Duplicate(tx.txHash))
    else if identity in s.activeByIdentity then
      var activeHash := s.activeByIdentity[identity];
      var outranks := if activeHash in s.records then Outranks(tx, s.records[activeHash].tx)
                      else tx.maxFeePerGas > 0 || tx.maxPriorityFeePerGas > 0;
      if !outranks then (s.(nextSeq := seen), IgnoredStaleReplacement(activeHash, tx.txHash)) else
      var retired := if activeHash in s.records
                     then s.records[activeHash := s.records[activeHash].(state := Replaced(tx.txHash),
                                                                         lastSeenSeq := seen)]
                     else s.records;
      (Tracked(seen, WithActive(retired, tx, seen), s.activeByIdentity[identity := tx.txHash]),
       ReplacedActive(activeHash, tx.txHash))
    else
      (Tracked(seen, WithActive(s.records, tx, seen), s.activeByIdentity[identity := tx.txHash]), NewActive(tx.txHash))
  }

  /** A transaction leaving the pool: included or dropped. */
  function Retired(s: Tracked, txHash: string, state: PendingState): (Tracked, bool) {
    var seen := Bump(s.nextSeq);
    if txHash !in s.records then (s.(nextSeq := seen), false) else
    var identity := s.records[txHash].tx.Identity();
    var active := if identity in s.activeByIdentity && s.activeByIdentity[identity] == txHash
                  then s.activeByIdentity - {identity}
                  else s.activeByIdentity;
    (Tracked(seen, s.records[txHash := s.records[txHash].(state := state, lastSeenSeq := seen)], active), true)
  }

  // ----- The invariant

  ghost predicate KeyedByHash(s: Tracked) {
    forall h :: h in s.records ==> s.records[h].tx.txHash == h
  }

  ghost predicate IdentitiesActive(s: Tracked) {
    forall id :: id in s.activeByIdentity ==>
      s.activeByIdentity[id] in s.records && s.records[s.activeByIdentity[id]].state.Active?
      && s.records[s.activeByIdentity[id]].tx.Identity() == id
  }

  ghost predicate ActivesListed(s: Tracked) {
    forall h :: h in s.records && s.records[h].state.Active? ==>
      s.records[h].tx.Identity() in s.activeByIdentity && s.activeByIdentity[s.records[h].tx.Identity()] == h
  }

  /** The identity map is a bijection onto the active records. */
  ghost predicate MapsAgree(s: Tracked) {
    KeyedByHash(s) && IdentitiesActive(s) && ActivesListed(s)
  }

  /** Every replaced record names a recorded transaction of the same identity that outranks it. */
  ghost predicate ReplacementsRise(s: Tracked) {
    forall h :: h in s.records && s.records[h].state.Replaced? ==>
      var winner := s.records[h].state.byHash;
      && winner in s.records && s.records[winner].tx.Identity() == s.records[h].tx.Identity()
      && Outranks(s.records[winner].tx, s.records[h].tx)
  }

  ghost predicate Consistent(s: Tracked) {
    MapsAgree(s) && ReplacementsRise(s)
  }

  lemma ObserveKeyed(s: Tracked, tx: PendingTransaction)
    requires KeyedByHash(s)
    ensures KeyedByHash(Observed(s, tx).0)
  {
    hide Outranks, Bump;
  }

  lemma ObserveIdentities(s: Tracked, tx: PendingTransaction)
    requires IdentitiesActive(s)
    ensures IdentitiesActive(Observed(s, tx).0)
  {
    hide Outranks, Bump;
  }

  lemma ObserveListed(s: Tracked, tx: PendingTransaction)
    requires MapsAgree(s)
    ensures ActivesListed(Observed(s, tx).0)
  {
    hide Outranks, Bump;
  }

  lemma ObserveAgrees(s: Tracked, tx: PendingTransaction)
    requires MapsAgree(s)
    ensures MapsAgree(Observed(s, tx).0)
  {
    hide Outranks, KeyedByHash, IdentitiesActive, ActivesListed, Observed;
    ObserveKeyed(s, tx);
    ObserveIdentities(s, tx);
    ObserveListed(s, tx);
  }

  lemma ObserveRises(s: Tracked, tx: PendingTransaction)
    requires MapsAgree(s) && ReplacementsRise(s)
    ensures ReplacementsRise(Observed(s, tx).0)
  {
    hide Outranks;
  }

  lemma ObserveConsistent(s: Tracked, tx: PendingTransaction)
    requires Consistent(s)
    ensures Consistent(Observed(s, tx).0)
  {
    hide MapsAgree, ReplacementsRise, Observed;
    ObserveAgrees(s, tx);
    ObserveRises(s, tx);
  }

  lemma RetireConsistent(s: Tracked, txHash: string, state: PendingState)
    requires Consistent(s) && (state.Included? || state.Dropped?)
    ensures Consistent(Retired(s, txHash, state).0)
  {
  }

  // ----- The tracker

  ghost function ActiveTx(s: Tracked, identity: TxIdentity): Option<PendingTransaction>
    requires Consistent(s)
  {
    if identity in s.activeByIdentity then Some(s.records[s.activeByIdentity[identity]].tx) else None
  }

  ghost function ActiveHashes(s: Tracked): set<string> {
    set h | h in s.records && s.records[h].state.Active?
  }

  lemma {:induction false} InjectiveCount(m: map<TxIdentity, string>)
    requires forall a, b :: a in m && b in m && m[a] == m[b] ==> a == b
    ensures |m| == |m.Values|
  {
    if m != map[] {
      var a :| a in m;
      var rest := m - {a};
      InjectiveCount(rest);
      assert m[a] !in rest.Values;
      forall v | v in m.Values
        ensures v in rest.Values + {m[a]}
      {
        var b :| b in m && m[b] == v;
        assert b != a ==> b in rest && rest[b] == v;
      }
      assert m.Values == rest.Values + {m[a]};
      assert m.Keys == rest.Keys + {a};
    }
  }

  lemma ActiveCount(s: Tracked)
    requires Consistent(s)
    ensures |s.activeByIdentity| == |ActiveHashes(s)|
  {
    assert s.activeByIdentity.Values == ActiveHashes(s);
    InjectiveCount(s.activeByIdentity);
  }

  // ----- What an event answers and changes

  /** The answer to an observation and all it changes. A known hash is a duplicate that is only seen
      again; a new one becomes active, unless its identity has an active transaction of at least its
      fee, or of its fee and at least its priority fee; otherwise that one is replaced. */
  lemma ObserveAnswer(s: Tracked, tx: PendingTransaction)
    requires Consistent(s)
    ensures var (after, answer) := Observed(s, tx);
            && after.nextSeq == (if s.nextSeq < TWO_64 - 1 then s.nextSeq + 1 else s.nextSeq)
            && if tx.txHash in s.records then
                 && answer == Duplicate(tx.txHash) && after.activeByIdentity == s.activeByIdentity
                 && after.records
                    == s.records[tx.txHash := s.records[tx.txHash].(lastSeenSeq := after.nextSeq)]
               else match ActiveTx(s, tx.Identity())
                 case None =>
                   && answer == NewActive(tx.txHash)
                   && after.activeByIdentity == s.activeByIdentity[tx.Identity() := tx.txHash]
                   && after.records
                      == s.records[tx.txHash := PendingRecord(tx, Active, after.nextSeq, after.nextSeq)]
                 case Some(top) =>
                   if tx.maxFeePerGas < top.maxFeePerGas
                      || (tx.maxFeePerGas == top.maxFeePerGas && tx.maxPriorityFeePerGas <= top.maxPriorityFeePerGas)
                   then
                     && answer == IgnoredStaleReplacement(top.txHash, tx.txHash)
                     && after.records == s.records && after.activeByIdentity == s.activeByIdentity
                   else
                     && answer == ReplacedActive(top.txHash, tx.txHash)
                     && after.activeByIdentity == s.activeByIdentity[tx.Identity() := tx.txHash]
                     && after.records.Keys == s.records.Keys + {tx.txHash}
                     && after.records[tx.txHash] == PendingRecord(tx, Active, after.nextSeq, after.nextSeq)
                     && top.txHash in s.records
                     && after.records[top.txHash]
                        == s.records[top.txHash].(state := Replaced(tx.txHash), lastSeenSeq := after.nextSeq)
                     && forall h :: h in s.records && h != top.txHash ==> after.records[h] == s.records[h]
  {
  }

  /** The answer to a terminal event and all it changes: a known hash takes the terminal state and is
      seen again, and its identity is free if it was the active one. */
  lemma RetireAnswer(s: Tracked, txHash: string, state: PendingState)
    requires Consistent(s) && (state.Included? || state.Dropped?)
    ensures var (after, known) := Retired(s, txHash, state);
            && after.nextSeq == (if s.nextSeq < TWO_64 - 1 then s.nextSeq + 1 else s.nextSeq)
            && (known <==> txHash in s.records)
            && (!known ==> after.records == s.records && after.activeByIdentity == s.activeByIdentity)
            && (known ==>
                  && after.records
                     == s.records[txHash := s.records[txHash].(state := state, lastSeenSeq := after.nextSeq)]
                  && forall identity :: identity in after.activeByIdentity
                       <==> && identity in s.activeByIdentity && s.activeByIdentity[identity] != txHash)
            && (forall identity :: identity in after.activeByIdentity ==>
                  && identity in s.activeByIdentity
                  && after.activeByIdentity[identity] == s.activeByIdentity[identity])
  {
  }

  class MempoolTracker {
    var nextSeq: u64
    var records: map<string, PendingRecord>
    var activeByIdentity: map<TxIdentity, string>

    ghost function Contents(): Tracked
      reads this
    {
      Tracked(nextSeq, records, activeByIdentity)
    }

    ghost predicate Valid()
      reads this
    {
      Consistent(Contents())
    }

    constructor ()
      ensures Valid() && Contents() == EMPTY
    {
      nextSeq, records, activeByIdentity := 0, map[], map[];
    }

    /** The next sequence number: one more than the last, until the last one there is. */
    method BumpSeq() returns (seqNo: u64)
      modifies `nextSeq
      ensures seqNo == nextSeq && old(nextSeq) <= nextSeq <= old(nextSeq) + 1
      ensures nextSeq == old(nextSeq) <==> old(nextSeq) == TWO_64 - 1
    {
      nextSeq := if nextSeq + 1 < TWO_64 then nextSeq + 1 else TWO_64 - 1;
      seqNo := nextSeq;
    }

    method Observe(tx: PendingTransaction) returns (outcome: ObserveOutcome)
      requires Valid()
      modifies this
      ensures Valid()
      ensures (Contents(), outcome) == Observed(old(Contents()), tx)
    {
      hide Consistent;
      ObserveConsistent(Contents(), tx);
      var seen := BumpSeq();
      if tx.txHash in records {
        records := records[tx.txHash := records[tx.txHash].(lastSeenSeq := seen)];
        return Duplicate(tx.txHash);
      }
      var identity := tx.Identity();
      if identity in activeByIdentity {
        var activeHash := activeByIdentity[identity];
        var outranks := if activeHash in records then Outranks(tx, records[activeHash].tx)
                        else tx.maxFeePerGas > 0 || tx.maxPriorityFeePerGas > 0;
        if !outranks {
          return IgnoredStaleReplacement(activeHash, tx.txHash);
        }
        if activeHash in records {
          records := records[activeHash := records[activeHash].(state := Replaced(tx.txHash), lastSeenSeq := seen)];
        }
        activeByIdentity := activeByIdentity[identity := tx.txHash];
        records := records[tx.txHash := PendingRecord(tx, Active, seen, seen)];
        return ReplacedActive(activeHash, tx.txHash);
      }
      activeByIdentity := activeByIdentity[identity := tx.txHash];
      records := records[tx.txHash := PendingRecord(tx, Active, seen, seen)];
      outcome := NewActive(tx.txHash);
    }

    method TransitionTerminal(txHash: string, state: PendingState) returns (known: bool)
      requires Valid() && (state.Included? || state.Dropped?)
      modifies this
      ensures Valid()
      ensures (Contents(), known) == Retired(old(Contents()), txHash, state)
    {
      hide Consistent;
      RetireConsistent(Contents(), txHash, state);
      var seen := BumpSeq();
      if txHash !in records {
        return false;
      }
      var identity := records[txHash].tx.Identity();
      if identity in activeByIdentity && activeByIdentity[identity] == txHash {
        activeByIdentity := activeByIdentity - {identity};
      }
      records := records[txHash := records[txHash].(state := state, lastSeenSeq := seen)];
      known := true;
    }

    method MarkIncluded(txHash: string, blockNumber: u64) returns (known: bool)
      requires Valid()
      modifies this
      ensures Valid()
      ensures (Contents(), known) == Retired(old(Contents()), txHash, Included(blockNumber))
    {
      known := TransitionTerminal(txHash, Included(blockNumber));
    }

    method MarkDropped(txHash: string) returns (known: bool)
      requires Valid()
      modifies this
      ensures Valid()
      ensures (Contents(), known) == Retired(old(Contents()), txHash, Dropped)
    {
      known := TransitionTerminal(txHash, Dropped);
    }

    method ActiveTransaction(identity: TxIdentity) returns (tx: Option<PendingTransaction>)
      requires Valid()
      ensures tx == ActiveTx(Contents(), identity)
    {
      if identity !in activeByIdentity || activeByIdentity[identity] !in records {
        return None;
      }
      tx := Some(records[activeByIdentity[identity]].tx);
    }

    /** How many identities have an active transaction: exactly the active records. */
    method ActiveLen() returns (count: nat)
      requires Valid()
      ensures count == |ActiveHashes(Contents())|
    {
      count := |activeByIdentity|;
      ActiveCount(Contents());
    }
  }

  // ----- Runs

  datatype Event = Observe(tx: PendingTransaction) | Include(txHash: string, blockNumber: u64) | Drop(txHash: string)

  function Step(s: Tracked, e: Event): Tracked {
    match e
    case Observe(tx) => Observed(s, tx).0
    case Include(h, n) => Retired(s, h, Included(n)).0
    case Drop(h) => Retired(s, h, Dropped).0
  }

  function Run(s: Tracked, events: seq<Event>): Tracked
    decreases |events|
  {
    if events == [] then s else Run(Step(s, events[0]), events[1..])
  }

  lemma EmptyConsistent()
    ensures Consistent(EMPTY)
  {
  }

  /** Every run from a consistent tracker stays consistent; the empty tracker is. */
  lemma {:induction false} RunConsistent(s: Tracked, events: seq<Event>)
    requires Consistent(s)
    ensures Consistent(Run(s, events)) && Consistent(EMPTY)
    decreases |events|
  {
    hide Consistent, Observed, Retired;
    if events != [] {
      match events[0] {
        case Observe(tx) => ObserveConsistent(s, tx);
        case Include(h, n) => RetireConsistent(s, h, Included(n));
        case Drop(h) => RetireConsistent(s, h, Dropped);
      }
      RunConsistent(Step(s, events[0]), events[1..]);
    } else {
      EmptyConsistent();
    }
  }

  lemma StepKeeps(s: Tracked, e: Event, h: string)
    requires Consistent(s) && h in s.records
    ensures h in Step(s, e).records && Step(s, e).records[h].tx == s.records[h].tx
    ensures !s.records[h].state.Active? ==> !Step(s, e).records[h].state.Active?
  {
  }

  /** A recorded transaction is never forgotten or altered, and once it has left the active state
      it never returns to it. */
  lemma {:induction false} NeverActiveAgain(s: Tracked, events: seq<Event>, h: string)
    requires Consistent(s) && h in s.records
    ensures h in Run(s, events).records && Run(s, events).records[h].tx == s.records[h].tx
    ensures !s.records[h].state.Active? ==> !Run(s, events).records[h].state.Active?
    decreases |events|
  {
    hide Consistent, Step;
    if events != [] {
      StepKeeps(s, events[0], h);
      RunConsistent(s, [events[0]]);
      assert Run(s, [events[0]]) == Run(Step(s, events[0]), []);
      NeverActiveAgain(Step(s, events[0]), events[1..], h);
    }
  }

  /** Every record was first seen no later than last seen, and last seen no later than now. */
  ghost predicate SeenInOrder(s: Tracked) {
    forall h :: h in s.records ==> s.records[h].firstSeenSeq <= s.records[h].lastSeenSeq <= s.nextSeq
  }

  lemma StepSeenInOrder(s: Tracked, e: Event)
    requires SeenInOrder(s)
    ensures SeenInOrder(Step(s, e)) && s.nextSeq <= Step(s, e).nextSeq
  {
    hide Outranks;
  }

  lemma {:induction false} RunSeenInOrder(s: Tracked, events: seq<Event>)
    requires SeenInOrder(s)
    ensures SeenInOrder(Run(s, events)) && s.nextSeq <= Run(s, events).nextSeq
    decreases |events|
  {
    hide Outranks, Step, SeenInOrder;
    if events != [] {
      StepSeenInOrder(s, events[0]);
      RunSeenInOrder(Step(s, events[0]), events[1..]);
    }
  }

  /** An observation touches at most its own record and the record it replaces. */
  lemma ObserveTouches(s: Tracked, tx: PendingTransaction, h: string)
    requires Consistent(s) && h in s.records && h != tx.txHash && ActiveTx(s, tx.Identity()) != Some(s.records[h].tx)
    ensures h in Observed(s, tx).0.records && Observed(s, tx).0.records[h] == s.records[h]
  {
  }

  // ----- Replacement chains

  /** Following replacements from any record ends: at a record that was not replaced, of the same
      identity, that outranks every record passed on the way. */
  ghost function ChainEnd(s: Tracked, h: string): (end: string)
    requires Consistent(s) && h in s.records
    ensures end in s.records && !s.records[end].state.Replaced?
    ensures s.records[end].tx.Identity() == s.records[h].tx.Identity()
    ensures end != h ==> s.records[h].state.Replaced? && Outranks(s.records[end].tx, s.records[h].tx)
    decreases TWO_128 - s.records[h].tx.maxFeePerGas, TWO_128 - s.records[h].tx.maxPriorityFeePerGas
  {
    if s.records[h].state.Replaced? then ChainEnd(s, s.records[h].state.byHash) else h
  }

  /** If an identity still has an active transaction, every chain that ends active ends there. */
  lemma ChainEndsAtActive(s: Tracked, h: string)
    requires Consistent(s) && h in s.records && s.records[ChainEnd(s, h)].state.Active?
    ensures ActiveTx(s, s.records[h].tx.Identity()) == Some(s.records[ChainEnd(s, h)].tx)
  {
  }

  // ----- Which observation wins

  /** The transactions of an identity among some observations whose hash was new when seen. */
  ghost function Fresh(s: Tracked, txs: seq<PendingTransaction>, identity: TxIdentity): seq<PendingTransaction>
    decreases |txs|
  {
    if txs == [] then [] else
    (if txs[0].Identity() == identity && txs[0].txHash !in s.records then [txs[0]] else [])
    + Fresh(Observed(s, txs[0]).0, txs[1..], identity)
  }

  function ObserveAll(s: Tracked, txs: seq<PendingTransaction>): Tracked
    decreases |txs|
  {
    if txs == [] then s else ObserveAll(Observed(s, txs[0]).0, txs[1..])
  }

  /** The first of the highest-ranked: nothing outranks it and it outranks everything before. */
  ghost predicate FirstHighest(txs: seq<PendingTransaction>, tx: PendingTransaction) {
    exists j :: 0 <= j < |txs| && txs[j] == tx
      && (forall i :: 0 <= i < |txs| ==> !Outranks(txs[i], tx)) && (forall i :: 0 <= i < j ==> Outranks(tx, txs[i]))
  }

  ghost function AsSeq(tx: Option<PendingTransaction>): seq<PendingTransaction> {
    if tx.Some? then [tx.value] else []
  }

  /** What one observation does to the active transaction of an identity. */
  lemma ObserveActive(s: Tracked, tx: PendingTransaction, identity: TxIdentity)
    requires Consistent(s) && Consistent(Observed(s, tx).0)
    ensures var before := ActiveTx(s, identity);
            ActiveTx(Observed(s, tx).0, identity)
            == if tx.Identity() == identity && tx.txHash !in s.records && (before == None || Outranks(tx, before.value))
               then Some(tx) else before
  {
  }

  /** What a retirement does to the active transaction of an identity: it is gone if it was the
      one retired, and untouched otherwise. */
  lemma RetireActive(s: Tracked, txHash: string, state: PendingState, identity: TxIdentity)
    requires Consistent(s) && (state.Included? || state.Dropped?) && Consistent(Retired(s, txHash, state).0)
    ensures var before := ActiveTx(s, identity);
            ActiveTx(Retired(s, txHash, state).0, identity)
            == if before.Some? && before.value.txHash == txHash then None else before
    ensures Retired(s, txHash, state).1 <==> txHash in s.records
    ensures txHash in s.records ==> Retired(s, txHash, state).0.records[txHash].state == state
  {
  }

  lemma HighestOfPair(a: PendingTransaction, tx: PendingTransaction, rest: seq<PendingTransaction>,
                      winner: PendingTransaction)
    requires FirstHighest([if Outranks(tx, a) then tx else a] + rest, winner)
    ensures FirstHighest([a, tx] + rest, winner)
  {
    var kept := if Outranks(tx, a) then tx else a;
    var short, long := [kept] + rest, [a, tx] + rest;
    var j :| 0 <= j < |short| && short[j] == winner
      && (forall i :: 0 <= i < |short| ==> !Outranks(short[i], winner))
      && (forall i :: 0 <= i < j ==> Outranks(winner, short[i]));
    forall i | 0 <= i < |long|
      ensures !Outranks(long[i], winner)
    {
      assert !Outranks(short[0], winner);
      if i >= 2 {
        assert long[i] == short[i - 1];
      }
    }
    var position := if j > 0 then j + 1 else if kept == a then 0 else 1;
    forall i | 0 <= i < position
      ensures Outranks(winner, long[i])
    {
      if i >= 2 {
        assert long[i] == short[i - 1];
      }
    }
    assert long[position] == winner;
  }

  /** Taking the first highest of an active transaction and one new one leaves the first highest
      of everything that follows unchanged. */
  lemma HighestCons(a: Option<PendingTransaction>, tx: PendingTransaction, rest: seq<PendingTransaction>,
                    winner: PendingTransaction)
    requires FirstHighest(AsSeq(if a == None || Outranks(tx, a.value) then Some(tx) else a) + rest, winner)
    ensures FirstHighest(AsSeq(a) + ([tx] + rest), winner)
  {
    if a == None {
      assert AsSeq(a) + ([tx] + rest) == [tx] + rest;
    } else {
      assert AsSeq(a) + ([tx] + rest) == [a.value, tx] + rest;
      HighestOfPair(a.value, tx, rest, winner);
    }
  }

  lemma AloneHighest(tx: Option<PendingTransaction>)
    ensures tx.Some? ==> FirstHighest(AsSeq(tx), tx.value)
  {
    if tx.Some? {
      assert AsSeq(tx)[0] == tx.value;
    }
  }

  /** Between terminal events, the active transaction of an identity is the first highest-ranked
      among the one that was active and the fresh observations; and there is one exactly when
      that list is not empty. */
  lemma {:induction false} HighestObservationWins(s: Tracked, txs: seq<PendingTransaction>, identity: TxIdentity)
    requires Consistent(s)
    ensures Consistent(ObserveAll(s, txs))
    ensures var contenders := AsSeq(ActiveTx(s, identity)) + Fresh(s, txs, identity);
            var winner := ActiveTx(ObserveAll(s, txs), identity);
            (winner == None <==> contenders == []) && (winner.Some? ==> FirstHighest(contenders, winner.value))
    decreases |txs|
  {
    hide Consistent, Observed, ActiveTx, FirstHighest;
    if txs == [] {
      AloneHighest(ActiveTx(s, identity));
      assert AsSeq(ActiveTx(s, identity)) + [] == AsSeq(ActiveTx(s, identity));
    } else {
      var after := Observed(s, txs[0]).0;
      ObserveConsistent(s, txs[0]);
      ObserveActive(s, txs[0], identity);
      HighestObservationWins(after, txs[1..], identity);
      var winner := ActiveTx(ObserveAll(s, txs), identity);
      var rest := Fresh(after, txs[1..], identity);
      if txs[0].Identity() == identity && txs[0].txHash !in s.records {
        if winner.Some? {
          HighestCons(ActiveTx(s, identity), txs[0], rest, winner.value);
        }
      } else {
        assert Fresh(s, txs, identity) == [] + rest == rest;
      }
    }
  }
}
