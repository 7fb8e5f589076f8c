/**
 * The derived tables row by row: what one log does to one order, position,
 * account or log entry, and when two histories leave the same rows.
 */
module Rows {
  import opened Store
  import opened Chain
  import opened Hazards

  /** What a row is about. An entry is everything stored under a log's own key. */
  datatype Entity = Order(id: nat) | Position(pk: PositionKey) | Account(account: string) | Entry(key: LogKey)

  function Pick<K, V>(m: map<K, V>, k: K): map<K, V> { if k in m then map[k := m[k]] else map[] }

  /** The tables with only one entity's rows left in them. */
  function Only(d: Derived, e: Entity): Derived {
    match e
    case Order(id) => EMPTY.(orders := Pick(d.orders, id))
    case Position(pk) => EMPTY.(positions := Pick(d.positions, pk))
    case Account(a) => EMPTY.(accounts := Pick(d.accounts, a))
    case Entry(k) =>
      EMPTY.(applied := Pick(d.applied, k), trades := Pick(d.trades, k), positionEvents := Pick(d.positionEvents, k),
             funding := Pick(d.funding, k), liquidations := Pick(d.liquidations, k))
  }

  /** The tables are their rows. */
  lemma SameRows(a: Derived, b: Derived)
    requires forall e :: Only(a, e) == Only(b, e)
    ensures a == b
  {
    SameEntries(a, b);
    forall id ensures Pick(a.orders, id) == Pick(b.orders, id) {
      assert Only(a, Order(id)) == Only(b, Order(id));
    }
    SamePicks(a.orders, b.orders);
    forall pk ensures Pick(a.positions, pk) == Pick(b.positions, pk) {
      assert Only(a, Position(pk)) == Only(b, Position(pk));
    }
    SamePicks(a.positions, b.positions);
    forall account ensures Pick(a.accounts, account) == Pick(b.accounts, account) {
      assert Only(a, Account(account)) == Only(b, Account(account));
    }
    SamePicks(a.accounts, b.accounts);
  }

  lemma SameEntries(a: Derived, b: Derived)
    requires forall e :: Only(a, e) == Only(b, e)
    ensures a.applied == b.applied && a.trades == b.trades && a.positionEvents == b.positionEvents
    ensures a.funding == b.funding && a.liquidations == b.liquidations
  {
    forall k
      ensures Pick(a.applied, k) == Pick(b.applied, k) && Pick(a.trades, k) == Pick(b.trades, k)
      ensures Pick(a.positionEvents, k) == Pick(b.positionEvents, k)
      ensures Pick(a.funding, k) == Pick(b.funding, k) && Pick(a.liquidations, k) == Pick(b.liquidations, k)
    {
      assert Only(a, Entry(k)) == Only(b, Entry(k));
    }
    SamePicks(a.applied, b.applied);
    SamePicks(a.trades, b.trades);
    SamePicks(a.positionEvents, b.positionEvents);
    SamePicks(a.funding, b.funding);
    SamePicks(a.liquidations, b.liquidations);
  }

  lemma SamePicks<K, V>(a: map<K, V>, b: map<K, V>)
    requires forall k :: Pick(a, k) == Pick(b, k)
    ensures a == b
  {
    forall k ensures (k in a <==> k in b) && (k in a ==> a[k] == b[k]) {
      assert Pick(a, k) == Pick(b, k);
      assert k in a <==> k in Pick(a, k);
      assert k in b <==> k in Pick(b, k);
      assert k in a ==> Pick(a, k)[k] == a[k];
      assert k in b ==> Pick(b, k)[k] == b[k];
    }
  }

  // ---------------------------------------------------------------- one log, one row

  predicate TouchesOrder(ev: Event, id: nat) {
    match ev
    case OrderPlaced(o, _, _, _, _, _, _, _, _, _, _, _) => o == id
    case OrderFilled(taker, _, _, _, _, _, _, maker, _, _) => taker == id || (maker == id && maker != 0)
    case OrderCancelled(o) => o == id
    case OrderTriggered(o) => o == id
    case _ => false
  }

  predicate TouchesAccount(ev: Event, account: string) {
    match ev
    case AccountInitialized(a) => a == account
    case Deposited(a, _) => a == account
    case Withdrawn(a, _) => a == account
    case _ => false
  }

  /** The log, once mirrored, writes the entity's row. */
  predicate Touches(log: Log, e: Entity) {
    Mirrored(log) &&
    match e
    case Order(id) => TouchesOrder(log.body.event, id)
    case Position(pk) =>
      log.body.event.PositionChanged? && pk == PositionKey(log.body.event.account, log.body.event.market)
    case Account(a) => TouchesAccount(log.body.event, a)
    case Entry(k) => k == log.Key()
  }

  function Forced(d: Derived, log: Log): Derived
    requires log.body.Known?
  {
    DerivedAfter(d.(applied := d.applied[log.Key() := log.block]), log, log.body.event)
  }

  /** One entity's rows after one more log, computed from those rows alone. */
  function RowAfter(row: Derived, e: Entity, log: Log): Derived {
    if Touches(log, e) then Only(Forced(row, log), e) else row
  }

  function Replay(row: Derived, e: Entity, logs: seq<Log>): Derived {
    if logs == [] then row else RowAfter(Replay(row, e, logs[..|logs| - 1]), e, logs[|logs| - 1])
  }

  /** Every row under a log's key belongs to a log already marked. */
  ghost predicate Grounded(d: Derived) {
    && (forall o :: o in d.orders ==> d.orders[o].placed in d.applied)
    && d.trades.Keys <= d.applied.Keys && d.positionEvents.Keys <= d.applied.Keys
    && d.funding.Keys <= d.applied.Keys && d.liquidations.Keys <= d.applied.Keys
  }

  lemma GroundedStep(d: Derived, log: Log)
    requires Grounded(d)
    ensures Grounded(ApplyDerived(d, log))
  {
  }

  lemma {:induction false} GroundedFold(d: Derived, logs: seq<Log>)
    requires Grounded(d)
    ensures Grounded(FoldFrom(d, logs))
  {
    hide ApplyDerived, Grounded;
    if logs != [] {
      GroundedFold(d, logs[..|logs| - 1]);
      GroundedStep(FoldFrom(d, logs[..|logs| - 1]), logs[|logs| - 1]);
    }
  }

  /** A new log writes each row from that row alone. */
  lemma StepIsLocal(d: Derived, log: Log, e: Entity)
    requires Grounded(d) && (Mirrored(log) ==> log.Key() !in d.applied)
    ensures Only(ApplyDerived(d, log), e) == RowAfter(Only(d, e), e, log)
  {
    if Mirrored(log) {
      match e
      case Order(id) => OrderIsLocal(d, log, id);
      case Position(pk) => PositionIsLocal(d, log, pk);
      case Account(a) => AccountIsLocal(d, log, a);
      case Entry(k) => EntryIsLocal(d, log, k);
    }
  }

  lemma OrderIsLocal(d: Derived, log: Log, id: nat)
    requires Grounded(d) && Mirrored(log) && log.Key() !in d.applied
    ensures Only(ApplyDerived(d, log), Order(id)) == RowAfter(Only(d, Order(id)), Order(id), log)
  {
    hide TradesAfter, PositionsAfter, PositionEventsAfter, FundingAfter, LiquidationsAfter, AccountsAfter, OrdersAfter,
      Pick, TouchesOrder;
    OrdersAreLocal(d.orders, log, log.body.event, id);
  }

  lemma OrdersAreLocal(orders: map<nat, OrderRow>, log: Log, ev: Event, id: nat)
    requires forall o :: o in orders ==> orders[o].placed != log.Key()
    ensures Pick(OrdersAfter(orders, log, ev), id)
            == if TouchesOrder(ev, id) then Pick(OrdersAfter(Pick(orders, id), log, ev), id) else Pick(orders, id)
  {
    if ev.OrderFilled? {
      hide Fill, Pick;
      var size, block := ev.size, log.block;
      var once := Fill(orders, ev.takerOrder, size, block);
      FillIsLocal(orders, ev.takerOrder, size, block, id);
      if ev.makerOrder != 0 {
        FillIsLocal(once, ev.makerOrder, size, block, id);
        FillIsLocal(Fill(Pick(orders, id), ev.takerOrder, size, block), ev.makerOrder, size, block, id);
      }
    }
  }

  lemma FillIsLocal(orders: map<nat, OrderRow>, o: nat, size: nat, block: nat, id: nat)
    ensures Pick(Fill(orders, o, size, block), id) == Pick(Fill(Pick(orders, id), o, size, block), id)
    ensures o != id ==> Pick(Fill(orders, o, size, block), id) == Pick(orders, id)
  {
  }

  lemma PositionIsLocal(d: Derived, log: Log, pk: PositionKey)
    requires Mirrored(log) && log.Key() !in d.applied
    ensures Only(ApplyDerived(d, log), Position(pk)) == RowAfter(Only(d, Position(pk)), Position(pk), log)
  {
    hide TradesAfter, OrdersAfter, PositionEventsAfter, FundingAfter, LiquidationsAfter, AccountsAfter, PositionsAfter,
      Pick;
    PositionsAreLocal(d.positions, log, log.body.event, pk);
  }

  lemma PositionsAreLocal(positions: map<PositionKey, PositionRow>, log: Log, ev: Event, pk: PositionKey)
    ensures Pick(PositionsAfter(positions, log, ev), pk)
            == if ev.PositionChanged? && pk == PositionKey(ev.account, ev.market)
               then Pick(PositionsAfter(Pick(positions, pk), log, ev), pk) else Pick(positions, pk)
  {
  }

  lemma AccountIsLocal(d: Derived, log: Log, account: string)
    requires Mirrored(log) && log.Key() !in d.applied
    ensures Only(ApplyDerived(d, log), Account(account)) == RowAfter(Only(d, Account(account)), Account(account), log)
  {
    hide TradesAfter, OrdersAfter, PositionEventsAfter, FundingAfter, LiquidationsAfter, PositionsAfter, AccountsAfter,
      Pick, TouchesAccount;
    AccountsAreLocal(d.accounts, log, log.body.event, account);
  }

  lemma AccountsAreLocal(accounts: map<string, AccountRow>, log: Log, ev: Event, account: string)
    ensures Pick(AccountsAfter(accounts, log, ev), account)
            == if TouchesAccount(ev, account) then Pick(AccountsAfter(Pick(accounts, account), log, ev), account)
               else Pick(accounts, account)
  {
  }

  lemma EntryIsLocal(d: Derived, log: Log, k: LogKey)
    requires Grounded(d) && Mirrored(log) && log.Key() !in d.applied
    ensures Only(ApplyDerived(d, log), Entry(k)) == RowAfter(Only(d, Entry(k)), Entry(k), log)
  {
    hide OrdersAfter, AccountsAfter, PositionsAfter, TradesAfter, PositionEventsAfter, FundingAfter, LiquidationsAfter,
      Pick;
    AppliedIsLocal(d.applied, log, k);
    EntriesAreLocal(d, log, log.body.event, k);
  }

  lemma AppliedIsLocal(applied: map<LogKey, nat>, log: Log, k: LogKey)
    ensures Pick(applied[log.Key() := log.block], k)
            == if k == log.Key() then Pick(Pick(applied, k)[log.Key() := log.block], k) else Pick(applied, k)
  {
  }

  lemma EntriesAreLocal(d: Derived, log: Log, ev: Event, k: LogKey)
    requires Grounded(d) && log.Key() !in d.applied
    ensures Pick(TradesAfter(d.trades, log, ev), k)
            == if k == log.Key() then Pick(TradesAfter(Pick(d.trades, k), log, ev), k) else Pick(d.trades, k)
    ensures Pick(PositionEventsAfter(d.positionEvents, log, ev), k)
            == if k == log.Key() then Pick(PositionEventsAfter(Pick(d.positionEvents, k), log, ev), k)
               else Pick(d.positionEvents, k)
    ensures Pick(FundingAfter(d.funding, log, ev), k)
            == if k == log.Key() then Pick(FundingAfter(Pick(d.funding, k), log, ev), k) else Pick(d.funding, k)
    ensures Pick(LiquidationsAfter(d.liquidations, log, ev), k)
            == if k == log.Key() then Pick(LiquidationsAfter(Pick(d.liquidations, k), log, ev), k)
               else Pick(d.liquidations, k)
  {
  }

  /** No key is mirrored twice; unlike UniqueKeys it says nothing of logs the service leaves alone. */
  ghost predicate MirroredOnce(logs: seq<Log>) {
    forall i, j :: 0 <= i < j < |logs| && Mirrored(logs[i]) && Mirrored(logs[j]) ==> logs[i].Key() != logs[j].Key()
  }

  /** A run of new logs replays on each row separately. */
  lemma {:induction false} FoldIsLocal(d: Derived, logs: seq<Log>, e: Entity)
    requires Grounded(d) && MirroredOnce(logs)
    requires forall log :: log in logs && Mirrored(log) ==> log.Key() !in d.applied
    ensures Only(FoldFrom(d, logs), e) == Replay(Only(d, e), e, logs)
  {
    hide ApplyDerived, Grounded, Only, RowAfter, Mirrored;
    if logs != [] {
      var n := |logs| - 1;
      assert forall log :: log in logs[..n] ==> log in logs;
      FoldIsLocal(d, logs[..n], e);
      GroundedFold(d, logs[..n]);
      assert logs[n] in logs;
      NewToFold(d, logs);
      StepIsLocal(FoldFrom(d, logs[..n]), logs[n], e);
    }
  }

  lemma NewToFold(d: Derived, logs: seq<Log>)
    requires logs != [] && MirroredOnce(logs)
    requires Mirrored(logs[|logs| - 1]) ==> logs[|logs| - 1].Key() !in d.applied
    ensures Mirrored(logs[|logs| - 1]) ==> logs[|logs| - 1].Key() !in FoldFrom(d, logs[..|logs| - 1]).applied
  {
    hide FoldFrom, Mirrored;
    var n := |logs| - 1;
    AppliedIsKeys(d, logs[..n]);
    assert Mirrored(logs[n]) ==> logs[n].Key() !in Keys(logs[..n]);
  }

  // ---------------------------------------------------------------- two histories

  /** The logs, less those mirrored under one of these keys. */
  function Without(logs: seq<Log>, keys: set<LogKey>): seq<Log> {
    if logs == [] then []
    else
      var rest, last := Without(logs[..|logs| - 1], keys), logs[|logs| - 1];
      if Mirrored(last) && last.Key() in keys then rest else rest + [last]
  }

  lemma {:induction false} WithoutIsPart(logs: seq<Log>, keys: set<LogKey>)
    ensures forall log :: log in Without(logs, keys) <==> log in logs && !(Mirrored(log) && log.Key() in keys)
  {
    hide Mirrored;
    if logs != [] {
      WithoutIsPart(logs[..|logs| - 1], keys);
      assert logs == logs[..|logs| - 1] + [logs[|logs| - 1]];
    }
  }

  lemma {:induction false} WithoutIsUnique(logs: seq<Log>, keys: set<LogKey>)
    requires UniqueKeys(logs)
    ensures UniqueKeys(Without(logs, keys))
  {
    hide Mirrored;
    if logs != [] {
      var n := |logs| - 1;
      WithoutIsUnique(logs[..n], keys);
      WithoutIsPart(logs[..n], keys);
      var rest := Without(logs[..n], keys);
      forall i | 0 <= i < |rest| ensures rest[i].Key() != logs[n].Key() {
        assert rest[i] in logs[..n];
      }
    }
  }

  /** Logs whose keys are marked already might as well not be there. */
  lemma {:induction false} MarkedLogsDropOut(d: Derived, logs: seq<Log>, keys: set<LogKey>)
    requires keys <= d.applied.Keys
    ensures FoldFrom(d, logs) == FoldFrom(d, Without(logs, keys))
  {
    hide DerivedAfter;
    if logs != [] {
      var n := |logs| - 1;
      MarkedLogsDropOut(d, logs[..n], keys);
      AppliedGrows(d, logs[..n]);
      var rest := Without(logs[..n], keys);
      assert (rest + [logs[n]])[..|rest|] == rest;
    }
  }

  lemma {:induction false} ReplayConcat(row: Derived, e: Entity, a: seq<Log>, b: seq<Log>)
    ensures Replay(row, e, a + b) == Replay(Replay(row, e, a), e, b)
  {
    hide RowAfter;
    if b == [] {
      assert a + b == a;
    } else {
      var n := |b| - 1;
      assert (a + b)[..|a + b| - 1] == a + b[..n];
      ReplayConcat(row, e, a, b[..n]);
    }
  }

  /** Something the lost logs wrote, the unread ones should have written, or namesakes of the lost ones write. */
  ghost predicate Disturbed(lost: seq<Log>, unread: seq<Log>, read: seq<Log>, e: Entity) {
    exists log :: (log in lost || log in unread || (log in read && log.Key() in Keys(lost))) && Touches(log, e)
  }

  lemma {:induction false} UntouchedReplay(row: Derived, e: Entity, logs: seq<Log>)
    requires forall log :: log in logs ==> !Touches(log, e)
    ensures Replay(row, e, logs) == row
  {
    if logs != [] {
      assert logs[|logs| - 1] in logs;
      UntouchedReplay(row, e, logs[..|logs| - 1]);
    }
  }

  lemma {:induction false} WithoutReplaysAlike(row: Derived, e: Entity, logs: seq<Log>, keys: set<LogKey>)
    requires forall log :: log in logs && log.Key() in keys ==> !Touches(log, e)
    ensures Replay(row, e, Without(logs, keys)) == Replay(row, e, logs)
  {
    hide Touches, Only, Forced;
    if logs != [] {
      var n := |logs| - 1;
      assert logs[n] in logs && forall log :: log in logs[..n] ==> log in logs;
      WithoutReplaysAlike(row, e, logs[..n], keys);
      var rest := Without(logs[..n], keys);
      assert (rest + [logs[n]])[..|rest|] == rest;
    }
  }

  /**
   * On every row that something lost or unread had a hand in, replaying the
   * lost logs and then what is read ends where the new chain's own logs end.
   */
  ghost predicate RowsReplay(done: seq<Log>, lost: seq<Log>, unread: seq<Log>, read: seq<Log>) {
    forall e :: Disturbed(lost, unread, read, e) ==>
      Replay(Only(Fold(done), e), e, lost + Without(read, Keys(lost))) == Replay(Only(Fold(done), e), e, unread + read)
  }

  lemma RowOfBoth(done: seq<Log>, lost: seq<Log>, added: seq<Log>, e: Entity)
    requires UniqueKeys(done + lost) && UniqueKeys(done + added)
    ensures Only(FoldFrom(Fold(done + lost), added), e)
            == Replay(Only(Fold(done), e), e, lost + Without(added, Keys(lost)))
    ensures Only(Fold(done + added), e) == Replay(Only(Fold(done), e), e, added)
  {
    hide FoldFrom, Only, Replay, Without, Grounded, Mirrored, Keys, UniqueKeys;
    var rest := Without(added, Keys(lost));
    FoldConcat(EMPTY, done, lost);
    FoldConcat(EMPTY, done, added);
    AppliedIsKeys(EMPTY, done + lost);
    KeysConcat(done, lost);
    MarkedLogsDropOut(Fold(done + lost), added, Keys(lost));
    FoldConcat(Fold(done), lost, rest);
    NothingIsGrounded(done);
    BothAreNew(done, lost, added);
    FoldIsLocal(Fold(done), lost + rest, e);
    FoldIsLocal(Fold(done), added, e);
  }

  lemma NothingIsGrounded(done: seq<Log>)
    ensures Grounded(Fold(done))
  {
    hide FoldFrom;
    GroundedFold(EMPTY, done);
  }

  lemma BothAreNew(done: seq<Log>, lost: seq<Log>, added: seq<Log>)
    requires UniqueKeys(done + lost) && UniqueKeys(done + added)
    ensures var both := lost + Without(added, Keys(lost));
            MirroredOnce(both) && forall log :: log in both && Mirrored(log) ==> log.Key() !in Fold(done).applied
    ensures MirroredOnce(added) && forall log :: log in added && Mirrored(log) ==> log.Key() !in Fold(done).applied
  {
    hide FoldFrom, Without;
    AppliedIsKeys(EMPTY, done);
    PartIsUnique(done, lost);
    PartIsUnique(done, added);
    WithoutIsPart(added, Keys(lost));
    WithoutIsUnique(added, Keys(lost));
    MirroredApart(lost, Without(added, Keys(lost)));
  }

  lemma PartIsUnique(done: seq<Log>, more: seq<Log>)
    requires UniqueKeys(done + more)
    ensures UniqueKeys(more) && forall log :: log in more ==> log.Key() !in Keys(done)
  {
    var all := done + more;
    forall i, j | 0 <= i < j < |more| ensures more[i].Key() != more[j].Key() {
      assert all[|done| + i].Key() != all[|done| + j].Key();
    }
    forall i, log | 0 <= i < |more| && log in done ensures more[i].Key() != log.Key() {
      var k :| 0 <= k < |done| && done[k] == log;
      assert all[k].Key() != all[|done| + i].Key();
    }
  }

  lemma MirroredApart(lost: seq<Log>, rest: seq<Log>)
    requires UniqueKeys(lost) && UniqueKeys(rest)
    requires forall log :: log in rest && Mirrored(log) ==> log.Key() !in Keys(lost)
    ensures MirroredOnce(lost + rest)
  {
    hide Mirrored;
    var both := lost + rest;
    forall i, j | 0 <= i < j < |both| && Mirrored(both[i]) && Mirrored(both[j]) ensures both[i].Key() != both[j].Key() {
      if i < |lost| <= j {
        assert both[i] in lost && both[j] in rest;
      }
    }
  }

  /** Leaving out the middle keeps the keys apart. */
  lemma EndsAreUnique(done: seq<Log>, unread: seq<Log>, read: seq<Log>)
    requires UniqueKeys(done + (unread + read))
    ensures UniqueKeys(done + read)
  {
    var all, ends, gap := done + (unread + read), done + read, |unread|;
    forall i, j | 0 <= i < j < |ends| ensures ends[i].Key() != ends[j].Key() {
      var a, b := if i < |done| then i else i + gap, if j < |done| then j else j + gap;
      assert all[a] == ends[i] && all[b] == ends[j];
    }
  }

  /**
   * Rows that hold `done` and `lost` and then read only the end of a chain
   * agree with the chain exactly when they agree row by row, where anything
   * was written or missed at all.
   */
  lemma RowsAgreeIff(done: seq<Log>, lost: seq<Log>, unread: seq<Log>, read: seq<Log>)
    requires UniqueKeys(done + lost) && UniqueKeys(done + (unread + read))
    ensures FoldFrom(Fold(done + lost), read) == Fold(done + (unread + read)) <==> RowsReplay(done, lost, unread, read)
  {
    hide FoldFrom, Fold, Only, Replay, Without, Keys, UniqueKeys, Disturbed;
    var a, b, news := FoldFrom(Fold(done + lost), read), Fold(done + (unread + read)), unread + read;
    EndsAreUnique(done, unread, read);
    forall e ensures Only(a, e) == Only(b, e) <==>
                     (Disturbed(lost, unread, read, e) ==>
                        Replay(Only(Fold(done), e), e, lost + Without(read, Keys(lost)))
                        == Replay(Only(Fold(done), e), e, news))
    {
      RowOfBoth(done, lost, read, e);
      RowOfBoth(done, news, news, e);
      if !Disturbed(lost, unread, read, e) {
        UndisturbedRow(Only(Fold(done), e), e, lost, unread, read);
      }
    }
    if RowsReplay(done, lost, unread, read) {
      SameRows(a, b);
    }
  }

  lemma UndisturbedRow(row: Derived, e: Entity, lost: seq<Log>, unread: seq<Log>, read: seq<Log>)
    requires !Disturbed(lost, unread, read, e)
    ensures Replay(row, e, lost + Without(read, Keys(lost))) == Replay(row, e, unread + read)
  {
    hide Touches, Replay, Without, Keys;
    ReplayConcat(row, e, lost, Without(read, Keys(lost)));
    ReplayConcat(row, e, unread, read);
    UntouchedReplay(row, e, lost);
    UntouchedReplay(row, e, unread);
    WithoutReplaysAlike(row, e, read, Keys(lost));
  }

  // ---------------------------------------------------------------- one condition enough, one condition needed

  /** The logs the service marks, in order. */
  function MirroredOf(logs: seq<Log>): seq<Log> {
    if logs == [] then []
    else
      var rest, last := MirroredOf(logs[..|logs| - 1]), logs[|logs| - 1];
      if Mirrored(last) then rest + [last] else rest
  }

  lemma {:induction false} OnlyMirroredCount(d: Derived, logs: seq<Log>)
    ensures FoldFrom(d, logs) == FoldFrom(d, MirroredOf(logs))
  {
    hide DerivedAfter;
    if logs != [] {
      var n := |logs| - 1;
      OnlyMirroredCount(d, logs[..n]);
      var rest := MirroredOf(logs[..n]);
      assert (rest + [logs[n]])[..|rest|] == rest;
    }
  }

  /** If the new chain mirrors first what was lost, in the same order, nothing is wrong afterwards. */
  lemma PrefixIsEnough(done: seq<Log>, lost: seq<Log>, added: seq<Log>)
    requires MirroredOf(lost) <= MirroredOf(added)
    ensures FoldFrom(Fold(done + lost), added) == Fold(done + added)
  {
    hide FoldFrom, MirroredOf;
    var first := MirroredOf(lost);
    var more := MirroredOf(added)[|first|..];
    assert MirroredOf(added) == first + more;
    FoldConcat(EMPTY, done, lost);
    FoldConcat(EMPTY, done, added);
    OnlyMirroredCount(Fold(done), lost);
    OnlyMirroredCount(Fold(done), added);
    OnlyMirroredCount(Fold(done + lost), added);
    FoldCovers(Fold(done), first);
    ReplayThenContinue(Fold(done + lost), UNSEEDED, first, more);
    FoldConcat(Fold(done), first, more);
  }

  lemma {:induction false} MarksComeFromLogs(d: Derived, logs: seq<Log>, k: LogKey)
    requires k in FoldFrom(d, logs).applied
    ensures if k in d.applied then FoldFrom(d, logs).applied[k] == d.applied[k]
            else exists log :: log in logs && Mirrored(log) && log.Key() == k
                               && log.block == FoldFrom(d, logs).applied[k]
  {
    hide DerivedAfter;
    if logs != [] {
      var n := |logs| - 1;
      var before := FoldFrom(d, logs[..n]);
      if logs[n].body.Known? {
        MarkIsKept(before.(applied := before.applied[logs[n].Key() := logs[n].block]), logs[n]);
      }
      AppliedGrows(d, logs[..n]);
      if k in before.applied {
        MarksComeFromLogs(d, logs[..n], k);
      } else {
        assert logs[n] in logs;
      }
    }
  }

  /** The new chain has the log too, under the same key and in the same block. */
  ghost predicate StaysInBlock(log: Log, added: seq<Log>) {
    exists twin :: twin in added && Mirrored(twin) && twin.Key() == log.Key() && twin.block == log.block
  }

  /** Marks that are still in the table agree with the logs that made them. */
  lemma MarkOfLost(done: seq<Log>, lost: seq<Log>, log: Log)
    requires UniqueKeys(done + lost) && log in lost && Mirrored(log)
    ensures log.Key() !in Fold(done).applied
    ensures log.Key() in Fold(done + lost).applied && Fold(done + lost).applied[log.Key()] == log.block
  {
    hide FoldFrom, Mirrored;
    var k := log.Key();
    PartIsUnique(done, lost);
    FoldConcat(EMPTY, done, lost);
    AppliedIsKeys(EMPTY, done);
    AppliedIsKeys(Fold(done), lost);
    MarksComeFromLogs(Fold(done), lost, k);
    var same :| same in lost && Mirrored(same) && same.Key() == k && same.block == Fold(done + lost).applied[k];
    OneLogPerKey(lost, log, same);
  }

  /** If the rows agree, no lost log is missing from the new chain or has moved to another block. */
  lemma NothingMovedIfRowsAgree(done: seq<Log>, lost: seq<Log>, unread: seq<Log>, read: seq<Log>, log: Log)
    requires UniqueKeys(done + lost) && log in lost && Mirrored(log)
    requires FoldFrom(Fold(done + lost), read) == Fold(done + (unread + read))
    ensures StaysInBlock(log, unread + read)
  {
    hide FoldFrom, Mirrored;
    var k := log.Key();
    MarkOfLost(done, lost, log);
    FoldConcat(EMPTY, done, unread + read);
    AppliedGrows(Fold(done + lost), read);
    MarksComeFromLogs(Fold(done + lost), read, k);
    MarksComeFromLogs(Fold(done), unread + read, k);
  }

  /** If the rows agree, every log of the blocks never read had been marked, in the same block, on the old chain. */
  lemma NothingMissedIfRowsAgree(done: seq<Log>, lost: seq<Log>, unread: seq<Log>, read: seq<Log>, log: Log)
    requires UniqueKeys(done + (unread + read)) && log in unread && Mirrored(log)
    requires FoldFrom(Fold(done + lost), read) == Fold(done + (unread + read))
    ensures StaysInBlock(log, lost)
  {
    hide FoldFrom, Mirrored;
    var k := log.Key();
    MarkOfLost(done, unread + read, log);
    FoldConcat(EMPTY, done, lost);
    assert (done + unread) + read == done + (unread + read);
    PartIsUnique(done + unread, read);
    KeysConcat(done, unread);
    assert k in Keys(unread);
    MarksComeFromLogs(Fold(done + lost), read, k);
    assert k !in Keys(read);
    MarksComeFromLogs(Fold(done), lost, k);
  }

  lemma OneLogPerKey(logs: seq<Log>, a: Log, b: Log)
    requires UniqueKeys(logs) && a in logs && b in logs && a.Key() == b.Key()
    ensures a == b
  {
    var i :| 0 <= i < |logs| && logs[i] == a;
    var j :| 0 <= j < |logs| && logs[j] == b;
    assert i == j;
  }

  // ---------------------------------------------------------------- two histories from one beginning

  /** On every row that either history wrote, both end at the same row. */
  ghost predicate SameReplay(done: seq<Log>, a: seq<Log>, b: seq<Log>) {
    forall e :: TouchedBy(a + b, e) ==> Replay(Only(Fold(done), e), e, a) == Replay(Only(Fold(done), e), e, b)
  }

  ghost predicate TouchedBy(logs: seq<Log>, e: Entity) { exists log :: log in logs && Touches(log, e) }

  lemma HistoriesAgreeIff(done: seq<Log>, a: seq<Log>, b: seq<Log>)
    requires UniqueKeys(done + a) && UniqueKeys(done + b)
    ensures Fold(done + a) == Fold(done + b) <==> SameReplay(done, a, b)
  {
    hide FoldFrom, Fold, Only, Replay, UniqueKeys, Touches;
    forall e ensures Only(Fold(done + a), e) == Only(Fold(done + b), e) <==>
                     (TouchedBy(a + b, e) ==>
                        Replay(Only(Fold(done), e), e, a) == Replay(Only(Fold(done), e), e, b))
    {
      RowOfBoth(done, a, a, e);
      RowOfBoth(done, b, b, e);
      if !TouchedBy(a + b, e) {
        UntouchedReplay(Only(Fold(done), e), e, a);
        UntouchedReplay(Only(Fold(done), e), e, b);
      }
    }
    if SameReplay(done, a, b) {
      SameRows(Fold(done + a), Fold(done + b));
    }
  }

  /** Histories that mirror the same logs are the same history. */
  lemma MirroredAlike(done: seq<Log>, a: seq<Log>, b: seq<Log>)
    requires MirroredOf(a) == MirroredOf(b)
    ensures Fold(done + a) == Fold(done + b)
  {
    hide FoldFrom, MirroredOf;
    FoldConcat(EMPTY, done, a);
    FoldConcat(EMPTY, done, b);
    OnlyMirroredCount(Fold(done), a);
    OnlyMirroredCount(Fold(done), b);
  }

  /** What applied_logs keeps of a log. */
  datatype Mark = Mark(key: LogKey, block: nat)

  /** The marks a history leaves, in order. */
  function Marks(logs: seq<Log>): seq<Mark> {
    if logs == [] then []
    else
      var rest, last := Marks(logs[..|logs| - 1]), logs[|logs| - 1];
      if Mirrored(last) then rest + [Mark(last.Key(), last.block)] else rest
  }

  predicate Earlier(m: Mark, n: Mark) { m.block < n.block || (m.block == n.block && m.key.index < n.key.index) }

  lemma {:induction false} MarksAre(logs: seq<Log>)
    ensures forall m :: m in Marks(logs) <==>
              exists log :: log in logs && Mirrored(log) && m == Mark(log.Key(), log.block)
  {
    hide Mirrored;
    if logs != [] {
      var n := |logs| - 1;
      MarksAre(logs[..n]);
      assert logs == logs[..n] + [logs[n]];
    }
  }

  lemma {:induction false} MarksAreOrdered(logs: seq<Log>)
    requires StrictlyOrdered(logs)
    ensures forall i, j :: 0 <= i < j < |Marks(logs)| ==> Earlier(Marks(logs)[i], Marks(logs)[j])
  {
    hide Mirrored;
    if logs != [] {
      var n := |logs| - 1;
      MarksAreOrdered(logs[..n]);
      MarksAre(logs[..n]);
      var rest := Marks(logs[..n]);
      forall i | 0 <= i < |rest| ensures Earlier(rest[i], Mark(logs[n].Key(), logs[n].block)) {
        assert rest[i] in rest;
        var log :| log in logs[..n] && Mirrored(log) && rest[i] == Mark(log.Key(), log.block);
        var k :| 0 <= k < n && logs[k] == log;
        assert Before(logs[k], logs[n]);
      }
    }
  }

  lemma {:induction false} OrderedMarksAreUnique(a: seq<Mark>, b: seq<Mark>)
    requires forall m :: m in a <==> m in b
    requires forall i, j :: 0 <= i < j < |a| ==> Earlier(a[i], a[j])
    requires forall i, j :: 0 <= i < j < |b| ==> Earlier(b[i], b[j])
    ensures a == b
  {
    assert (a == [] || a[0] in a) && (b == [] || b[0] in b);
    if a != [] {
      var m, n := |a| - 1, |b| - 1;
      LastMarkIsSame(a, b);
      forall x ensures x in a[..m] <==> x in b[..n] {
        WithoutLast(a, x);
        WithoutLast(b, x);
      }
      OrderedMarksAreUnique(a[..m], b[..n]);
      assert a == a[..m] + [a[m]] && b == b[..n] + [b[n]];
    }
  }

  lemma LastMarkIsSame(a: seq<Mark>, b: seq<Mark>)
    requires a != [] && b != [] && forall m :: m in a <==> m in b
    requires forall i, j :: 0 <= i < j < |a| ==> Earlier(a[i], a[j])
    requires forall i, j :: 0 <= i < j < |b| ==> Earlier(b[i], b[j])
    ensures a[|a| - 1] == b[|b| - 1]
  {
    assert a[|a| - 1] in b && b[|b| - 1] in a;
    var i :| 0 <= i < |b| && b[i] == a[|a| - 1];
    var j :| 0 <= j < |a| && a[j] == b[|b| - 1];
  }

  lemma WithoutLast(a: seq<Mark>, x: Mark)
    requires a != [] && forall i, j :: 0 <= i < j < |a| ==> Earlier(a[i], a[j])
    ensures x in a[..|a| - 1] <==> x in a && x != a[|a| - 1]
  {
    assert a == a[..|a| - 1] + [a[|a| - 1]];
  }

  /** A mark of the later part of a history, told by the tables at its end. */
  lemma MarkIsInTable(done: seq<Log>, a: seq<Log>, m: Mark)
    requires UniqueKeys(done + a)
    ensures m in Marks(a) <==>
            m.key !in Fold(done).applied && m.key in Fold(done + a).applied && Fold(done + a).applied[m.key] == m.block
  {
    hide FoldFrom, Marks, Mirrored;
    var d := Fold(done);
    FoldConcat(EMPTY, done, a);
    AppliedIsKeys(EMPTY, done);
    AppliedIsKeys(d, a);
    PartIsUnique(done, a);
    MarksAre(a);
    if m in Marks(a) || (m.key !in d.applied && m.key in FoldFrom(d, a).applied) {
      MarksComeFromLogs(d, a, m.key);
      if m in Marks(a) {
        var log :| log in a && Mirrored(log) && m == Mark(log.Key(), log.block);
        var same :| same in a && Mirrored(same) && same.Key() == m.key && same.block == FoldFrom(d, a).applied[m.key];
        OneLogPerKey(a, log, same);
      }
    }
  }

  /** Histories that end in the same tables leave the same marks, in the same order. */
  lemma MarkedAlike(done: seq<Log>, a: seq<Log>, b: seq<Log>)
    requires UniqueKeys(done + a) && UniqueKeys(done + b) && StrictlyOrdered(a) && StrictlyOrdered(b)
    requires Fold(done + a) == Fold(done + b)
    ensures Marks(a) == Marks(b)
  {
    hide FoldFrom, Fold, Marks, UniqueKeys;
    forall m ensures m in Marks(a) <==> m in Marks(b) {
      MarkIsInTable(done, a, m);
      MarkIsInTable(done, b, m);
    }
    MarksAreOrdered(a);
    MarksAreOrdered(b);
    OrderedMarksAreUnique(Marks(a), Marks(b));
  }
}
