/**
 * What the Event Hubs sink promises, stated over values: how one record is routed to
 * a hub and a partition slot, the events one invocation produces while it assembles
 * the records, which hubs the registry holds after startup, and the startup check of
 * the configured partition id.
 *
 * An invocation is observed through a trace of events: calls received by the batch
 * managers, warnings logged, and calls made on the committer.
 */
module EventHubsRouting {
  import opened Wrappers
  import opened JavaText
  import opened BaseChangeConsumer

  /** One change event from the capture engine: its payload, its destination hub and its partition hint. */
  datatype Record = Record(value: Value, destination: Option<string>, partition: Option<int>)

  /**
   * The routing configuration: the default hub, the configured partition id (absent
   * when the property is empty) and partition key (empty when unset), and the two slot
   * sentinels the batch manager defines for "no partition id" and "route by key".
   */
  datatype Settings = Settings(
    defaultHub: string,
    partitionId: Option<int>,
    partitionKey: string,
    noPartitionSlot: int,
    keySlot: int)

  /** An observable event of one invocation. */
  datatype Event =
    | Initialized(hub: string)                                  // initializeBatch on the manager of `hub`
    | Sent(hub: string, index: nat, slot: int, body: seq<byte>) // sendEventToPartitionId accepted record `index`
    | Warned(index: nat)                                        // record `index` has a payload of another type
    | Emitted(hub: string)                                      // closeAndEmitBatches on the manager of `hub` succeeded
    | Marked(index: nat)                                        // committer.markProcessed of record `index`
    | Finished                                                  // committer.markBatchFinished

  /** What the assembly loop does with one record. */
  datatype Decision =
    | Ignore                                         // null payload: skipped silently
    | Warn                                           // payload neither String nor byte[]: skipped with a warning
    | Deliver(hub: string, slot: int, body: seq<byte>) // appended to that hub's batch in that slot
    | Reject                                         // no manager, or slot out of range: the invocation fails

  /** The slot a payload-carrying record is sent to: configured id, then configured key, then the record's own partition. */
  function TargetSlot(cfg: Settings, r: Record): int {
    if cfg.partitionId.Some? then cfg.partitionId.value
    else if cfg.partitionKey != "" then cfg.keySlot
    else r.partition.GetOr(cfg.noPartitionSlot)
  }

  /** The hub whose manager receives the record: its own destination if registered, else the default hub if registered. */
  function TargetHub(cfg: Settings, counts: map<string, nat>, r: Record): (h: Option<string>)
    ensures h.Some? ==> h.value in counts
    ensures h.None? <==> (r.destination.None? || r.destination.value !in counts) && cfg.defaultHub !in counts
    ensures r.destination.Some? && r.destination.value in counts ==> h == r.destination
    ensures (r.destination.None? || r.destination.value !in counts) && cfg.defaultHub in counts ==> h == Some(cfg.defaultHub)
  {
    if r.destination.Some? && r.destination.value in counts then r.destination
    else if cfg.defaultHub in counts then Some(cfg.defaultHub)
    else None
  }

  /** Whether `slot` passes the per-record check against a hub with `count` partitions. */
  predicate SlotInRange(cfg: Settings, slot: int, count: nat) {
    cfg.noPartitionSlot <= slot <= count as int - 1
  }

  /**
   * The decision for one record, given the partition count of every registered hub.
   * The body sent is the payload's bytes (a String goes as its UTF-8 encoding).
   */
  function Decide(cfg: Settings, counts: map<string, nat>, r: Record): Decision {
    match r.value
    case Null => Ignore
    case Other(_) => Warn
    case _ =>
      var slot := TargetSlot(cfg, r);
      match TargetHub(cfg, counts, r)
      case None => Reject
      case Some(h) =>
        if SlotInRange(cfg, slot, counts[h]) then Deliver(h, slot, GetBytes(r.value).value) else Reject
  }

  /** No record of the list is rejected. */
  predicate Routable(cfg: Settings, counts: map<string, nat>, records: seq<Record>) {
    forall i :: 0 <= i < |records| ==> !Decide(cfg, counts, records[i]).Reject?
  }

  /** The events the assembly loop produces for record `i`. */
  function RecordEvents(d: Decision, i: nat): seq<Event> {
    match d
    case Ignore => []
    case Warn => [Warned(i)]
    case Deliver(h, slot, body) => [Sent(h, i, slot, body)]
    case Reject => []
  }

  /** The events of the assembly loop over `records`, record by record in input order. */
  function Assembly(cfg: Settings, counts: map<string, nat>, records: seq<Record>): seq<Event>
    decreases |records|
  {
    if records == [] then []
    else
      var n := |records| - 1;
      Assembly(cfg, counts, records[..n]) + RecordEvents(Decide(cfg, counts, records[n]), n)
  }

  /** Handling one more record extends the assembly by that record's events, and keeps the list routable unless the record is rejected. */
  lemma AssemblyStep(cfg: Settings, counts: map<string, nat>, records: seq<Record>, i: nat)
    requires i < |records|
    ensures Assembly(cfg, counts, records[..i + 1])
            == Assembly(cfg, counts, records[..i]) + RecordEvents(Decide(cfg, counts, records[i]), i)
    ensures Routable(cfg, counts, records[..i]) && !Decide(cfg, counts, records[i]).Reject?
            ==> Routable(cfg, counts, records[..i + 1])
  {
    assert records[..i + 1][..i] == records[..i];
  }

  /** Initialization calls on the managers of `order`, in that order. */
  function InitEvents(order: seq<string>): (r: seq<Event>)
    ensures |r| == |order|
    decreases |order|
  {
    if order == [] then [] else [Initialized(order[0])] + InitEvents(order[1..])
  }

  /** The `k`-th initialization call is on the `k`-th hub of the order. */
  lemma {:induction false} InitEventsAt(order: seq<string>)
    ensures forall k :: 0 <= k < |order| ==> InitEvents(order)[k] == Initialized(order[k])
    decreases |order|
  {
    if order != [] {
      InitEventsAt(order[1..]);
    }
  }

  /** Flush calls on the managers of `order`, in that order. */
  function EmitEvents(order: seq<string>): (r: seq<Event>)
    ensures |r| == |order|
    decreases |order|
  {
    if order == [] then [] else [Emitted(order[0])] + EmitEvents(order[1..])
  }

  /** The `k`-th flush call is on the `k`-th hub of the order. */
  lemma {:induction false} EmitEventsAt(order: seq<string>)
    ensures forall k :: 0 <= k < |order| ==> EmitEvents(order)[k] == Emitted(order[k])
    decreases |order|
  {
    if order != [] {
      EmitEventsAt(order[1..]);
    }
  }

  /** The committer's calls for records `0 .. n-1`: each record marked once, in input order. */
  function Marks(n: nat): (r: seq<Event>)
    ensures |r| == n
    decreases n
  {
    if n == 0 then [] else Marks(n - 1) + [Marked(n - 1)]
  }

  /** The `k`-th mark is for record `k`. */
  lemma {:induction false} MarksAt(n: nat)
    ensures forall k :: 0 <= k < n ==> Marks(n)[k] == Marked(k)
    decreases n
  {
    if n > 0 {
      MarksAt(n - 1);
    }
  }

  /** The hubs in `order` are pairwise different. */
  predicate Distinct(order: seq<string>) {
    forall i, j :: 0 <= i < j < |order| ==> order[i] != order[j]
  }

  /** `order` visits every hub of `hubs` exactly once. */
  ghost predicate Lists(order: seq<string>, hubs: set<string>) {
    Distinct(order) && (forall h :: h in order <==> h in hubs)
  }

  // ---------------------------------------------------------------------------
  // Properties of the assembly loop
  // ---------------------------------------------------------------------------

  /**
   * Every assembly event is a send or a warning about an earlier-listed record, and
   * it is exactly what the decision for that record calls for.
   */
  lemma {:induction false} AssemblySound(cfg: Settings, counts: map<string, nat>, records: seq<Record>)
    ensures forall k :: 0 <= k < |Assembly(cfg, counts, records)| ==>
      var e := Assembly(cfg, counts, records)[k];
      (e.Sent? || e.Warned?) && e.index < |records|
      && (e.Sent? ==> Decide(cfg, counts, records[e.index]) == Deliver(e.hub, e.slot, e.body))
      && (e.Warned? ==> Decide(cfg, counts, records[e.index]) == Warn)
    decreases |records|
  {
    if records != [] {
      var n := |records| - 1;
      var init := records[..n];
      AssemblySound(cfg, counts, init);
      assert forall i :: 0 <= i < n ==> init[i] == records[i];
    }
  }

  /** Indices of assembly events strictly increase: records are handled in input order, each at most once. */
  lemma {:induction false} AssemblyOrdered(cfg: Settings, counts: map<string, nat>, records: seq<Record>)
    ensures forall k1, k2 :: 0 <= k1 < k2 < |Assembly(cfg, counts, records)| ==>
      var e1, e2 := Assembly(cfg, counts, records)[k1], Assembly(cfg, counts, records)[k2];
      (e1.Sent? || e1.Warned?) && (e2.Sent? || e2.Warned?) && e1.index < e2.index
    decreases |records|
  {
    if records != [] {
      var n := |records| - 1;
      var init := Assembly(cfg, counts, records[..n]);
      var last := RecordEvents(Decide(cfg, counts, records[n]), n);
      AssemblyOrdered(cfg, counts, records[..n]);
      AssemblySound(cfg, counts, records[..n]);
      var all := Assembly(cfg, counts, records);
      assert all == init + last;
      assert |last| <= 1;
      forall k1, k2 | 0 <= k1 < k2 < |all|
        ensures (all[k1].Sent? || all[k1].Warned?) && (all[k2].Sent? || all[k2].Warned?) && all[k1].index < all[k2].index
      {
        if k2 >= |init| {
          assert all[k2] == last[0];
          assert all[k1] == init[k1];
        } else {
          assert all[k1] == init[k1] && all[k2] == init[k2];
        }
      }
    }
  }

  /** Every record that calls for a send gets that send, and every record of another payload type gets its warning. */
  lemma {:induction false} AssemblyComplete(cfg: Settings, counts: map<string, nat>, records: seq<Record>)
    ensures forall i :: 0 <= i < |records| && Decide(cfg, counts, records[i]).Deliver? ==>
      var d := Decide(cfg, counts, records[i]);
      Sent(d.hub, i, d.slot, d.body) in Assembly(cfg, counts, records)
    ensures forall i :: 0 <= i < |records| && Decide(cfg, counts, records[i]).Warn? ==>
      Warned(i) in Assembly(cfg, counts, records)
    decreases |records|
  {
    if records != [] {
      var n := |records| - 1;
      var init := records[..n];
      AssemblyComplete(cfg, counts, init);
      assert forall i :: 0 <= i < n ==> init[i] == records[i];
    }
  }

  /**
   * Slot precedence: with a configured partition id every send goes to that id, whatever
   * the record's own hint; otherwise with a configured key every send goes to the key
   * slot; otherwise a send goes to the record's partition, or the no-partition slot when
   * the record has none.
   */
  lemma SlotPrecedence(cfg: Settings, counts: map<string, nat>, records: seq<Record>)
    ensures forall e :: e in Assembly(cfg, counts, records) && e.Sent? ==>
      e.index < |records|
      && (cfg.partitionId.Some? ==> e.slot == cfg.partitionId.value)
      && (cfg.partitionId.None? && cfg.partitionKey != "" ==> e.slot == cfg.keySlot)
      && (cfg.partitionId.None? && cfg.partitionKey == "" ==>
            e.slot == records[e.index].partition.GetOr(cfg.noPartitionSlot))
  {
    AssemblySound(cfg, counts, records);
  }

  /**
   * Destination and bounds: a send goes to the record's own hub when that hub is
   * registered and to the default hub otherwise, and its slot lies between the
   * no-partition slot and the partition count of that same hub, minus one.
   */
  lemma SendsRespectTargetHub(cfg: Settings, counts: map<string, nat>, records: seq<Record>)
    ensures forall e :: e in Assembly(cfg, counts, records) && e.Sent? ==>
      e.index < |records| && e.hub in counts
      && (var r := records[e.index];
          (r.destination.Some? && r.destination.value in counts ==> e.hub == r.destination.value)
          && (r.destination.None? || r.destination.value !in counts ==> e.hub == cfg.defaultHub))
      && cfg.noPartitionSlot <= e.slot <= counts[e.hub] as int - 1
  {
    AssemblySound(cfg, counts, records);
  }

  /**
   * Payloads: only records whose payload is a String or a byte[] are sent, with the
   * payload's bytes as body; a record of another payload type draws a warning instead;
   * a null payload produces no event at all.
   */
  lemma SendsCarryPayload(cfg: Settings, counts: map<string, nat>, records: seq<Record>)
    ensures forall e :: e in Assembly(cfg, counts, records) && e.Sent? ==>
      e.index < |records| && (records[e.index].value.Str? || records[e.index].value.Bytes?)
      && e.body == GetBytes(records[e.index].value).value
    ensures forall e :: e in Assembly(cfg, counts, records) && e.Warned? ==>
      e.index < |records| && records[e.index].value.Other?
    ensures forall i :: 0 <= i < |records| && records[i].value.Null? ==>
      forall e :: e in Assembly(cfg, counts, records) ==> (e.Sent? || e.Warned?) && e.index != i
  {
    AssemblySound(cfg, counts, records);
  }

  // ---------------------------------------------------------------------------
  // Acknowledgement
  // ---------------------------------------------------------------------------

  /** The phase of an invocation an event belongs to: initialize, assemble, flush, mark, finish. */
  function Phase(e: Event): nat {
    match e
    case Initialized(_) => 0
    case Sent(_, _, _, _) => 1
    case Warned(_) => 1
    case Emitted(_) => 2
    case Marked(_) => 3
    case Finished => 4
  }

  /** The events of a failed invocation: initialization, part of the assembly, part of the flush. */
  function FailedTrace(cfg: Settings, counts: map<string, nat>, records: seq<Record>, progress: nat,
                       initOrder: seq<string>, emitOrder: seq<string>): seq<Event>
    requires progress <= |records|
  {
    InitEvents(initOrder) + Assembly(cfg, counts, records[..progress]) + EmitEvents(emitOrder)
  }

  /** The events of a successful invocation: initialization, assembly, flush, one mark per record, finish. */
  function SucceededTrace(cfg: Settings, counts: map<string, nat>, records: seq<Record>,
                          initOrder: seq<string>, emitOrder: seq<string>): seq<Event>
  {
    InitEvents(initOrder) + Assembly(cfg, counts, records) + EmitEvents(emitOrder) + Marks(|records|) + [Finished]
  }

  /** A failed invocation acknowledges nothing: no record is marked processed and the batch is not finished. */
  lemma FailureAcknowledgesNothing(cfg: Settings, counts: map<string, nat>, records: seq<Record>, progress: nat,
                                   initOrder: seq<string>, emitOrder: seq<string>)
    requires progress <= |records|
    ensures forall e :: e in FailedTrace(cfg, counts, records, progress, initOrder, emitOrder) ==> Phase(e) < 3
  {
    AssemblySound(cfg, counts, records[..progress]);
    InitEventsAt(initOrder);
    EmitEventsAt(emitOrder);
  }

  /** The phases of the events in `t` never go back. */
  predicate Phased(t: seq<Event>) {
    forall a, b :: 0 <= a < b < |t| ==> Phase(t[a]) <= Phase(t[b])
  }

  /** Appending events of one phase `p` to a phased trace whose events are all at most `p` keeps it phased. */
  lemma PhasedAppend(x: seq<Event>, y: seq<Event>, p: nat)
    requires Phased(x) && forall k :: 0 <= k < |x| ==> Phase(x[k]) <= p
    requires forall k :: 0 <= k < |y| ==> Phase(y[k]) == p
    ensures Phased(x + y) && forall k :: 0 <= k < |x + y| ==> Phase((x + y)[k]) <= p
  {
    var t := x + y;
    forall a, b | 0 <= a < b < |t| ensures Phase(t[a]) <= Phase(t[b]) {
      if b >= |x| {
        assert t[b] == y[b - |x|];
        if a < |x| { assert t[a] == x[a]; } else { assert t[a] == y[a - |x|]; }
      } else {
        assert t[a] == x[a] && t[b] == x[b];
      }
    }
  }

  /** Every assembly event belongs to the assembly phase. */
  lemma AssemblyPhase(cfg: Settings, counts: map<string, nat>, records: seq<Record>)
    ensures forall k :: 0 <= k < |Assembly(cfg, counts, records)| ==> Phase(Assembly(cfg, counts, records)[k]) == 1
  {
    AssemblySound(cfg, counts, records);
  }

  /** Everything a successful invocation does before it finishes the batch. */
  function BeforeFinish(cfg: Settings, counts: map<string, nat>, records: seq<Record>,
                        initOrder: seq<string>, emitOrder: seq<string>): seq<Event>
  {
    InitEvents(initOrder) + Assembly(cfg, counts, records) + EmitEvents(emitOrder) + Marks(|records|)
  }

  /** The part before finishing is phased and never reaches the finishing phase. */
  lemma BeforeFinishPhased(cfg: Settings, counts: map<string, nat>, records: seq<Record>,
                           initOrder: seq<string>, emitOrder: seq<string>)
    ensures var f := BeforeFinish(cfg, counts, records, initOrder, emitOrder);
      Phased(f) && forall k :: 0 <= k < |f| ==> Phase(f[k]) <= 3
  {
    var ie, ae, ee, me := InitEvents(initOrder), Assembly(cfg, counts, records), EmitEvents(emitOrder), Marks(|records|);
    assert forall k :: 0 <= k < |ie| ==> Phase(ie[k]) == 0 by {
      InitEventsAt(initOrder);
    }
    assert forall k :: 0 <= k < |ae| ==> Phase(ae[k]) == 1 by {
      AssemblyPhase(cfg, counts, records);
    }
    assert forall k :: 0 <= k < |ee| ==> Phase(ee[k]) == 2 by {
      EmitEventsAt(emitOrder);
    }
    assert forall k :: 0 <= k < |me| ==> Phase(me[k]) == 3 by {
      MarksAt(|records|);
    }
    PhasedFour(ie, ae, ee, me);
  }

  /** Four segments whose events lie in phases 0, 1, 2 and 3 form a phased trace, in that order. */
  lemma PhasedFour(ie: seq<Event>, ae: seq<Event>, ee: seq<Event>, me: seq<Event>)
    requires forall k :: 0 <= k < |ie| ==> Phase(ie[k]) == 0
    requires forall k :: 0 <= k < |ae| ==> Phase(ae[k]) == 1
    requires forall k :: 0 <= k < |ee| ==> Phase(ee[k]) == 2
    requires forall k :: 0 <= k < |me| ==> Phase(me[k]) == 3
    ensures Phased(ie + ae + ee + me) && forall k :: 0 <= k < |ie + ae + ee + me| ==> Phase((ie + ae + ee + me)[k]) <= 3
  {
    PhasedAppend([], ie, 0);
    assert [] + ie == ie;
    PhasedAppend(ie, ae, 1);
    PhasedAppend(ie + ae, ee, 2);
    PhasedAppend(ie + ae + ee, me, 3);
  }

  /**
   * A successful invocation happens in phases: every manager is initialized before any
   * record is sent, every send comes before any flush, and every flush before any mark.
   */
  lemma SuccessIsPhased(cfg: Settings, counts: map<string, nat>, records: seq<Record>,
                        initOrder: seq<string>, emitOrder: seq<string>)
    ensures Phased(SucceededTrace(cfg, counts, records, initOrder, emitOrder))
  {
    var f := BeforeFinish(cfg, counts, records, initOrder, emitOrder);
    BeforeFinishPhased(cfg, counts, records, initOrder, emitOrder);
    PhasedAppend(f, [Finished], 4);
    assert SucceededTrace(cfg, counts, records, initOrder, emitOrder) == f + [Finished];
  }

  /**
   * A successful invocation ends by marking records 0 .. n-1 processed, in input order,
   * and then finishing the batch; it finishes the batch exactly once.
   */
  lemma SuccessAcknowledgesAll(cfg: Settings, counts: map<string, nat>, records: seq<Record>,
                               initOrder: seq<string>, emitOrder: seq<string>)
    ensures var t := SucceededTrace(cfg, counts, records, initOrder, emitOrder);
      && |t| > |records|
      && t[|t| - 1] == Finished
      && (forall k :: 0 <= k < |t| - 1 ==> t[k] != Finished)
      && (forall k :: 0 <= k < |records| ==> t[|t| - 1 - |records| + k] == Marked(k))
  {
    var front := InitEvents(initOrder) + Assembly(cfg, counts, records) + EmitEvents(emitOrder);
    var me := Marks(|records|);
    assert forall k :: 0 <= k < |front + me| ==> Phase((front + me)[k]) <= 3 by {
      BeforeFinishPhased(cfg, counts, records, initOrder, emitOrder);
      assert BeforeFinish(cfg, counts, records, initOrder, emitOrder) == front + me;
    }
    assert forall k :: 0 <= k < |records| ==> me[k] == Marked(k) by {
      MarksAt(|records|);
    }
    var t := SucceededTrace(cfg, counts, records, initOrder, emitOrder);
    assert t == front + me + [Finished];
    FinishAfterMarks(front, me, |records|, t);
  }

  /** A trace of events below the finishing phase, ending in marks 0 .. n-1, followed by a finish. */
  lemma FinishAfterMarks(front: seq<Event>, marks: seq<Event>, n: nat, t: seq<Event>)
    requires |marks| == n && forall k :: 0 <= k < n ==> marks[k] == Marked(k)
    requires forall k :: 0 <= k < |front + marks| ==> Phase((front + marks)[k]) <= 3
    requires t == front + marks + [Finished]
    ensures && |t| > n
      && t[|t| - 1] == Finished
      && (forall k :: 0 <= k < |t| - 1 ==> t[k] != Finished)
      && (forall k :: 0 <= k < n ==> t[|t| - 1 - n + k] == Marked(k))
  {
    var f := front + marks;
    forall k | 0 <= k < |t| - 1 ensures t[k] != Finished {
      assert t[k] == f[k];
    }
    forall k | 0 <= k < n ensures t[|t| - 1 - n + k] == Marked(k) {
      assert t[|t| - 1 - n + k] == f[|front| + k] == marks[k];
    }
  }

  // ---------------------------------------------------------------------------
  // The registry built at startup
  // ---------------------------------------------------------------------------

  /** The hubs that get a manager: the default hub and every entry of the comma-split list. */
  function RegisteredHubs(defaultHub: string, hubList: string): set<string> {
    {defaultHub} + Entries(Split(hubList))
  }

  /** The names occurring in a list. */
  function Entries(names: seq<string>): set<string> {
    set n | n in names
  }

  /** Extending a list by one name adds that name to its entries. */
  lemma EntriesSnoc(names: seq<string>, name: string)
    ensures Entries(names + [name]) == Entries(names) + {name}
  {
  }

  /** The startup check of the configured partition id against a hub with `count` partitions (upper bound only). */
  predicate PartitionIdFits(partitionId: Option<int>, count: int) {
    partitionId.None? || partitionId.value <= count - 1
  }

  /** An unset hub list still yields one entry, the empty name, so the empty hub name is registered too. */
  lemma UnsetHubListRegistersEmptyName(defaultHub: string)
    ensures RegisteredHubs(defaultHub, "") == {defaultHub, ""}
  {
    assert Split("") == [""];
  }

  /**
   * After a successful startup (the default hub registered and the configured id passed
   * the check for every hub), a record is never rejected as long as the configured id is
   * not below the no-partition slot.
   */
  lemma StartupCheckCoversConfiguredId(cfg: Settings, counts: map<string, nat>, records: seq<Record>)
    requires cfg.defaultHub in counts
    requires forall h :: h in counts ==> PartitionIdFits(cfg.partitionId, counts[h])
    requires cfg.partitionId.Some? && cfg.noPartitionSlot <= cfg.partitionId.value
    ensures Routable(cfg, counts, records)
  {
    forall i | 0 <= i < |records|
      ensures !Decide(cfg, counts, records[i]).Reject?
    {
      var h := TargetHub(cfg, counts, records[i]);
      assert h.Some?;
    }
  }

  /**
   * The startup check tests only the upper bound: a configured id below the
   * no-partition slot passes it for every hub, yet every record with a payload is then
   * rejected and fails its invocation.
   */
  lemma StartupCheckMissesLowerBound(cfg: Settings, counts: map<string, nat>, r: Record)
    requires cfg.partitionId.Some? && cfg.partitionId.value < cfg.noPartitionSlot
    requires cfg.noPartitionSlot <= 0
    requires r.value.Str? || r.value.Bytes?
    ensures forall h :: h in counts ==> PartitionIdFits(cfg.partitionId, counts[h])
    ensures Decide(cfg, counts, r) == Reject
  {
  }
}
