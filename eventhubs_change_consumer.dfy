/**
 * The Event Hubs change consumer as objects: the registry of batch managers built at
 * startup and the batch-handling loop that routes records to them and acknowledges
 * the batch. Every call the consumer makes on a batch manager, on the logger (for
 * warnings) and on the committer is appended to one shared trace, so that contracts
 * can say in which order things happen.
 */
module EventHubsChangeConsumer {
  import opened Wrappers
  import opened JavaText
  import opened BaseChangeConsumer
  import opened EventHubsRouting

  /** The observable world of the consumer: the calls it has made so far, in order. */
  class Log {
    ghost var events: seq<Event>

    constructor ()
      ensures events == []
    {
      events := [];
    }

    /** A warning logged about record `index`. */
    method Warn(index: nat)
      modifies this
      ensures events == old(events) + [Warned(index)]
    {
      events := events + [Warned(index)];
    }
  }

  /**
   * The batch manager of one hub, seen through its interface only: its hub name and
   * partition count, and the three calls the consumer makes on it. Whether the
   * transport accepts an append or a flush is not up to the consumer, so those two
   * calls report success or failure freely.
   */
  class BatchManager {
    const hub: string
    const partitionCount: nat
    const log: Log

    constructor (hub: string, partitionCount: nat, log: Log)
      ensures this.hub == hub && this.partitionCount == partitionCount && this.log == log
    {
      this.hub := hub;
      this.partitionCount := partitionCount;
      this.log := log;
    }

    /** Starts a fresh set of batches for one invocation. */
    method InitializeBatch()
      modifies log
      ensures log.events == old(log.events) + [Initialized(hub)]
    {
      log.events := log.events + [Initialized(hub)];
    }

    /** Appends the body of record `index` to the batch of `slot`; `ok` is false when the transport refuses it. */
    method SendEventToPartitionId(body: seq<byte>, index: nat, slot: int) returns (ok: bool)
      modifies log
      ensures log.events == old(log.events) + (if ok then [Sent(hub, index, slot, body)] else [])
    {
      ok :| true;
      if ok {
        log.events := log.events + [Sent(hub, index, slot, body)];
      }
    }

    /** Closes and transmits every batch of this invocation; `ok` is false when a transmission fails. */
    method CloseAndEmitBatches() returns (ok: bool)
      modifies log
      ensures log.events == old(log.events) + (if ok then [Emitted(hub)] else [])
    {
      ok :| true;
      if ok {
        log.events := log.events + [Emitted(hub)];
      }
    }
  }

  /** The capture engine's record committer. */
  class Committer {
    const log: Log

    constructor (log: Log)
      ensures this.log == log
    {
      this.log := log;
    }

    method MarkProcessed(index: nat)
      modifies log
      ensures log.events == old(log.events) + [Marked(index)]
    {
      log.events := log.events + [Marked(index)];
    }

    method MarkBatchFinished()
      modifies log
      ensures log.events == old(log.events) + [Finished]
    {
      log.events := log.events + [Finished];
    }
  }

  /** The Event Hubs sink: its configuration, its registry of batch managers and its batch handler. */
  class EventHubsConsumer {
    const defaultHub: string
    const hubList: string
    const partitionId: Option<int>
    const partitionKey: string
    const noPartitionSlot: int
    const keySlot: int
    const log: Log
    var batchManagers: map<string, BatchManager>

    /** Every manager is registered under its own hub name and records into the consumer's trace. */
    ghost predicate Valid()
      reads this
    {
      forall h :: h in batchManagers ==> batchManagers[h].hub == h && batchManagers[h].log == log
    }

    /** The routing configuration. */
    function Config(): Settings {
      Settings(defaultHub, partitionId, partitionKey, noPartitionSlot, keySlot)
    }

    /** The partition count of every registered hub. */
    function Counts(): (counts: map<string, nat>)
      reads this
      ensures counts.Keys == batchManagers.Keys
    {
      map h | h in batchManagers :: batchManagers[h].partitionCount
    }

    /**
     * A consumer with the configuration already read: the default hub name, the raw
     * value of the hub name list (empty when unset), the partition id and key, and the
     * batch manager's two slot sentinels.
     */
    constructor (defaultHub: string, hubList: string, partitionId: Option<int>, partitionKey: string,
                 noPartitionSlot: int, keySlot: int, log: Log)
      ensures Valid() && batchManagers == map[] && this.log == log
      ensures Config() == Settings(defaultHub, partitionId, partitionKey, noPartitionSlot, keySlot)
      ensures this.hubList == hubList
    {
      this.defaultHub := defaultHub;
      this.hubList := hubList;
      this.partitionId := partitionId;
      this.partitionKey := partitionKey;
      this.noPartitionSlot := noPartitionSlot;
      this.keySlot := keySlot;
      this.log := log;
      batchManagers := map[];
    }

    /** The manager registered for `hub` serves that hub with `count` partitions. */
    ghost predicate Registered(hub: string, count: nat)
      reads this
    {
      hub in batchManagers && batchManagers[hub].partitionCount == count
    }

    /**
     * `connect`: registers the default hub's manager, then the managers of the hub name
     * list. Fails as soon as the configured partition id exceeds the last partition of
     * some hub.
     */
    method Connect(discover: string -> nat) returns (ok: bool)
      requires Valid()
      modifies this
      ensures Valid()
      ensures ok <==> forall h :: h in RegisteredHubs(defaultHub, hubList) ==> PartitionIdFits(partitionId, discover(h))
      ensures ok ==> batchManagers.Keys == old(batchManagers.Keys) + RegisteredHubs(defaultHub, hubList)
      ensures ok ==> forall h :: h in RegisteredHubs(defaultHub, hubList) ==> Registered(h, discover(h))
    {
      ok := CreateDefaultBatchManager(discover);
      if ok {
        ok := CreateListedBatchManagers(discover);
      }
    }

    /**
     * `createDefaultProducerAndBatchManager`: registers a manager for the default hub with
     * the partition count `discover` reports for it, provided the configured partition id
     * fits that count.
     */
    method CreateDefaultBatchManager(discover: string -> nat) returns (ok: bool)
      requires Valid()
      modifies this
      ensures Valid()
      ensures ok <==> PartitionIdFits(partitionId, discover(defaultHub))
      ensures ok ==> batchManagers.Keys == old(batchManagers.Keys) + {defaultHub}
      ensures ok ==> fresh(batchManagers[defaultHub]) && Registered(defaultHub, discover(defaultHub))
      ensures ok ==> forall h :: h in old(batchManagers) && h != defaultHub ==> batchManagers[h] == old(batchManagers[h])
    {
      var partitionCount := discover(defaultHub);
      if !PartitionIdFits(partitionId, partitionCount) {
        return false;
      }
      var defaultBatchManager := new BatchManager(defaultHub, partitionCount, log);
      batchManagers := batchManagers[defaultHub := defaultBatchManager];
      ok := true;
    }

    /**
     * `createBatchManagersFromEventHubNameList`: for every entry of the comma-split hub
     * list, in list order, registers its manager; stops at the first hub whose partition
     * count the configured partition id exceeds.
     */
    method CreateListedBatchManagers(discover: string -> nat) returns (ok: bool)
      requires Valid()
      requires Registered(defaultHub, discover(defaultHub)) && PartitionIdFits(partitionId, discover(defaultHub))
      modifies this
      ensures Valid()
      ensures ok <==> forall h :: h in RegisteredHubs(defaultHub, hubList) ==> PartitionIdFits(partitionId, discover(h))
      ensures ok ==> batchManagers.Keys == old(batchManagers.Keys) + RegisteredHubs(defaultHub, hubList)
      ensures ok ==> forall h :: h in RegisteredHubs(defaultHub, hubList) ==> Registered(h, discover(h))
    {
      var names := Split(hubList);
      ok := RegisterListedHubs(names, discover);
    }

    /** The loop of `createBatchManagersFromEventHubNameList` over the entries of the split list, in order. */
    method RegisterListedHubs(names: seq<string>, discover: string -> nat) returns (ok: bool)
      requires Valid()
      requires Registered(defaultHub, discover(defaultHub)) && PartitionIdFits(partitionId, discover(defaultHub))
      modifies this
      ensures Valid() && Registered(defaultHub, discover(defaultHub))
      ensures ok <==> forall h :: h in Entries(names) ==> PartitionIdFits(partitionId, discover(h))
      ensures ok ==> batchManagers.Keys == old(batchManagers.Keys) + Entries(names)
      ensures ok ==> forall h :: h in Entries(names) ==> Registered(h, discover(h))
    {
      ghost var listed: set<string> := {};
      for i := 0 to |names|
        invariant Valid()
        invariant listed == Entries(names[..i])
        invariant forall h :: h in listed ==> PartitionIdFits(partitionId, discover(h))
        invariant batchManagers.Keys == old(batchManagers.Keys) + listed
        invariant Registered(defaultHub, discover(defaultHub))
        invariant forall h :: h in listed ==> Registered(h, discover(h))
      {
        var hubName := names[i];
        EntriesSnoc(names[..i], hubName);
        assert names[..i + 1] == names[..i] + [hubName];
        var registered := RegisterListedHub(hubName, discover);
        if !registered {
          assert hubName in Entries(names);
          return false;
        }
        listed := listed + {hubName};
      }
      assert names[..|names|] == names;
      ok := true;
    }

    /**
     * One pass of the loop of `createBatchManagersFromEventHubNameList`: an entry naming
     * the default hub is skipped; any other entry gets a new manager with the partition
     * count `discover` reports, unless the configured partition id exceeds that count.
     */
    method RegisterListedHub(hubName: string, discover: string -> nat) returns (ok: bool)
      requires Valid()
      modifies this
      ensures Valid()
      ensures ok <==> hubName == defaultHub || PartitionIdFits(partitionId, discover(hubName))
      ensures !ok || hubName == defaultHub ==> batchManagers == old(batchManagers)
      ensures ok && hubName != defaultHub ==>
                hubName in batchManagers && batchManagers == old(batchManagers)[hubName := batchManagers[hubName]]
                && fresh(batchManagers[hubName]) && Registered(hubName, discover(hubName))
    {
      if hubName != defaultHub {
        var partitionCount := discover(hubName);
        if !PartitionIdFits(partitionId, partitionCount) {
          return false;
        }
        var batchManager := new BatchManager(hubName, partitionCount, log);
        batchManagers := batchManagers[hubName := batchManager];
      }
      ok := true;
    }

    /**
     * Starts a new invocation on every registered manager, in the map's iteration order
     * (unspecified, returned as `order`).
     */
    method InitializeAll() returns (ghost order: seq<string>)
      requires Valid()
      modifies log
      ensures Lists(order, batchManagers.Keys)
      ensures log.events == old(log.events) + InitEvents(order)
    {
      var pending := batchManagers.Keys;
      order := [];
      while pending != {}
        invariant pending <= batchManagers.Keys
        invariant Distinct(order)
        invariant forall h :: h in order <==> h in batchManagers.Keys - pending
        invariant log.events == old(log.events) + InitEvents(order)
        decreases pending
      {
        var hub :| hub in pending;
        assert hub !in order;
        batchManagers[hub].InitializeBatch();
        InitEventsSnoc(order, hub);
        order := order + [hub];
        pending := pending - {hub};
      }
    }

    /**
     * Flushes every registered manager in the map's iteration order and stops at the
     * first flush that fails; `order` lists the managers flushed successfully.
     */
    method CloseAndEmitAll() returns (ok: bool, ghost order: seq<string>)
      requires Valid()
      modifies log
      ensures Distinct(order) && forall h :: h in order ==> h in batchManagers
      ensures ok <==> Lists(order, batchManagers.Keys)
      ensures log.events == old(log.events) + EmitEvents(order)
    {
      var pending := batchManagers.Keys;
      order := [];
      while pending != {}
        invariant pending <= batchManagers.Keys
        invariant Distinct(order)
        invariant forall h :: h in order <==> h in batchManagers.Keys - pending
        invariant log.events == old(log.events) + EmitEvents(order)
        decreases pending
      {
        var hub :| hub in pending;
        var flushed := batchManagers[hub].CloseAndEmitBatches();
        assert hub !in order;
        if !flushed {
          return false, order;
        }
        EmitEventsSnoc(order, hub);
        order := order + [hub];
        pending := pending - {hub};
      }
      ok := true;
    }

    /**
     * One pass of the inner loop of `handleBatch`: skips a record without payload, warns
     * about a payload that is neither a String nor a byte[], and otherwise picks the slot
     * (configured id, configured key, the record's partition, the no-partition slot),
     * picks the manager (the record's hub, else the default hub), checks the slot against
     * that manager's partition count and appends the payload. `ok` is false when there is
     * no manager, the slot is out of range or the append fails; nothing is recorded then.
     */
    method AppendRecord(record: Record, recordIndex: nat) returns (ok: bool)
      requires Valid()
      modifies log
      ensures ok ==> !Decide(Config(), Counts(), record).Reject?
      ensures ok ==> log.events == old(log.events) + RecordEvents(Decide(Config(), Counts(), record), recordIndex)
      ensures !ok ==> log.events == old(log.events)
      ensures !ok ==> Decide(Config(), Counts(), record).Deliver? || Decide(Config(), Counts(), record).Reject?
    {
      ghost var decision := Decide(Config(), Counts(), record);
      if record.value.Null? {
        return true;
      }
      if record.value.Other? {
        log.Warn(recordIndex);
        return true;
      }
      var body := if record.value.Str? then Utf8Encode(record.value.s) else GetBytes(record.value).value;

      var targetPartitionId: int;
      if partitionId.Some? {
        targetPartitionId := partitionId.value;
      } else if partitionKey != "" {
        targetPartitionId := keySlot;
      } else if record.partition.Some? {
        targetPartitionId := record.partition.value;
      } else {
        targetPartitionId := noPartitionSlot;
      }

      var batchManager: BatchManager;
      if record.destination.Some? && record.destination.value in batchManagers {
        batchManager := batchManagers[record.destination.value];
      } else if defaultHub in batchManagers {
        batchManager := batchManagers[defaultHub];
      } else {
        return false;
      }

      if targetPartitionId < noPartitionSlot || targetPartitionId > batchManager.partitionCount as int - 1 {
        return false;
      }

      assert decision == Deliver(batchManager.hub, targetPartitionId, body);
      ok := batchManager.SendEventToPartitionId(body, recordIndex, targetPartitionId);
    }

    /**
     * The record loop of `handleBatch`: appends the records in input order and stops at
     * the first one that cannot be routed or appended; `progress` is the number of
     * records handled before it stopped.
     */
    method AppendAll(records: seq<Record>) returns (ok: bool, ghost progress: nat)
      requires Valid()
      modifies log
      ensures progress <= |records| && (ok <==> progress == |records|)
      ensures Routable(Config(), Counts(), records[..progress])
      ensures log.events == old(log.events) + Assembly(Config(), Counts(), records[..progress])
      ensures !ok ==> Decide(Config(), Counts(), records[progress]).Deliver?
                      || Decide(Config(), Counts(), records[progress]).Reject?
    {
      ghost var cfg, counts := Config(), Counts();
      var recordIndex := 0;
      while recordIndex < |records|
        invariant recordIndex <= |records|
        invariant Routable(cfg, counts, records[..recordIndex])
        invariant log.events == old(log.events) + Assembly(cfg, counts, records[..recordIndex])
      {
        AssemblyStep(cfg, counts, records, recordIndex);
        var appended := AppendRecord(records[recordIndex], recordIndex);
        if !appended {
          return false, recordIndex;
        }
        recordIndex := recordIndex + 1;
      }
      return true, |records|;
    }

    /**
     * The end of `handleBatch`: flushes every manager, then marks records 0 .. count-1
     * processed, in order, and marks the batch finished. A failed flush ends it at once,
     * before any acknowledgement.
     */
    method FlushAndAcknowledge(count: nat, committer: Committer) returns (ok: bool, ghost emitOrder: seq<string>)
      requires Valid()
      requires committer.log == log
      modifies log
      ensures Distinct(emitOrder) && (ok <==> Lists(emitOrder, batchManagers.Keys))
      ensures ok ==> log.events == old(log.events) + (EmitEvents(emitOrder) + Marks(count) + [Finished])
      ensures !ok ==> log.events == old(log.events) + EmitEvents(emitOrder)
    {
      ok, emitOrder := CloseAndEmitAll();
      if !ok {
        return;
      }
      ghost var flushed := log.events;
      for i := 0 to count
        invariant log.events == flushed + Marks(i)
      {
        committer.MarkProcessed(i);
      }
      committer.MarkBatchFinished();
      Associative(old(log.events), EmitEvents(emitOrder), Marks(count), [Finished]);
    }

    /**
     * `handleBatch`: initializes every manager, routes and appends every record in
     * input order, then flushes every manager, marks every record processed in input
     * order and marks the batch finished. Any failure while routing, appending or
     * flushing ends the call with `ok` false and without any acknowledgement.
     * `progress` is the number of records handled before the call stopped.
     */
    method HandleBatch(records: seq<Record>, committer: Committer)
      returns (ok: bool, ghost initOrder: seq<string>, ghost progress: nat, ghost emitOrder: seq<string>)
      requires Valid()
      requires committer.log == log
      modifies log
      ensures Lists(initOrder, batchManagers.Keys)
      ensures progress <= |records|
      ensures Routable(Config(), Counts(), records[..progress])
      ensures ok ==> progress == |records| && Lists(emitOrder, batchManagers.Keys)
      ensures ok ==> log.events == old(log.events) + SucceededTrace(Config(), Counts(), records, initOrder, emitOrder)
      ensures !ok ==> log.events == old(log.events) + FailedTrace(Config(), Counts(), records, progress, initOrder, emitOrder)
      ensures !ok && progress < |records| ==>
                emitOrder == [] && (Decide(Config(), Counts(), records[progress]).Deliver?
                                    || Decide(Config(), Counts(), records[progress]).Reject?)
      ensures !ok && progress == |records| ==>
                Distinct(emitOrder) && !Lists(emitOrder, batchManagers.Keys)
      ensures !Routable(Config(), Counts(), records) ==> !ok
    {
      ghost var start := log.events;
      ghost var cfg, counts := Config(), Counts();
      initOrder := InitializeAll();
      ghost var initialized := log.events;
      ok, progress := AppendAll(records);
      ghost var assembled := log.events;
      if !ok {
        emitOrder := [];
        assert log.events == start + FailedTrace(cfg, counts, records, progress, initOrder, emitOrder) by {
          FailedTraceFrom(cfg, counts, records, progress, initOrder, emitOrder, start, initialized, assembled, log.events);
        }
        return;
      }
      assert records[..progress] == records;
      ok, emitOrder := FlushAndAcknowledge(|records|, committer);
      if ok {
        assert log.events == start + SucceededTrace(cfg, counts, records, initOrder, emitOrder) by {
          SucceededTraceFrom(cfg, counts, records, initOrder, emitOrder, start, initialized, assembled, log.events);
        }
      } else {
        assert log.events == start + FailedTrace(cfg, counts, records, progress, initOrder, emitOrder) by {
          FailedTraceFrom(cfg, counts, records, progress, initOrder, emitOrder, start, initialized, assembled, log.events);
        }
      }
    }
  }

  /** A trace grown by initialization, part of the assembly and part of the flush is a failed invocation's trace. */
  lemma FailedTraceFrom(cfg: Settings, counts: map<string, nat>, records: seq<Record>, progress: nat,
                        initOrder: seq<string>, emitOrder: seq<string>,
                        start: seq<Event>, initialized: seq<Event>, assembled: seq<Event>, flushed: seq<Event>)
    requires progress <= |records|
    requires initialized == start + InitEvents(initOrder)
    requires assembled == initialized + Assembly(cfg, counts, records[..progress])
    requires flushed == assembled + EmitEvents(emitOrder)
    ensures flushed == start + FailedTrace(cfg, counts, records, progress, initOrder, emitOrder)
  {
    Regroup(start, InitEvents(initOrder), Assembly(cfg, counts, records[..progress]), EmitEvents(emitOrder), [], [],
            initialized, assembled, flushed);
  }

  /** A trace grown by initialization, the whole assembly, the flush and the acknowledgement is a successful invocation's trace. */
  lemma SucceededTraceFrom(cfg: Settings, counts: map<string, nat>, records: seq<Record>,
                           initOrder: seq<string>, emitOrder: seq<string>,
                           start: seq<Event>, initialized: seq<Event>, assembled: seq<Event>, finished: seq<Event>)
    requires initialized == start + InitEvents(initOrder)
    requires assembled == initialized + Assembly(cfg, counts, records)
    requires finished == assembled + (EmitEvents(emitOrder) + Marks(|records|) + [Finished])
    ensures finished == start + SucceededTrace(cfg, counts, records, initOrder, emitOrder)
  {
    Regroup(start, InitEvents(initOrder), Assembly(cfg, counts, records), EmitEvents(emitOrder), Marks(|records|), [Finished],
            initialized, assembled, finished);
  }

  /** A trace grown by `a`, then `b`, then `c + d + e` is the start followed by all five in order. */
  lemma Regroup(start: seq<Event>, a: seq<Event>, b: seq<Event>, c: seq<Event>, d: seq<Event>, e: seq<Event>,
                x1: seq<Event>, x2: seq<Event>, x3: seq<Event>)
    requires x1 == start + a && x2 == x1 + b && x3 == x2 + (c + d + e)
    ensures x3 == start + (a + b + c + d + e)
  {
  }

  /** Regrouping a concatenation of four traces. */
  lemma Associative(a: seq<Event>, b: seq<Event>, c: seq<Event>, d: seq<Event>)
    ensures a + b + c + d == a + (b + c + d)
  {
  }

  /** Appending one hub to an order appends its initialization call. */
  lemma InitEventsSnoc(order: seq<string>, hub: string)
    ensures InitEvents(order + [hub]) == InitEvents(order) + [Initialized(hub)]
  {
    InitEventsAt(order + [hub]);
    InitEventsAt(order);
  }

  /** Appending one hub to an order appends its flush call. */
  lemma EmitEventsSnoc(order: seq<string>, hub: string)
    ensures EmitEvents(order + [hub]) == EmitEvents(order) + [Emitted(hub)]
  {
    EmitEventsAt(order + [hub]);
    EmitEventsAt(order);
  }
}
