# Event Hubs change consumer — a Dafny model

This project models the Azure Event Hubs sink of Debezium Server and the helpers it
inherits from the base change consumer.

**The registry.** At startup the sink builds one batch manager per Event Hub. This covers
the default hub and every entry of the comma-separated hub list. Startup fails when the
configured partition id is larger than the last partition of any of those hubs.

**The batch handler.** For each batch of change events the sink does the following, in order:
- it starts a new batch on every manager;
- it routes every record to a manager and a partition slot, then appends it;
- it flushes every manager;
- it acknowledges the batch to the committer, one record at a time, then marks the batch finished.

Any failure while routing, appending or flushing ends the call before the batch is acknowledged.

**The helpers.** The base consumer extracts a prefixed subset of the configuration. It
turns a payload into bytes or into a string, builds the message for an unsupported
payload type, and converts an event's headers into a map.

## Modules

- `wrappers.dfy` (`Wrappers`): `Option` and `Result`.
- `java_text.dfy` (`JavaText`): the two pieces of Java string handling the sink depends on.
  - `String.split(",")` is modelled with Java's special case: a string without a comma splits into itself, so `""` splits into `[""]`.
  - `String.getBytes(UTF_8)` is modelled as the UTF-8 encoding of Unicode scalar values, with a decoder and the round trip proved.
- `base_change_consumer.dfy` (`BaseChangeConsumer`):
  - payload values (`Null`, `Str`, `Bytes`, `Other`);
  - `getBytes`, `getString` and `unsupportedTypeMessage` as functions;
  - `getConfigSubset` and `convertHeaders` as methods with loops.
- `eventhubs_routing.dfy` (`EventHubsRouting`): the routing rules stated over values.
  - `Decide` gives the decision for one record.
  - `Assembly` gives the events the record loop produces.
  - `SucceededTrace` and `FailedTrace` give the whole trace of a successful or a failed invocation.
  - `RegisteredHubs` gives the hubs the registry holds.
  - Lemmas state what these mean.
- `eventhubs_change_consumer.dfy` (`EventHubsChangeConsumer`): the sink as objects.
  - `EventHubsConsumer` holds its configuration and a `batchManagers` map field, filled by `Connect`.
  - `HandleBatch` is the batch handler.
  - `BatchManager`, `Committer` and `Log` are seen only through the calls the sink makes on them.
  - Each call appends an event to one shared ghost trace, so contracts can speak about the order of calls.
  - A manager's append and flush may fail (the transport's verdict), so they return a nondeterministic `ok`.

How the model relates to the source:

- **Iteration order.** `HandleBatch` visits the managers in the map's iteration order. Java leaves that order unspecified, so the model picks hubs from a set and returns the order it used as a ghost out-parameter.
- **Bounds check.** The per-record check at `EventHubsChangeConsumer.java:215` takes the no-partition sentinel as the lower bound of a slot, not 0, and the model does the same.
- **Startup check.** The startup check tests only the upper bound. `StartupCheckMissesLowerBound` shows the consequence: when the no-partition sentinel is at most 0, a configured id below it passes startup on every hub, yet every record with a String or byte[] payload is rejected.

## Model

Source paths are relative to the repository root.

| member | source | states |
|---|---|---|
| BaseChangeConsumer.UnsupportedTypeMessage | debezium-server-core/src/main/java/io/debezium/server/BaseChangeConsumer.java:87-90 | the message is `Unexpected data type '`, then the type name (`null` for null, the class name otherwise), then a closing quote |
| BaseChangeConsumer.UnsupportedTypeMessageNamesType | debezium-server-core/src/main/java/io/debezium/server/BaseChangeConsumer.java:87-90 | two messages are equal exactly when the type names are equal |
| BaseChangeConsumer.GetBytes | debezium-server-core/src/main/java/io/debezium/server/BaseChangeConsumer.java:70-78 | succeeds exactly for a byte[] or a String; a byte[] is returned unchanged; a String comes back as its UTF-8 encoding, which decodes back to the String; any other value, null included, fails with the unsupported-type message |
| BaseChangeConsumer.GetString | debezium-server-core/src/main/java/io/debezium/server/BaseChangeConsumer.java:80-85 | succeeds exactly for a String and returns it unchanged; otherwise fails with the unsupported-type message |
| BaseChangeConsumer.GetBytesExtendsGetString | debezium-server-core/src/main/java/io/debezium/server/BaseChangeConsumer.java:70-85 | where getString succeeds, getBytes gives the UTF-8 encoding of that string; a byte[] is accepted only by getBytes; every other value fails both with the same message |
| BaseChangeConsumer.SubsetMapSpec | debezium-server-core/src/main/java/io/debezium/server/BaseChangeConsumer.java:57-68 | key `k` is in the subset iff `prefix + k` is a property name; its value is that property's value; the subset has one entry per prefixed name |
| BaseChangeConsumer.GetConfigSubset | debezium-server-core/src/main/java/io/debezium/server/BaseChangeConsumer.java:57-68 | the loop's result has exactly the keys `k` with `prefix + k` a property name, each under that property's value, and as many entries as there are prefixed names |
| BaseChangeConsumer.ConfigSubsetWithEmptyPrefix | debezium-server-core/src/main/java/io/debezium/server/BaseChangeConsumer.java:60-63 | with the empty prefix the subset is the whole configuration under unchanged names |
| BaseChangeConsumer.HeaderMapKeys | debezium-server-core/src/main/java/io/debezium/server/BaseChangeConsumer.java:94-97 | the keys of the converted map are exactly the header keys |
| BaseChangeConsumer.HeaderMapLastWins | debezium-server-core/src/main/java/io/debezium/server/BaseChangeConsumer.java:94-97 | a repeated key takes the value of its last header |
| BaseChangeConsumer.ConvertHeaders | debezium-server-core/src/main/java/io/debezium/server/BaseChangeConsumer.java:92-99 | succeeds iff every header value is a String, returning the header map; otherwise fails with the unsupported-type message of the first non-String value |
| JavaText.Split | debezium-server-eventhubs/src/main/java/io/debezium/server/eventhubs/EventHubsChangeConsumer.java:85 | a string without a comma splits into itself; otherwise into the comma-separated pieces without trailing empty pieces; no piece contains a comma |
| JavaText.StripTrailingEmpty | debezium-server-eventhubs/src/main/java/io/debezium/server/eventhubs/EventHubsChangeConsumer.java:85 | the result is a prefix of the pieces; it does not end in an empty piece; only empty pieces are dropped |
| JavaText.JoinFields | debezium-server-eventhubs/src/main/java/io/debezium/server/eventhubs/EventHubsChangeConsumer.java:85 | joining the comma-separated pieces with commas gives back the original string |
| JavaText.FieldsHaveNoComma | debezium-server-eventhubs/src/main/java/io/debezium/server/eventhubs/EventHubsChangeConsumer.java:85 | no piece between commas contains a comma |
| JavaText.EncodeChar | debezium-server-core/src/main/java/io/debezium/server/BaseChangeConsumer.java:75 | one character takes one to four UTF-8 bytes, and exactly one iff it is ASCII |
| JavaText.EncodeCharDecodes | debezium-server-core/src/main/java/io/debezium/server/BaseChangeConsumer.java:75 | a character's UTF-8 lead byte announces the length of its sequence, and the sequence decodes to the character |
| JavaText.Utf8RoundTrip | debezium-server-core/src/main/java/io/debezium/server/BaseChangeConsumer.java:75 | decoding the UTF-8 bytes of a string gives the string back |
| JavaText.Utf8Length | debezium-server-core/src/main/java/io/debezium/server/BaseChangeConsumer.java:75 | a string of n characters takes between n and 4n bytes, and exactly n when it is ASCII |
| EventHubsRouting.TargetHub | debezium-server-eventhubs/src/main/java/io/debezium/server/eventhubs/EventHubsChangeConsumer.java:202-211 | the chosen hub is registered; there is none exactly when neither the record's destination nor the default hub is registered |
| EventHubsRouting.InitEventsAt | debezium-server-eventhubs/src/main/java/io/debezium/server/eventhubs/EventHubsChangeConsumer.java:156 | the k-th initialization call goes to the k-th hub of the iteration order |
| EventHubsRouting.EmitEventsAt | debezium-server-eventhubs/src/main/java/io/debezium/server/eventhubs/EventHubsChangeConsumer.java:237 | the k-th flush call goes to the k-th hub of the iteration order |
| EventHubsRouting.MarksAt | debezium-server-eventhubs/src/main/java/io/debezium/server/eventhubs/EventHubsChangeConsumer.java:240-242 | the k-th acknowledgement marks record k |
| EventHubsRouting.AssemblySound | debezium-server-eventhubs/src/main/java/io/debezium/server/eventhubs/EventHubsChangeConsumer.java:158-233 | every event of the record loop is a send or a warning about a record of the batch, exactly as the decision for that record calls for |
| EventHubsRouting.AssemblyOrdered | debezium-server-eventhubs/src/main/java/io/debezium/server/eventhubs/EventHubsChangeConsumer.java:158-163 | record indices in the loop's events strictly increase: input order, each record at most once |
| EventHubsRouting.AssemblyComplete | debezium-server-eventhubs/src/main/java/io/debezium/server/eventhubs/EventHubsChangeConsumer.java:163-220 | every record to be delivered is sent with its hub, slot and body, and every record of another payload type draws its warning |
| EventHubsRouting.SlotPrecedence | debezium-server-eventhubs/src/main/java/io/debezium/server/eventhubs/EventHubsChangeConsumer.java:184-199 | every send uses the configured id if set, else the key slot if a key is set, else the record's partition, else the no-partition slot |
| EventHubsRouting.SendsRespectTargetHub | debezium-server-eventhubs/src/main/java/io/debezium/server/eventhubs/EventHubsChangeConsumer.java:202-218 | a send goes to the record's registered destination, else to the default hub; its slot lies between the no-partition slot and that same hub's partition count minus one |
| EventHubsRouting.SendsCarryPayload | debezium-server-eventhubs/src/main/java/io/debezium/server/eventhubs/EventHubsChangeConsumer.java:166-181 | only String and byte[] payloads are sent, with their bytes as body; another payload type only draws a warning; a null payload produces no event |
| EventHubsRouting.FailureAcknowledgesNothing | debezium-server-eventhubs/src/main/java/io/debezium/server/eventhubs/EventHubsChangeConsumer.java:201-237 | a failed invocation's trace holds no acknowledgement and no batch-finished call |
| EventHubsRouting.AssemblyPhase | debezium-server-eventhubs/src/main/java/io/debezium/server/eventhubs/EventHubsChangeConsumer.java:158-235 | every event of the record loop is a send or a warning |
| EventHubsRouting.BeforeFinishPhased | debezium-server-eventhubs/src/main/java/io/debezium/server/eventhubs/EventHubsChangeConsumer.java:156-242 | up to the last acknowledgement, initialization comes before sends, sends before flushes, flushes before acknowledgements |
| EventHubsRouting.SuccessIsPhased | debezium-server-eventhubs/src/main/java/io/debezium/server/eventhubs/EventHubsChangeConsumer.java:156-243 | in a successful invocation every manager is initialized before any send, every send comes before any flush, and every flush before any acknowledgement |
| EventHubsRouting.SuccessAcknowledgesAll | debezium-server-eventhubs/src/main/java/io/debezium/server/eventhubs/EventHubsChangeConsumer.java:237-243 | a successful invocation ends by marking records 0 .. n-1 processed in input order, then finishing the batch, which happens exactly once |
| EventHubsRouting.UnsetHubListRegistersEmptyName | debezium-server-eventhubs/src/main/java/io/debezium/server/eventhubs/EventHubsChangeConsumer.java:85 | with the hub list unset, the registry holds the default hub and the empty name |
| EventHubsRouting.StartupCheckCoversConfiguredId | debezium-server-eventhubs/src/main/java/io/debezium/server/eventhubs/EventHubsChangeConsumer.java:247-251 | once startup has passed, a configured id not below the no-partition slot never makes a record rejected |
| EventHubsRouting.StartupCheckMissesLowerBound | debezium-server-eventhubs/src/main/java/io/debezium/server/eventhubs/EventHubsChangeConsumer.java:215-218 | when the no-partition sentinel is at most 0, a configured id below it passes the startup check for every hub, yet every record with a String or byte[] payload is rejected |
| EventHubsChangeConsumer.Log.Warn | debezium-server-eventhubs/src/main/java/io/debezium/server/eventhubs/EventHubsChangeConsumer.java:178 | logging a warning about a record appends exactly that warning to the trace |
| EventHubsChangeConsumer.BatchManager.InitializeBatch | debezium-server-eventhubs/src/main/java/io/debezium/server/eventhubs/EventHubsChangeConsumer.java:156 | the manager records its initialization |
| EventHubsChangeConsumer.BatchManager.SendEventToPartitionId | debezium-server-eventhubs/src/main/java/io/debezium/server/eventhubs/EventHubsChangeConsumer.java:220 | the manager records the send of that record, slot and body when the transport accepts it, and nothing otherwise |
| EventHubsChangeConsumer.BatchManager.CloseAndEmitBatches | debezium-server-eventhubs/src/main/java/io/debezium/server/eventhubs/EventHubsChangeConsumer.java:237 | the manager records its flush when the transmission succeeds, and nothing otherwise |
| EventHubsChangeConsumer.Committer.MarkProcessed | debezium-server-eventhubs/src/main/java/io/debezium/server/eventhubs/EventHubsChangeConsumer.java:241 | the committer records the acknowledgement of that record |
| EventHubsChangeConsumer.Committer.MarkBatchFinished | debezium-server-eventhubs/src/main/java/io/debezium/server/eventhubs/EventHubsChangeConsumer.java:243 | the committer records the end of the batch |
| EventHubsChangeConsumer.EventHubsConsumer.constructor | debezium-server-eventhubs/src/main/java/io/debezium/server/eventhubs/EventHubsChangeConsumer.java:67-85 | a consumer starts with the configuration read and an empty registry |
| EventHubsChangeConsumer.EventHubsConsumer.Connect | debezium-server-eventhubs/src/main/java/io/debezium/server/eventhubs/EventHubsChangeConsumer.java:74-94 | startup succeeds iff the configured id fits every hub of the default-plus-list set; then the registry adds exactly those hubs, each with its discovered partition count |
| EventHubsChangeConsumer.EventHubsConsumer.CreateDefaultBatchManager | debezium-server-eventhubs/src/main/java/io/debezium/server/eventhubs/EventHubsChangeConsumer.java:96-121 | registers a new manager for the default hub with its discovered count iff the configured id fits it; other managers stay as they were |
| EventHubsChangeConsumer.EventHubsConsumer.CreateListedBatchManagers | debezium-server-eventhubs/src/main/java/io/debezium/server/eventhubs/EventHubsChangeConsumer.java:123-137 | succeeds iff the configured id fits every registered hub; then the registry holds the default hub and every list entry, each with its discovered count |
| EventHubsChangeConsumer.EventHubsConsumer.RegisterListedHubs | debezium-server-eventhubs/src/main/java/io/debezium/server/eventhubs/EventHubsChangeConsumer.java:124-136 | the loop over the list entries succeeds iff the configured id fits every entry; then every entry is registered with its discovered count and nothing else is added |
| EventHubsChangeConsumer.EventHubsConsumer.RegisterListedHub | debezium-server-eventhubs/src/main/java/io/debezium/server/eventhubs/EventHubsChangeConsumer.java:125-135 | an entry naming the default hub changes nothing; any other entry gets a fresh manager with its discovered count iff the configured id fits it |
| EventHubsChangeConsumer.EventHubsConsumer.InitializeAll | debezium-server-eventhubs/src/main/java/io/debezium/server/eventhubs/EventHubsChangeConsumer.java:156 | every registered manager is initialized exactly once, in some order of the registry |
| EventHubsChangeConsumer.EventHubsConsumer.CloseAndEmitAll | debezium-server-eventhubs/src/main/java/io/debezium/server/eventhubs/EventHubsChangeConsumer.java:237 | managers are flushed once each, without repeats; the call succeeds iff every registered manager was flushed |
| EventHubsChangeConsumer.EventHubsConsumer.AppendRecord | debezium-server-eventhubs/src/main/java/io/debezium/server/eventhubs/EventHubsChangeConsumer.java:164-233 | one record produces exactly the events its decision calls for; a failure happens only for a record to be delivered or rejected, and records nothing |
| EventHubsChangeConsumer.EventHubsConsumer.AppendAll | debezium-server-eventhubs/src/main/java/io/debezium/server/eventhubs/EventHubsChangeConsumer.java:158-235 | the record loop produces the assembly events of the records it handled; it stops at the first record that fails and reports how many records came before it |
| EventHubsChangeConsumer.EventHubsConsumer.FlushAndAcknowledge | debezium-server-eventhubs/src/main/java/io/debezium/server/eventhubs/EventHubsChangeConsumer.java:237-243 | after all managers are flushed, records 0 .. n-1 are marked in order and the batch is finished; a failed flush acknowledges nothing |
| EventHubsChangeConsumer.EventHubsConsumer.HandleBatch | debezium-server-eventhubs/src/main/java/io/debezium/server/eventhubs/EventHubsChangeConsumer.java:151-245 | on success the trace is initialize-all, the assembly of every record, flush-all, the marks in input order, then finish; on failure it is the initialization, the assembly of the records before the failing one, and part of the flush, with no acknowledgement; a batch with a rejected record always fails |

## Left out

- Azure clients are not modelled: `EventHubClientBuilder`, `EventHubProducerClient`, connection strings, `getPartitionIds()` and the namespace lookup. These are network clients, so partition discovery is a parameter, `discover`, mapping a hub name to its partition count.
- The custom-producer branch of `createDefaultProducerAndBatchManager` (lines 100-109) is not a separate path. It computes the count and builds the manager exactly as the other branch does.
- `BatchManager`'s own code is not part of this model. Its per-slot batches, overflow and rollover, `tryAdd` and its producer are left out. Only the calls the sink makes on it are modelled, and append and flush may fail.
- `BATCH_INDEX_FOR_NO_PARTITION_ID` and `BATCH_INDEX_FOR_PARTITION_KEY` are defined in `BatchManager`, so the model takes them as constructor parameters.
- `maxBatchSize` is not modelled. It is only passed on to `BatchManager`.
- CDI wiring is not modelled: `@Inject`, `@PostConstruct`, `@PreDestroy` and `customProducer.isResolvable()`. The same goes for the stream name mapper set up in `BaseChangeConsumer.init` (lines 40-46).
- `close()` (lines 139-148) is not modelled. It releases resources on a best-effort basis and only logs.
- Logging is left out, except for the warning about an unsupported payload type, which is part of the trace.
- Reading values through `ConfigProvider` is not modelled. The consumer is built with the values already read.
- The model does not tell exception kinds apart. `AmqpException`, `IllegalArgumentException`, `IndexOutOfBoundsException` and the missing-manager error are all rethrown as `DebeziumException`, so each is one failure outcome (`ok` false).
- `Integer.parseInt` of the configured partition id is not modelled, including its `NumberFormatException`. The id is an optional integer, absent when the property is empty.
- `EventHubsConsumer.HandleBatch`: the nested loop at lines 158-163 is one loop in the model. The outer loop's body runs the inner loop to the end, so the outer loop makes at most one pass (none for an empty batch).
- `EventHubsConsumer.HandleBatch`: the committer receives the record's index, not the record object.
- `EventHubsConsumer.FlushAndAcknowledge`: the committer's calls are assumed never to throw. In the source, `handleBatch` is declared `throws InterruptedException`, and `markProcessed` (line 241) or `markBatchFinished` (line 243) may throw it. The model then does not capture a batch left with records 0 .. k-1 acknowledged and never finished.
- `EventHubsConsumer.CloseAndEmitAll`: when a manager's flush fails, the model does not trace which of its batches were already transmitted.
- `BaseChangeConsumer.GetConfigSubset`: every property name is assumed to have a value (`values` covers `names`). A property whose value cannot be resolved, so that Java would store null, is not modelled.
- `JavaText.Utf8Decode`: the decoder does not check continuation bytes and accepts overlong forms. It serves only as a left inverse of `Utf8Encode`, so it is no UTF-8 validator.
- `JavaText.Utf8Encode`: strings are sequences of Unicode scalar values. Lone UTF-16 surrogates, which Java encodes as `?`, cannot occur.
- The model has no Java `int` overflow. Partition counts and slots are unbounded integers, because no arithmetic in the modelled code can overflow for realistic partition counts.
