# RocketMQ client, ACL, logging and tooling helpers in Dafny

This project models the sequential, deterministic parts of Apache RocketMQ
named below and proves their properties:

- **Consistent-hash queue allocation**, as its allocation test fixes it
  (`ConsistentHash`). Each consumer puts 3 virtual nodes on a ring. A queue
  belongs to the consumer of the first virtual node met clockwise from the
  queue's hash. The hash function is abstract: a `Ring` is a pair of
  uninterpreted position functions. The churn lemmas assume only that the
  virtual nodes have distinct positions. The proved properties are the
  test's three checks: full coverage, "removing a consumer moves only its
  queues" and "adding a consumer moves queues only to it".
- **The consumer-side offset store** `LocalFileOffsetStore`
  (`LocalFileOffsetStore`). It has an in-memory `MessageQueue -> offset`
  table and two abstract snapshot files, the primary and its `.bak`.
- **The ACL helpers** (`AclUtils`): byte concatenation, request-content
  assembly, the IPv4 scope checks, address expansion and the character tests.
- **The inner logger's `Level`** (`LoggingLevel`).
- **Path builders**: the message store's and the broker's
  (`StorePathConfigHelper`, `BrokerPathConfigHelper`, over `Paths`).
- **The pure test utilities** (`TestUtil`) and the **duplicate report**
  of the integration tests (`DuplicateMessageInfo`).
- **The `printMsgByQueue` admin command's tag statistics and read loop**
  (`PrintMessageByQueue`).

Shared helper modules model the library behaviour the code relies on:

- `Wrappers`: `Option` for Java `null`, `Result` for exceptions.
- `JavaText`: `StringUtils.isBlank`, `trim`, `split`, `substring` and
  `indexOf`, plus ASCII upper-casing.
- `JavaNumbers`: the `Long.parseLong`/`Integer.parseInt` grammar, decimal
  formatting, and `long` and `int` wrap-around.
- `MessageQueues`: the `MessageQueue` record.
- `Paths`: joining with `File.separator` and splitting off the last
  component.

The implementation of `AllocateMessageQueueConsistentHash` (its hash
function and ring) is not part of this model. The allocation is modelled
from the contract its test states.

## Model

Source paths are relative to the repository root.

| member | source | states |
|---|---|---|
| ConsistentHash.VirtualNodes | client/src/test/java/org/apache/rocketmq/client/consumer/rebalance/AllocateMessageQueueConsitentHashTest.java:111 | the ring holds exactly replicas 0, 1 and 2 of every listed consumer and nothing else |
| ConsistentHash.Route | client/src/test/java/org/apache/rocketmq/client/consumer/rebalance/AllocateMessageQueueConsitentHashTest.java:111 | the chosen virtual node is on the ring and no ring node is met before it walking clockwise from the key; there is none only for an empty ring |
| ConsistentHash.RouteIsClockwiseMinimum | client/src/test/java/org/apache/rocketmq/client/consumer/rebalance/AllocateMessageQueueConsitentHashTest.java:111 | with distinct positions the clockwise-first node is chosen whatever the order of the ring's nodes |
| ConsistentHash.Owner | client/src/test/java/org/apache/rocketmq/client/consumer/rebalance/AllocateMessageQueueConsitentHashTest.java:110-111 | every queue has an owner exactly when there is a consumer, and the owner is one of the listed consumers |
| ConsistentHash.OwnedBy | client/src/test/java/org/apache/rocketmq/client/consumer/rebalance/AllocateMessageQueueConsitentHashTest.java:126-131 | a queue is selected exactly when it is in the list and owned by the consumer |
| ConsistentHash.Allocate | client/src/test/java/org/apache/rocketmq/client/consumer/rebalance/AllocateMessageQueueConsitentHashTest.java:55-84 | it fails exactly for an empty current id or a null or empty queue or consumer list; an unknown consumer gets no queue; otherwise it gets exactly the queues it owns |
| ConsistentHash.AllocationPartitionsQueues | client/src/test/java/org/apache/rocketmq/client/consumer/rebalance/AllocateMessageQueueConsitentHashTest.java:126-136 | every queue is in its owner's allocation, and whatever a listed consumer is allocated is a listed queue that it owns |
| ConsistentHash.OwnerDependsOnConsumerSetOnly | client/src/test/java/org/apache/rocketmq/client/consumer/rebalance/AllocateMessageQueueConsitentHashTest.java:140-157 | with distinct positions the owner of a queue is the same for any two consumer lists with the same members |
| ConsistentHash.AfterRemove | client/src/test/java/org/apache/rocketmq/client/consumer/rebalance/AllocateMessageQueueConsitentHashTest.java:207-217 | after removing one consumer every queue it did not own keeps its owner (`verifyAfterRemove` holds) |
| ConsistentHash.AfterAdd | client/src/test/java/org/apache/rocketmq/client/consumer/rebalance/AllocateMessageQueueConsitentHashTest.java:219-231 | after adding one consumer every queue not given to it has the owner it had before (`verifyAfterAdd` holds) |
| ConsistentHash.PartialAssignmentStep | client/src/test/java/org/apache/rocketmq/client/consumer/rebalance/AllocateMessageQueueConsitentHashTest.java:127-131 | asking one more consumer adds exactly its queues to the map, and the collected list keeps the map's keys |
| ConsistentHash.AskConsumer | client/src/test/java/org/apache/rocketmq/client/consumer/rebalance/AllocateMessageQueueConsitentHashTest.java:126-133 | one loop iteration fails exactly on an empty consumer id or an empty queue list, and otherwise advances the map to the first i+1 consumers |
| ConsistentHash.RoundComplete | client/src/test/java/org/apache/rocketmq/client/consumer/rebalance/AllocateMessageQueueConsitentHashTest.java:199-205 | once every consumer was asked the map is the whole assignment and `verifyAllocateAll` holds |
| ConsistentHash.AllocateRound | client/src/test/java/org/apache/rocketmq/client/consumer/rebalance/AllocateMessageQueueConsitentHashTest.java:119-137 | a round over any consumer list fails exactly when some id is empty or the queue list is empty; otherwise the collected queues and the queue list contain each other, nothing is collected without consumers, and the map sends each queue to its owner |
| LocalFileOffsetStore.OffsetRead.ToLong | client/src/main/java/org/apache/rocketmq/client/consumer/store/LocalFileOffsetStore.java:97-131 | a hit gives its offset and every other outcome gives the sentinel -1 |
| LocalFileOffsetStore.ReadLocalOffsetBak | client/src/main/java/org/apache/rocketmq/client/consumer/store/LocalFileOffsetStore.java:209-230 | it throws exactly for an unparsable `.bak`, gives null exactly for a missing, empty or null-table file, and otherwise the file's table |
| LocalFileOffsetStore.ReadLocalOffset | client/src/main/java/org/apache/rocketmq/client/consumer/store/LocalFileOffsetStore.java:186-207 | a parsable primary file wins; anything else falls back to the `.bak` file, so the read can fail only when the primary is unusable and the `.bak` is unparsable |
| LocalFileOffsetStore.Load | client/src/main/java/org/apache/rocketmq/client/consumer/store/LocalFileOffsetStore.java:63-76 | load fails exactly when the read fails; a snapshot's entries are added with the snapshot's values winning and all other entries kept; no snapshot leaves the store as it was |
| LocalFileOffsetStore.UpdateOffset | client/src/main/java/org/apache/rocketmq/client/consumer/store/LocalFileOffsetStore.java:79-94 | a null queue changes nothing; the queue becomes a key; an absent queue or a plain update stores exactly the offset; every other entry is unchanged |
| LocalFileOffsetStore.ReadFromFile | client/src/main/java/org/apache/rocketmq/client/consumer/store/LocalFileOffsetStore.java:109-124 | a read error gives an error and leaves the store; a hit is exactly the snapshot's value for the queue and is written to memory; a miss leaves the store |
| LocalFileOffsetStore.ReadOffset | client/src/main/java/org/apache/rocketmq/client/consumer/store/LocalFileOffsetStore.java:97-131 | a null queue is not found; a memory read reports a hit exactly when memory holds the queue and never changes the store; a memory-first read of a held queue returns its stored value; a store read, and a memory-first read of a queue memory lacks, is exactly the file read (a hit returned and cached, -1 on a miss or an error) |
| LocalFileOffsetStore.MemoryFirstThenStoreFallsThrough | client/src/main/java/org/apache/rocketmq/client/consumer/store/LocalFileOffsetStore.java:100-109 | memory-first is a memory read when memory holds the queue and a store read otherwise |
| LocalFileOffsetStore.UpdateThenReadFromMemory | client/src/main/java/org/apache/rocketmq/client/consumer/store/LocalFileOffsetStore.java:79-107 | after a plain update a memory read returns exactly the written offset |
| LocalFileOffsetStore.StoreHitIsCached | client/src/main/java/org/apache/rocketmq/client/consumer/store/LocalFileOffsetStore.java:117-122 | after a store hit the next memory read returns the same offset |
| LocalFileOffsetStore.CloneOffsetTable | client/src/main/java/org/apache/rocketmq/client/consumer/store/LocalFileOffsetStore.java:173-184 | a blank topic clones the whole table; otherwise the keys are exactly the queues of that topic; every cloned value is the table's |
| LocalFileOffsetStore.ClonesOfDistinctTopicsAreDisjoint | client/src/main/java/org/apache/rocketmq/client/consumer/store/LocalFileOffsetStore.java:173-184 | clones of two different topics share no queue and are both inside the full clone |
| LocalFileOffsetStore.PersistAll | client/src/main/java/org/apache/rocketmq/client/consumer/store/LocalFileOffsetStore.java:134-145 | nothing is written exactly for a null or empty set; otherwise the snapshot's keys are the table's keys in the set, with the table's values |
| LocalFileOffsetStore.PersistThenLoad | client/src/main/java/org/apache/rocketmq/client/consumer/store/LocalFileOffsetStore.java:134-155 | loading a persisted snapshot into an empty table restores exactly the persisted entries |
| AclUtils.CombineBytesAsWritten | acl/src/main/java/org/apache/rocketmq/acl/common/AclUtils.java:56-66 | the code as written throws exactly when the first array is null and the second is not; otherwise it returns the two arrays' bytes in order, null counting as empty |
| AclUtils.CombineBytesNullFirstThrows | acl/src/main/java/org/apache/rocketmq/acl/common/AclUtils.java:62-64 | `combineBytes(null, {1, 2})` throws, although its computed size is 2 |
| AclUtils.CombineBytes | acl/src/main/java/org/apache/rocketmq/acl/common/AclUtils.java:56-66 | the length is the sum of the lengths, null counting as 0; the first part is `b1`'s bytes and the rest is `b2`'s |
| AclUtils.CombineBytesAgreesUnlessNullFirst | acl/src/main/java/org/apache/rocketmq/acl/common/AclUtils.java:56-66 | wherever the code as written does not throw, it returns the corrected result |
| AclUtils.BuildSignedContent | acl/src/main/java/org/apache/rocketmq/acl/common/AclUtils.java:47-48 | appending each entry's value in turn, skipping the signature entry, builds exactly the signed content |
| AclUtils.SignedContentAppend | acl/src/main/java/org/apache/rocketmq/acl/common/AclUtils.java:47-48 | assembling the signed content of a concatenated field list concatenates the two contents |
| AclUtils.SignatureValueIgnored | acl/src/main/java/org/apache/rocketmq/acl/common/AclUtils.java:48 | replacing the value of the signature entry never changes the signed content |
| AclUtils.CombineRequestContent | acl/src/main/java/org/apache/rocketmq/acl/common/AclUtils.java:45-54 | the result is the encoded signed content followed by the request body, null counting as empty |
| AclUtils.IsScopeToken | acl/src/main/java/org/apache/rocketmq/acl/common/AclUtils.java:111-117 | it throws exactly when the trimmed text is not an `int`, and it is true exactly when that number lies in 0..255 |
| AclUtils.IsScopeFrom | acl/src/main/java/org/apache/rocketmq/acl/common/AclUtils.java:102-107 | the loop is true exactly when every token it reaches is an octet; false exactly when the first non-octet token parses but lies outside 0..255; an exception exactly when the first non-octet token is missing or not a number |
| AclUtils.IsScopeTokens | acl/src/main/java/org/apache/rocketmq/acl/common/AclUtils.java:98-109 | `isScope(String[], index)` is true exactly when each of the first `index` tokens exists and is an octet; false exactly when the first token that is not an octet parses out of range; an exception exactly when that token is past the array or not a number; a non-positive index gives true |
| AclUtils.IsScopeInt | acl/src/main/java/org/apache/rocketmq/acl/common/AclUtils.java:115-117 | an octet is exactly a value that truncation to 8 bits leaves unchanged |
| AclUtils.IsScopeAddress | acl/src/main/java/org/apache/rocketmq/acl/common/AclUtils.java:89-96 | it is false unless splitting on '.' gives four tokens, and otherwise it is the token check |
| AclUtils.Verify | acl/src/main/java/org/apache/rocketmq/acl/common/AclUtils.java:73-77 | `verify` passes exactly when `isScope` is true and throws the scope exception when it is false |
| AclUtils.OctetTokenInScope | acl/src/main/java/org/apache/rocketmq/acl/common/AclUtils.java:111-117 | the decimal text of every number in 0..255 is a non-empty, dot-free token that `isScope(String)` accepts |
| AclUtils.OctetTokensInScope | acl/src/main/java/org/apache/rocketmq/acl/common/AclUtils.java:98-109 | tokens that are all octets pass the array check for any index up to their number |
| AclUtils.DottedQuadVerifies | acl/src/main/java/org/apache/rocketmq/acl/common/AclUtils.java:73-109 | every address written as four in-range octets passes `verify` for any index up to 4 |
| AclUtils.GetAddressStrArray | acl/src/main/java/org/apache/rocketmq/acl/common/AclUtils.java:79-87 | one string per ',' token of the inner text of `four`, each the address text before '{' followed by that token |
| AclUtils.ExpandAlternatives | acl/src/main/java/org/apache/rocketmq/acl/common/AclUtils.java:79-87 | `prefix{a,b,...}` expands to `prefix` followed by each alternative, in order |
| AclUtils.IsAsterisk | acl/src/main/java/org/apache/rocketmq/acl/common/AclUtils.java:119-121 | true exactly for a non-null text containing '*' |
| AclUtils.IsColon | acl/src/main/java/org/apache/rocketmq/acl/common/AclUtils.java:123-125 | true exactly for a non-null text containing ',' |
| AclUtils.IsMinus | acl/src/main/java/org/apache/rocketmq/acl/common/AclUtils.java:127-130 | true exactly for a non-null text containing '-' |
| LoggingLevel.Level.Equals | logging/src/main/java/org/apache/rocketmq/logging/inner/Level.java:111-119 | two levels are equal exactly when their numbers are equal |
| LoggingLevel.Level.IsGreaterOrEqual | logging/src/main/java/org/apache/rocketmq/logging/inner/Level.java:129-131 | true exactly when the level's number is at least the other's |
| LoggingLevel.ToLevelInt | logging/src/main/java/org/apache/rocketmq/logging/inner/Level.java:61-78 | each of the six constants' numbers gives that constant, and any other number gives the default |
| LoggingLevel.ToLevelString | logging/src/main/java/org/apache/rocketmq/logging/inner/Level.java:80-109 | null gives the default; otherwise a constant whose name equals the upper-cased text, and the default when none does |
| LoggingLevel.ToLevelIntOrDebug | logging/src/main/java/org/apache/rocketmq/logging/inner/Level.java:57-59 | a predefined number gives its constant, an unknown number gives DEBUG, and the result is always one of the six constants |
| LoggingLevel.ToLevelStringOrDebug | logging/src/main/java/org/apache/rocketmq/logging/inner/Level.java:53-55 | null gives DEBUG, a name matching a constant's upper-cased gives that constant, any other name gives DEBUG, and the result is always one of the six constants |
| LoggingLevel.Level.ToInt | logging/src/main/java/org/apache/rocketmq/logging/inner/Level.java:138-140 | the number of a predefined level leads `toLevel(int)` back to that level |
| LoggingLevel.Level.ToString | logging/src/main/java/org/apache/rocketmq/logging/inner/Level.java:134-136 | the name of a predefined level leads `toLevel(String)` back to that level |
| LoggingLevel.StandardRoundTrips | logging/src/main/java/org/apache/rocketmq/logging/inner/Level.java:61-109 | every constant is found again from its `toInt` and from its `toString`, whatever the default |
| LoggingLevel.ToLevelStringIgnoresCase | logging/src/main/java/org/apache/rocketmq/logging/inner/Level.java:84 | a name and its upper-cased form give the same level |
| LoggingLevel.StandardLevelsDistinct | logging/src/main/java/org/apache/rocketmq/logging/inner/Level.java:24-41 | the six constants are equal under `equals` only to themselves |
| LoggingLevel.IsGreaterOrEqualTotalPreorder | logging/src/main/java/org/apache/rocketmq/logging/inner/Level.java:129-131 | `isGreaterOrEqual` is reflexive, total and transitive, and holding both ways is `equals` |
| LoggingLevel.SeverityChain | logging/src/main/java/org/apache/rocketmq/logging/inner/Level.java:24-41 | OFF, ERROR, WARN, INFO, DEBUG and ALL are each at least as severe as the next, and every `int` level lies between ALL and OFF |
| LoggingLevel.Level.HashCodeAsWritten | logging/src/main/java/org/apache/rocketmq/logging/inner/Level.java:121-127 | the written hash is an `int` |
| LoggingLevel.HashCodeAsWrittenBreaksEquals | logging/src/main/java/org/apache/rocketmq/logging/inner/Level.java:111-127 | INFO and a copy with another syslog value are equal under `equals` but have different written hash codes |
| LoggingLevel.Level.HashCode | logging/src/main/java/org/apache/rocketmq/logging/inner/Level.java:121-127 | the corrected hash of an `int` level is its number |
| LoggingLevel.HashCodeAgreesWithEquals | logging/src/main/java/org/apache/rocketmq/logging/inner/Level.java:111-127 | the corrected hash codes of two levels are equal exactly when `equals` holds |
| Paths.SplitLast | store/src/main/java/org/apache/rocketmq/store/config/StorePathConfigHelper.java:23-24 | a path splits exactly when it contains the separator, into a parent and a separator-free last component that join back to the path |
| Paths.SplitLastJoin | store/src/main/java/org/apache/rocketmq/store/config/StorePathConfigHelper.java:23-24 | splitting `dir + separator + leaf` gives back `dir` and a separator-free `leaf` |
| Paths.FileUnder | store/src/main/java/org/apache/rocketmq/store/config/StorePathConfigHelper.java:23-24 | `dir + separator + name` has parent `dir` and last component `name` |
| Paths.NestedPath | store/src/main/java/org/apache/rocketmq/store/config/StorePathConfigHelper.java:47-50 | `root + separator + dir + separator + leaf` is `leaf` in `dir` in the root's text |
| Paths.NestedPathInjective | store/src/main/java/org/apache/rocketmq/store/config/StorePathConfigHelper.java:47-60 | two roots give the same nested path exactly when they are appended as the same text |
| StorePathConfigHelper.TopLevelPath | store/src/main/java/org/apache/rocketmq/store/config/StorePathConfigHelper.java:23-45 | each top-level path has the root's text as parent and the file's fixed name as last component |
| StorePathConfigHelper.StorePathConsumeQueue | store/src/main/java/org/apache/rocketmq/store/config/StorePathConfigHelper.java:23-25 | the path is `consumequeue` directly in the root |
| StorePathConfigHelper.StorePathConsumeQueueExt | store/src/main/java/org/apache/rocketmq/store/config/StorePathConfigHelper.java:27-29 | the path is `consumequeue_ext` directly in the root |
| StorePathConfigHelper.StorePathIndex | store/src/main/java/org/apache/rocketmq/store/config/StorePathConfigHelper.java:31-33 | the path is `index` directly in the root |
| StorePathConfigHelper.StoreCheckpoint | store/src/main/java/org/apache/rocketmq/store/config/StorePathConfigHelper.java:35-37 | the path is `checkpoint` directly in the root |
| StorePathConfigHelper.AbortFile | store/src/main/java/org/apache/rocketmq/store/config/StorePathConfigHelper.java:39-41 | the path is `abort` directly in the root |
| StorePathConfigHelper.LockFile | store/src/main/java/org/apache/rocketmq/store/config/StorePathConfigHelper.java:43-45 | the path is `lock` directly in the root |
| StorePathConfigHelper.DelayOffsetStorePath | store/src/main/java/org/apache/rocketmq/store/config/StorePathConfigHelper.java:47-50 | the path is `delayOffset.json` in `config` in the root |
| StorePathConfigHelper.TranStateTableStorePath | store/src/main/java/org/apache/rocketmq/store/config/StorePathConfigHelper.java:52-55 | the path is `statetable` in `transaction` in the root |
| StorePathConfigHelper.TranRedoLogStorePath | store/src/main/java/org/apache/rocketmq/store/config/StorePathConfigHelper.java:57-60 | the path is `redolog` in `transaction` in the root |
| StorePathConfigHelper.TopLevelPathsDistinct | store/src/main/java/org/apache/rocketmq/store/config/StorePathConfigHelper.java:23-45 | for one root two top-level paths are equal exactly when they are for the same file |
| StorePathConfigHelper.TopLevelPathInjective | store/src/main/java/org/apache/rocketmq/store/config/StorePathConfigHelper.java:23-45 | each top-level path determines the root's text |
| StorePathConfigHelper.TransactionPathsShareParent | store/src/main/java/org/apache/rocketmq/store/config/StorePathConfigHelper.java:52-60 | the state table and the redo log have the same parent and different last components |
| BrokerPathConfigHelper.DefaultConfigDir | broker/src/main/java/org/apache/rocketmq/broker/BrokerPathConfigHelper.java:23-24 | the directory is `config` in `store` in the home directory's text |
| BrokerPathConfigHelper.DefaultBrokerConfigPath | broker/src/main/java/org/apache/rocketmq/broker/BrokerPathConfigHelper.java:23-24 | the default path is `broker.properties` in `home/store/config` |
| BrokerPathConfigHelper.Initial | broker/src/main/java/org/apache/rocketmq/broker/BrokerPathConfigHelper.java:23-28 | before any set, the getter returns the default path |
| BrokerPathConfigHelper.GetBrokerConfigPath | broker/src/main/java/org/apache/rocketmq/broker/BrokerPathConfigHelper.java:26-28 | the value read is the class's whole static state, so storing it back changes nothing |
| BrokerPathConfigHelper.SetBrokerConfigPath | broker/src/main/java/org/apache/rocketmq/broker/BrokerPathConfigHelper.java:26-32 | after a set, the getter returns exactly the value set, null included |
| BrokerPathConfigHelper.ConfigPath | broker/src/main/java/org/apache/rocketmq/broker/BrokerPathConfigHelper.java:34-52 | each config path is the file's name in `config` in the root and starts with `root + separator + config + separator` |
| BrokerPathConfigHelper.TopicConfigPath | broker/src/main/java/org/apache/rocketmq/broker/BrokerPathConfigHelper.java:34-37 | the path is `topics.json` in `config` in the root |
| BrokerPathConfigHelper.ConsumerOffsetPath | broker/src/main/java/org/apache/rocketmq/broker/BrokerPathConfigHelper.java:39-42 | the path is `consumerOffset.json` in `config` in the root |
| BrokerPathConfigHelper.SubscriptionGroupPath | broker/src/main/java/org/apache/rocketmq/broker/BrokerPathConfigHelper.java:44-47 | the path is `subscriptionGroup.json` in `config` in the root |
| BrokerPathConfigHelper.ConsumerFilterPath | broker/src/main/java/org/apache/rocketmq/broker/BrokerPathConfigHelper.java:49-52 | the path is `consumerFilter.json` in `config` in the root |
| BrokerPathConfigHelper.ConfigPathsDistinct | broker/src/main/java/org/apache/rocketmq/broker/BrokerPathConfigHelper.java:34-52 | for one root two config paths are equal exactly when they are for the same file |
| BrokerPathConfigHelper.ConfigPathInjective | broker/src/main/java/org/apache/rocketmq/broker/BrokerPathConfigHelper.java:34-52 | each config path determines the root's text |
| TestUtil.ParseStringToLong | test/src/main/java/org/apache/rocketmq/test/util/TestUtil.java:38-47 | a parsable `long` gives its value, anything else gives the default; a non-default result comes from a well-formed numeral in the 64-bit range |
| TestUtil.ParseStringToInteger | test/src/main/java/org/apache/rocketmq/test/util/TestUtil.java:49-58 | the same with the 32-bit range |
| TestUtil.ParseStringRoundTrips | test/src/main/java/org/apache/rocketmq/test/util/TestUtil.java:38-58 | every value in range is read back from its decimal text, and 2^31 falls back to the default in the `int` parser |
| TestUtil.AddQuoteToParameter | test/src/main/java/org/apache/rocketmq/test/util/TestUtil.java:60-64 | two characters longer than the parameter's text, with a quote at each end and the text in between |
| TestUtil.Unquote | test/src/main/java/org/apache/rocketmq/test/util/TestUtil.java:60-64 | the inverse: defined exactly on texts with a quote at each end |
| TestUtil.UnquoteAddQuote | test/src/main/java/org/apache/rocketmq/test/util/TestUtil.java:60-64 | unquoting a quoted parameter gives back its text |
| TestUtil.Insert | test/src/main/java/org/apache/rocketmq/test/util/TestUtil.java:115-120 | inserting into a sorted list keeps it sorted and adds exactly the entry |
| TestUtil.InsertWithValue | test/src/main/java/org/apache/rocketmq/test/util/TestUtil.java:114-120 | insertion puts the entry in front of the equal-valued entries and keeps their order |
| TestUtil.SortByValue | test/src/main/java/org/apache/rocketmq/test/util/TestUtil.java:113-125 | the result is sorted by value, a permutation of the entries, and stable: for each value, its entries keep their input order |
| TestUtil.SortByValueKeepsEntries | test/src/main/java/org/apache/rocketmq/test/util/TestUtil.java:113-124 | the sorted map holds exactly the input's key-value pairs |
| DuplicateMessageInfo.MaxListSize | test/src/main/java/org/apache/rocketmq/test/util/DuplicateMessageInfo.java:43-47 | no list is longer, some list has that size, and it is 0 without lists |
| DuplicateMessageInfo.LongestList | test/src/main/java/org/apache/rocketmq/test/util/DuplicateMessageInfo.java:43-47 | the loop computes the longest list's size |
| DuplicateMessageInfo.RowOrdered | test/src/main/java/org/apache/rocketmq/test/util/DuplicateMessageInfo.java:55-56 | the inner loop stays at its position and visits the lists in increasing order |
| DuplicateMessageInfo.VisitsBelowOrdered | test/src/main/java/org/apache/rocketmq/test/util/DuplicateMessageInfo.java:54-56 | position p of every list is visited, in list order, before position p+1 of any list |
| DuplicateMessageInfo.VisitsBelowMembers | test/src/main/java/org/apache/rocketmq/test/util/DuplicateMessageInfo.java:54-56 | the visits below position p are exactly the messages at positions below p, exhausted lists skipped |
| DuplicateMessageInfo.VisitsBelowCount | test/src/main/java/org/apache/rocketmq/test/util/DuplicateMessageInfo.java:54-56 | visiting every position below a bound on the sizes visits as many messages as the lists hold |
| DuplicateMessageInfo.TraversalCoversAll | test/src/main/java/org/apache/rocketmq/test/util/DuplicateMessageInfo.java:54-56 | the traversal has the total number of visits, visits exactly the messages of the lists, and is in position-major order |
| DuplicateMessageInfo.Step | test/src/main/java/org/apache/rocketmq/test/util/DuplicateMessageInfo.java:57-71 | one visit never changes a first-seen entry and adds its message to the first-seen keys |
| DuplicateMessageInfo.ScanKeys | test/src/main/java/org/apache/rocketmq/test/util/DuplicateMessageInfo.java:57-71 | the first-seen map holds exactly the messages met so far |
| DuplicateMessageInfo.ScanFirstSeen | test/src/main/java/org/apache/rocketmq/test/util/DuplicateMessageInfo.java:69-71 | the first-seen map records the list of a message's first sighting, and later sightings never overwrite it |
| DuplicateMessageInfo.ScanDuplicates | test/src/main/java/org/apache/rocketmq/test/util/DuplicateMessageInfo.java:57-68 | a list's duplicate count is the number of its visits that meet a message met earlier, and only lists with a duplicate have an entry |
| DuplicateMessageInfo.StepBalance | test/src/main/java/org/apache/rocketmq/test/util/DuplicateMessageInfo.java:57-71 | a visit adds one to either the duplicates or the distinct messages |
| DuplicateMessageInfo.ScanBalance | test/src/main/java/org/apache/rocketmq/test/util/DuplicateMessageInfo.java:76-78 | every visit is either a first sighting or a counted duplicate |
| DuplicateMessageInfo.StepRowIsScan | test/src/main/java/org/apache/rocketmq/test/util/DuplicateMessageInfo.java:55-73 | the inner loop over one position continues the scan of the traversal |
| DuplicateMessageInfo.ScanNextVisit | test/src/main/java/org/apache/rocketmq/test/util/DuplicateMessageInfo.java:56-72 | one more visit to a list that is long enough is one step of the scan |
| DuplicateMessageInfo.ScanPosition | test/src/main/java/org/apache/rocketmq/test/util/DuplicateMessageInfo.java:55-73 | the inner loop takes the maps of the traversal below a position to those below the next position |
| DuplicateMessageInfo.TraversalMessages | test/src/main/java/org/apache/rocketmq/test/util/DuplicateMessageInfo.java:54-74 | the traversal meets exactly the received messages, and only in real lists |
| DuplicateMessageInfo.TraversalTallyMeaning | test/src/main/java/org/apache/rocketmq/test/util/DuplicateMessageInfo.java:76-78 | after the traversal every received message is a first-seen key, duplicates are booked on real lists only, and total minus duplicates is the number of distinct messages |
| DuplicateMessageInfo.CheckDuplicatedMessageInfo | test/src/main/java/org/apache/rocketmq/test/util/DuplicateMessageInfo.java:36-78 | the nested loops build the maps of the traversal; the first-seen keys are the received messages, and `msgNoDupNum` (with the corrected duplicate count) is the number of distinct messages |
| DuplicateMessageInfo.GetMsgTotalNumber | test/src/main/java/org/apache/rocketmq/test/util/DuplicateMessageInfo.java:123-129 | the total is the number of messages the traversal visits |
| DuplicateMessageInfo.GetDuplicateMsgNumAsWritten | test/src/main/java/org/apache/rocketmq/test/util/DuplicateMessageInfo.java:131-137 | the code as written succeeds exactly when keys 0..size-1 are all present, and then sums them |
| DuplicateMessageInfo.SumKeysBelow | test/src/main/java/org/apache/rocketmq/test/util/DuplicateMessageInfo.java:133-135 | the loop over its first n keys succeeds exactly when they are all present, and then sums them |
| DuplicateMessageInfo.GetDuplicateMsgNum | test/src/main/java/org/apache/rocketmq/test/util/DuplicateMessageInfo.java:131-137 | the corrected count sums every list's duplicates, absent lists counting 0; for a map of positive counts on real lists it is 0 exactly when the map is empty |
| DuplicateMessageInfo.SumBelowPositive | test/src/main/java/org/apache/rocketmq/test/util/DuplicateMessageInfo.java:131-137 | positive counts sum to 0 exactly when no list below n has an entry |
| DuplicateMessageInfo.AsWrittenAgreesWhenDense | test/src/main/java/org/apache/rocketmq/test/util/DuplicateMessageInfo.java:131-137 | when the keys are exactly 0..size-1 the code as written gives the corrected count |
| DuplicateMessageInfo.DuplicateInSecondListOnly | test/src/main/java/org/apache/rocketmq/test/util/DuplicateMessageInfo.java:131-137 | two lists holding the same one message book the duplicate on list 1 only; the code as written fails on the missing key 0, and the corrected count is 1 |
| PrintMessageByQueue.CountTags | tools/src/main/java/org/apache/rocketmq/tools/command/message/PrintMessageByQueueCommand.java:66-75 | a tag has a counter exactly when it had one or is a non-blank tag of the batch; each counter grows by its tag's occurrences in the batch, and blank tags' counters do not move |
| PrintMessageByQueue.CalculateByTag | tools/src/main/java/org/apache/rocketmq/tools/command/message/PrintMessageByQueueCommand.java:60-76 | with `calByTag` false the map is unchanged; otherwise the counters are as for `CountTags` |
| PrintMessageByQueue.BlankTagsNeverCounted | tools/src/main/java/org/apache/rocketmq/tools/command/message/PrintMessageByQueueCommand.java:67 | a blank tag never gets a counter, and an existing counter for it never changes |
| PrintMessageByQueue.CalculateByTagConcat | tools/src/main/java/org/apache/rocketmq/tools/command/message/PrintMessageByQueueCommand.java:60-76 | counting two batches one after the other equals counting them together |
| PrintMessageByQueue.TagCountBean.CompareToAsWritten | tools/src/main/java/org/apache/rocketmq/tools/command/message/PrintMessageByQueueCommand.java:252-255 | the written comparison is an `int`, and it is the count difference whenever that fits in an `int` |
| PrintMessageByQueue.TagCountBean.CompareTo | tools/src/main/java/org/apache/rocketmq/tools/command/message/PrintMessageByQueueCommand.java:252-255 | the corrected comparison is -1, 0 or 1 |
| PrintMessageByQueue.CompareToIsDescendingCount | tools/src/main/java/org/apache/rocketmq/tools/command/message/PrintMessageByQueueCommand.java:252-255 | the corrected comparison is negative, zero or positive exactly when the count is larger, equal or smaller; it is antisymmetric and transitive |
| PrintMessageByQueue.CompareToAsWrittenAgreesWhenClose | tools/src/main/java/org/apache/rocketmq/tools/command/message/PrintMessageByQueueCommand.java:252-255 | while two counts are less than 2^31 apart the written comparison has the sign of the corrected one |
| PrintMessageByQueue.CompareToAsWrittenMisorders | tools/src/main/java/org/apache/rocketmq/tools/command/message/PrintMessageByQueueCommand.java:252-255 | a tag counted 0 times is sorted before one counted 2^31 times by the written comparison, against the corrected one |
| PrintMessageByQueue.CountFoundCountsFoundTags | tools/src/main/java/org/apache/rocketmq/tools/command/message/PrintMessageByQueueCommand.java:203-212 | the counters after the loop are the tag statistics of exactly the messages in FOUND results |
| PrintMessageByQueue.ReadQueue | tools/src/main/java/org/apache/rocketmq/tools/command/message/PrintMessageByQueueCommand.java:197-217 | every pull happens at an offset below the maximum, the offset is always the last result's next offset, all pulls but the last were FOUND, the loop ends on reaching the maximum, a non-FOUND status or an exception, and the counters count exactly the FOUND batches |

## Left out

- The broker's commit log, dispatch and replication (high availability): their code is not part of this model.
- `AllocateMessageQueueConsistentHash` and its hash function are not part of this model. Positions are uninterpreted, and the churn lemmas assume distinct virtual-node positions; behaviour under hash collisions is not claimed.
- The consumer-group argument of `allocate` is only logged and is not modelled.
- ConsistentHash.Allocate: the empty-list rejections follow the strategy's design; the test shows only the null lists.
- Logging, printing and the `D:` report file: `printCalculateByTag`, `printMessage`, the report lines and the float rates of `DuplicateMessageInfo`, and `getFloatNumString`. These are I/O or floating point.
- `printCalculateByTag` sorts with the library's `Collections.sort`. Only the comparison it uses is modelled.
- In `PrintMessageByQueueCommand`: option parsing, `timestampFormat`, `searchOffset`, and the consumer start and shutdown. These are I/O and network calls; `minOffset` and `maxOffset` are parameters.
- PrintMessageByQueue.ReadQueue: the broker's answers are a finite list. The exit `OutOfAnswers`, when the list runs out, belongs to the model and not to the command.
- PrintMessageByQueue.CountTags: the `AtomicLong` counters are unbounded integers. A counter that passes 2^63 increments is not wrapped.
- `LocalFileOffsetStore`: file and JSON I/O are not modelled. Each file is the abstract outcome of reading and parsing it.
- The store directory constants of `LocalFileOffsetStore` come from system properties and are not modelled.
- `persist`, `removeOffset` and `updateConsumeOffsetToBroker` of `LocalFileOffsetStore` have empty bodies and are not modelled.
- `LocalFileOffsetStore` concurrency (`ConcurrentHashMap`, `AtomicLong`) is modelled sequentially, so `putIfAbsent` on an absent key always inserts.
- LocalFileOffsetStore.UpdateOffset: `compareAndIncreaseOnly` is not part of this model. The `increaseOnly` update of an existing entry is the parameter `increase(old, offset)`, and nothing is claimed about its value.
- AclUtils.CombineRequestContent: the charset conversion is the parameter `encode`. The sorted field map is given as its entries in key order, and the signature key name is a parameter.
- `AclUtils`: `calSignature` (HMAC in an unseen signer), the YAML read and write, and `getAclRPCHook` are not modelled; they are cryptography and file I/O.
- AclUtils.IsScopeAddress: a null address is not modelled; it throws in the code.
- LoggingLevel.StringHash: hashes the name's Unicode scalar values, where Java hashes UTF-16 code units, so a name with a character above U+FFFF hashes differently; the six names are ASCII.
- AclUtils.GetAddressStrArray: a null `four` or `netaddress` is not modelled.
- `JavaNumbers`: only ASCII digits are accepted. `Integer.parseInt` also accepts other Unicode decimal digits.
- LoggingLevel.ToLevelString: upper-casing is ASCII-only. `String.toUpperCase` is locale- and Unicode-dependent.
- The dead second INFO test in `toLevel(String, Level)` is kept as written.
- LoggingLevel.Level.Equals: the argument is always a `Level`. The `instanceof` failure case returns false in the code and is not modelled.
- LoggingLevel.Level.HashCodeAsWritten: the name is never null, so the `levelStr != null` test is not modelled.
- Java serialization of `Level` is not modelled.
- `TestUtil`: the sleep helpers and `waitForInput` are not modelled; they are timing and standard-input I/O.
- TestUtil.SortByValue: values are integers rather than any `Comparable`. Map iteration order is the input sequence.
- Paths: the separator is restricted to '/' or '\'. Leaf names are letters, digits, '_' and '.'.
- A null root is appended as the text "null". Path results are stated about that text.

## Findings

| source | as written | input that shows it | evidently intended | confidence | as-written member | corrected member |
|---|---|---|---|---|---|---|
| acl/src/main/java/org/apache/rocketmq/acl/common/AclUtils.java:56-66 | the size counts a null array as empty, but the second copy offsets by `b1.length` | `combineBytes(null, {1, 2})` throws `NullPointerException` | a null first array counts as empty, giving `{1, 2}` | high, not executed | AclUtils.CombineBytesNullFirstThrows | AclUtils.CombineBytes |
| test/src/main/java/org/apache/rocketmq/test/util/DuplicateMessageInfo.java:131-137 | sums `msgDupMap.get(i)` for `i` below the map's size, unboxing each | lists `[[m], [m]]`: the map is `{1: 1}` and `get(0)` is null | the duplicates of every list, a list without duplicates counting 0 | high, not executed | DuplicateMessageInfo.DuplicateInSecondListOnly | DuplicateMessageInfo.GetDuplicateMsgNum |
| tools/src/main/java/org/apache/rocketmq/tools/command/message/PrintMessageByQueueCommand.java:252-255 | casts the `long` count difference to `int` | counts 0 and 2^31: the difference casts to -2^31 | descending order by count for any counts | medium, not executed | PrintMessageByQueue.CompareToAsWrittenMisorders | PrintMessageByQueue.TagCountBean.CompareTo |
| logging/src/main/java/org/apache/rocketmq/logging/inner/Level.java:111-127 | `equals` compares the number only, while `hashCode` also mixes in the name and syslog value | INFO and a level with number 20000, name "INFO" and syslog 5 | equal levels have equal hash codes | medium, not executed | LoggingLevel.HashCodeAsWrittenBreaksEquals | LoggingLevel.Level.HashCode |
