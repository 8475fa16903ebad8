# sup-epics: translation, context, channels and codec

Four parts of the library that connects sup-dto values to EPICS.

* **PVXS translation.** Three hand-written stack machines stand where one would expect structural
  recursion: the visitor that builds a PVXS type, the visitor that writes a value into shared PVXS storage,
  and the walk that reads a PVXS value back through a composer. Each machine is proved equal to its
  recursive meaning for every input, throws included. For every value it is proved whether the translation
  throws on the way out, throws on the way back, returns `Norm(v)`, or returns something else in silence.
* **The context queue.** A queue, one worker and a halting thread, as an interleaving of atomic steps.
  Conservation, halt drain, wake-ups and progress are proved over all runs.
* **The channel manager.** Ids with wrap-around, callback entries, channels and the lifetime of the context; and
  the threads that compete for its mutex, whose every run uses the queue serially.
* **The Channel Access codec.** Update buffers against the monitor decoder.

On top of the translation sit the RPC call pair and the monitor loop of the PvAccess client.

## How it is modelled

| file | content |
|---|---|
| Results.dfy, Stacks.dfy | outcomes; a throw is an `Err` that says which; sequences as stacks |
| AnyValues.dfy, Composer.dfy | the small part of sup-dto that matters: values, visiting order, composer |
| PvxsData.dfy, PvxsStore.dfy | PVXS types and value trees; shared storage with handles |
| TypeBuilder.dfy | `PvxsTypeBuilder` |
| ValueBuilder.dfy, PvxsValueBuilder.dfy | the value builder as a machine on values, and its objects |
| BuilderThrows.dfy | the value builder on a PVXS value of any type |
| ReverseWalk.dfy | `AnyValueFromPVXSBuilder` |
| Conversion.dfy | decoding, its exact domain, the round trip |
| ContextQueue.dfy, ContextHandle.dfy | the protocol of `CAContextHandle`, and its fields and locked regions |
| ManagerContext.dfy | the threads that call `CAChannelManager`, its mutex and the context they share |
| ChannelManager.dfy | `CAChannelManager` with the channels open in its context |
| ByteFormats.dfy, ChannelCodec.dfy | byte formats and the codec |
| Rpc.dfy, Monitor.dfy | RPC call pair, monitor loop |

A class that the source updates in place is a class here. Its methods are proved against a step function on
values, and the properties are proved about runs of that function. A pvxs::Value is a handle into shared
storage: the fields of one structure share a block, the elements of an array of structures are blocks of
their own that the array refers to. Floating point numbers and characters are the words that encode them.

What the foreign libraries do is an assumption:

* sup-dto: SerializeAnyType and SerializeAnyValue visit in the order that
  test/unit/pvxs_value_builder_tests.cpp:229-262 and :392-410 show; member names are unique in types and
  values; a member may be Empty (the tests of this repository show Empty at top level only); the composer refuses duplicate member names, arrays of mixed types and an array that ends without an
  element; assigning an Empty value to an array element throws; TryConvert of an array to a 16-bit number fails.
* sup-dto formats: ToBytes and FromBytes are two's complement and little-endian (the host's order);
  TypedParseString of a number type accepts an optional minus and decimal digits, leading zeros included;
  ValuesToJSONString prints without spaces and escapes quotes, backslashes and control characters (section 7 of
  RFC 8259: the two-character forms where they exist, otherwise four hexadecimal digits) and nothing else.
* PVXS: a member made from an empty TypeDef is refused; operator[] with an unknown name gives a null value; a
  new value holds zeros, empty strings and empty arrays.
* Channel Access: destroying a context closes its channels; a new channel has an id that no open channel has;
  a failed ca_create_channel leaves the channel id null.

`Norm` turns char8 into uint8 and drops the names of arrays (doc/pv_access_pv.rst:22-25). The same page
says that arrays of structures are not supported; the code and test/unit/anyvalue_to_pvxs_and_back_extended_tests.cpp:49-84
support them, and the model follows the code.

## Where the code does less than one might expect

* A structure member of the Empty type silently takes the PVXS type of the member before it
  (`TypeBuilder.EmptyMemberRepeatsType`). The type builder throws exactly on arrays of arrays or of nothing, and
  on an Empty member that the visit meets first (`TypeBuilder.TypeBuilderThrowsExactly`).
* So a value with Empty members can come back changed and without an error: `{a: 7, b: Empty}` comes back as
  `{a: 7, b: 0}` (`Conversion.EmptyMemberComesBack`). `Conversion.SilentLossExactly` says for which values this
  happens. An RPC reply is replaced in the same way, with no error for the caller (`Rpc.CallOutcomes`,
  `Rpc.EmptyMemberIsReplaced`).
* A structure whose only member is a scalar named `value` comes back from the scalar-aware pair as the bare
  scalar (`Conversion.ScalarAwareRoundTrip`).
* The task of a HandleTask call that races with halting can be left behind, because the check of `halt` and the
  push are two critical sections (`ContextQueue.LatePushIsNeverExecuted`): it is never executed, and its call
  waits until the queue is destroyed. HaltContext is private and called by the destructor only, so the destruction
  of the queue follows the join; a destroyed task breaks its promise and `get` then throws, which is outside the
  model. A queued task can still be executed if and only if
  the worker has not left, has not read `halt` in its last swap and will not read it at its first look
  (`ContextQueue.QueuedRunsExactly`, `ContextQueue.WaitingReturnsExactly`). If `halt` is set before the worker
  first reads it, nothing is executed (`ContextQueue.HaltBeforeStart`). Under the manager's mutex neither
  happens (`ContextQueue.SerialCompletion`, `ManagerContext.CallsHaveRun`).
* After 2^64 - 1 increments the id 0, which also means failure, can be granted
  (`ChannelManager.ZeroIdExactly`, `ChannelManager.ZeroIdRun`).
* A channel whose clear fails stays open with callbacks that point to an erased entry, for as long as other
  entries keep the context (`ChannelManager.CallbacksAreLiveExactly`, `ChannelManager.DeadCallbackRun`).
* Arrays of one element whose slots are text or enums are encoded by the branch for scalars. None of them comes
  back as it was, but for the array of one particular string of 40 bytes that equals its own JSON text as far as
  the slot shows it (`ChannelCodec.SurvivesExactly`, `ChannelCodec.OwnQuoteExactly`).
* A monitored boolean array of size zero is decoded as one scalar boolean, from a byte that belongs to no received
  element (`ChannelCodec.EmptyBooleanArray`, `ChannelCodec.ReadsReceivedBytesOnlyExactly`).
* An incompatible update makes ProcessMonitor throw away the earlier events of the same call as well, so there the
  split into calls matters (`Monitor.ThrowLosesItsCall`).

## Model

| member | source | states |
|---|---|---|
| TypeBuilder.MachineBuilds | src/lib/sup/epics/utils/pvxs_type_builder.cpp:79-163 | for every type and every starting stack, the visit restores the stack and the mode flag and leaves exactly the recursively built definition, or throws what that throws; this includes structures nested in StructA |
| TypeBuilder.MachineBuildsMembers | src/lib/sup/epics/utils/pvxs_type_builder.cpp:116-128 | members are appended, in order, to the structure on top, plain or StructA, and to nothing else |
| TypeBuilder.TypeBuilderIsRightExactly | src/lib/sup/epics/utils/dto_conversion_utils.cpp:45-50 | BuildPVXSType gives the structural translation if and only if the type is Empty or has no Empty member and no array of arrays or of nothing |
| TypeBuilder.TypeBuilderThrowsExactly | src/lib/sup/epics/utils/pvxs_type_builder.cpp:69-163 | for every type BuildPVXSType throws if and only if some array's element type is an array or Empty, or the visit meets an Empty member before anything that leaves a definition |
| TypeBuilder.BuildChecksArrays | src/lib/sup/epics/utils/dto_typecode_conversion_utils.cpp:125-130 | a bad array at any depth makes the builder throw, whatever else the type contains |
| TypeBuilder.EmptyMemberRepeatsType | src/lib/sup/epics/utils/pvxs_type_builder.cpp:69-77 | an Empty member at any index gets the definition of the member before it, whatever that is, and as first member the one processed before the structure |
| TypeBuilder.PvxsTypeBuilder.StructProlog | src/lib/sup/epics/utils/pvxs_type_builder.cpp:79-98 | follows the machine: StructA when an array asked for it, a plain structure otherwise |
| TypeBuilder.PvxsTypeBuilder.StructEpilog | src/lib/sup/epics/utils/pvxs_type_builder.cpp:102-114 | follows the machine: pops a plain structure, leaves StructA to the array |
| TypeBuilder.PvxsTypeBuilder.MemberEpilog | src/lib/sup/epics/utils/pvxs_type_builder.cpp:122-128 | follows the machine: appends the last definition under the member's name |
| TypeBuilder.PvxsTypeBuilder.ArrayProlog | src/lib/sup/epics/utils/pvxs_type_builder.cpp:130-143 | follows the machine: raises the mode flag for an array of structures |
| TypeBuilder.PvxsTypeBuilder.ArrayEpilog | src/lib/sup/epics/utils/pvxs_type_builder.cpp:147-153 | follows the machine: the array's definition becomes the last one |
| TypeBuilder.PvxsTypeBuilder.ScalarEpilog | src/lib/sup/epics/utils/pvxs_type_builder.cpp:160-163 | follows the machine |
| TypeBuilder.BuildType | src/lib/sup/epics/utils/dto_conversion_utils.cpp:45-50 | visiting a type with a fresh builder object gives what the machine gives |
| PvxsData.KindsCorrespond | src/lib/sup/epics/utils/dto_typecode_conversion_utils.cpp:43-75 | the type code correspondence is the one that keeps signedness, width and format; the reverse lookup inverts it except for char8 |
| PvxsData.CodesAgree | src/lib/sup/epics/utils/dto_typecode_conversion_utils.cpp:110-130 | the code looked up for an Empty or supported type is the code of its translated type and of its translated values |
| PvxsStore.PutField | src/lib/sup/epics/utils/pvxs_value_builder.cpp:134-139 | writing through the handle of a field is writing the structure with that field replaced, at any depth |
| PvxsStore.DenotesFrame | src/lib/sup/epics/utils/pvxs_value_builder.cpp:66-96 | what a value denotes does not depend on storage it cannot reach, so later writes elsewhere keep it |
| ValueBuilder.MachineWrites | src/lib/sup/epics/utils/pvxs_value_builder.cpp:120-179 | for every well-formed value and every stack with a current slot, the visit restores the stack and leaves the store of the recursive write, or throws what that throws |
| ValueBuilder.MachineWritesItems | src/lib/sup/epics/utils/pvxs_value_builder.cpp:161-164 | the i-th item of an array is written to the i-th allocated element |
| ValueBuilder.ScalarItemsAreSkipped | src/lib/sup/epics/utils/pvxs_value_builder.cpp:173-179 | the items of an array that was assigned as a whole are visited without effect |
| ValueBuilder.WriteIsRight | src/lib/sup/epics/utils/pvxs_value_builder.cpp:120-179 | writing a value to a slot with the layout of its type never throws, makes the slot denote the translation and changes nothing else; Empty parts leave the default of a new slot |
| ValueBuilder.VisitWritesSlot | src/lib/sup/epics/utils/pvxs_value_builder.cpp:120-179 | the two combined: the visit restores the stack, the slot reads back as the translation, which is the structural one if nothing is Empty, and nothing outside it changes |
| ValueBuilder.ItemsStayDetached | src/lib/sup/epics/utils/pvxs_builder_nodes.cpp:99-131 | after the first i structures of an array the j-th of them is in element j, and nothing that existed before has changed: elements become visible only at Freeze |
| ValueBuilder.BuiltValueExactly | src/lib/sup/epics/utils/dto_conversion_utils.cpp:52-57 | for every value BuildPVXSValue throws what the type builder throws, or hits none of the value builder's throws and reads as the translation into the built type |
| ValueBuilder.BuiltValueIsEncoded | src/lib/sup/epics/utils/dto_conversion_utils.cpp:52-57 | for a value of supported type that is the structural translation |
| BuilderThrows.WriteThrowsExactly | src/lib/sup/epics/utils/dto_scalar_conversion_utils.cpp:185-217 | a value can be written to a slot of any type if and only if the type accepts it, member by member name and element by element, scalars in exactly their own type; the slot keeps its type and nothing else changes |
| BuilderThrows.VisitThrowsExactly | src/lib/sup/epics/utils/pvxs_value_builder.cpp:120-179 | the same for the visit by a builder whose current node designates such a slot, or none |
| PvxsValueBuilder.BuilderNode.GetPvxsValueRef | src/lib/sup/epics/utils/pvxs_builder_nodes.cpp:109-116 | the element being filled, or "Out of bounds" |
| PvxsValueBuilder.BuilderNode.ArrayElementSeparator | src/lib/sup/epics/utils/pvxs_builder_nodes.cpp:118-121 | advances the index of an array of structures only; throws on a plain node |
| PvxsValueBuilder.BuilderNode.Freeze | src/lib/sup/epics/utils/pvxs_builder_nodes.cpp:128-131 | assigns the collected elements to the shared value, for arrays of structures only |
| PvxsValueBuilder.AllocateSlots | src/lib/sup/epics/utils/pvxs_builder_nodes.cpp:99-107 | the allocation loop yields one new element per item and throws on anything but an array of structures |
| PvxsValueBuilder.AssignArray | src/lib/sup/epics/utils/dto_scalar_conversion_utils.cpp:201-217 | type checks, then all payloads in order |
| PvxsValueBuilder.CollectItems | src/lib/sup/epics/utils/dto_scalar_conversion_utils.cpp:57-66 | the copy loop keeps every payload in place |
| PvxsValueBuilder.Builder.StructProlog | src/lib/sup/epics/utils/pvxs_value_builder.cpp:120-124 | follows the machine |
| PvxsValueBuilder.Builder.MemberProlog | src/lib/sup/epics/utils/pvxs_value_builder.cpp:134-139 | follows the machine: the node shares the storage of the named field |
| PvxsValueBuilder.Builder.ArrayProlog | src/lib/sup/epics/utils/pvxs_value_builder.cpp:149-159 | follows the machine: whole assignment for scalars, detached elements for structures |
| PvxsValueBuilder.Builder.ArrayElementSeparator | src/lib/sup/epics/utils/pvxs_value_builder.cpp:161-164 | follows the machine and leaves every node below the top as it was |
| PvxsValueBuilder.Builder.ArrayEpilog | src/lib/sup/epics/utils/pvxs_value_builder.cpp:166-171 | follows the machine: freeze, then pop |
| PvxsValueBuilder.Builder.ScalarProlog | src/lib/sup/epics/utils/pvxs_value_builder.cpp:173-179 | follows the machine |
| PvxsValueBuilder.BuildValue | src/lib/sup/epics/utils/dto_conversion_utils.cpp:52-57 | visiting a value with a builder made from its own type gives what the machine gives |
| ReverseWalk.AnyValueFromPvxsBuilder.ProcessStack | src/lib/sup/epics/utils/anyvalue_from_pvxs_builder.cpp:123-152 | terminates with an empty stack, and the composer calls are exactly the recursive traces of the nodes that were on it, children in order; or throws as composing those traces would |
| ReverseWalk.AnyValueFromPvxsBuilder.ProcessNewComposite | src/lib/sup/epics/utils/anyvalue_from_pvxs_builder.cpp:178-196 | calls made plus calls pending stay the same, and the remaining work shrinks |
| ReverseWalk.AnyValueFromPvxsBuilder.ProcessVisitedComposite | src/lib/sup/epics/utils/anyvalue_from_pvxs_builder.cpp:185-202 | the same for a node whose children are done |
| ReverseWalk.AnyValueFromPvxsBuilder.ProcessLeaf | src/lib/sup/epics/utils/anyvalue_from_pvxs_builder.cpp:254-266 | the same for scalars and arrays of scalars, with the throw for union and any arrays |
| ReverseWalk.WithChildren | src/lib/sup/epics/utils/anyvalue_from_pvxs_builder.cpp:242-252 | the reversed pushes leave the children's traces pending in order, before everything else |
| ReverseWalk.MakeLeafCall | src/lib/sup/epics/utils/dto_scalar_conversion_utils.cpp:69-84 | the copy loop of an array keeps every element |
| ReverseWalk.AnyValueFromPvxsBuilder.ProcessPvxsValue | src/lib/sup/epics/utils/anyvalue_from_pvxs_builder.cpp:111-121 | the composer ends as after the whole trace of the value; a null value makes no calls |
| Conversion.TraceComposes | src/lib/sup/epics/utils/anyvalue_from_pvxs_builder.cpp:178-266 | composing the trace of any node, in any context, adds exactly its decoded value or throws what decoding throws |
| Conversion.BuildAnyValueExactly | src/lib/sup/epics/utils/anyvalue_from_pvxs_builder.cpp:129-150 | BuildAnyValue succeeds if and only if no nested node is null, union or any and the composer can accept the members and elements; the value is then the structural one |
| Conversion.ForeignThrows | src/lib/sup/epics/utils/anyvalue_from_pvxs_builder.cpp:129-150 | unions and any values are refused as unsupported nodes, arrays of them by the type code lookup |
| Conversion.EncodedDecodes | src/lib/sup/epics/utils/dto_conversion_utils.cpp:59-63 | decoding the translation of a supported value gives its normal form |
| Conversion.RoundTripsExactly | src/lib/sup/epics/utils/dto_conversion_utils.cpp:52-63 | BuildAnyValue(BuildPVXSValue(v)) == Norm(v) if and only if v is Empty or supported: no nested Empty, no array of arrays, no empty array of structures |
| Conversion.WrittenDecodesExactly | src/lib/sup/epics/utils/dto_conversion_utils.cpp:59-63 | what a value leaves in a slot of any fitting type can be read back if and only if no array of structures in it is without elements, those in repeated types of Empty members included |
| Conversion.RoundTripOutcomes | src/lib/sup/epics/utils/dto_conversion_utils.cpp:52-63 | for every value: which of the two conversions throws, or the value that comes back |
| Conversion.SilentLossExactly | src/lib/sup/epics/utils/dto_conversion_utils.cpp:52-63 | a value comes back changed without a throw if and only if something in it is Empty and both conversions accept it |
| Conversion.EmptyMemberComesBack | src/lib/sup/epics/utils/pvxs_type_builder.cpp:69-77 | after a scalar an Empty member comes back as that scalar type's default |
| Conversion.NormTwice | doc/pv_access_pv.rst:22-25 | a second trip changes nothing more |
| Conversion.ScalarIsWrapped | src/lib/sup/epics/utils/dto_conversion_utils.cpp:97-102 | every scalar is sent as a structure without name and with the one member `value` |
| Conversion.UnwrapsExactly | src/lib/sup/epics/utils/dto_conversion_utils.cpp:104-110 | of all PVXS values exactly the structures with one field, named `value` and scalar, are read as that scalar; all others are read as they are |
| Conversion.ScalarAwareRoundTrip | src/lib/sup/epics/utils/dto_conversion_utils.cpp:97-110 | for every value the scalar-aware pair returns the normal form if and only if the value is Empty or supported and is not a structure with exactly one member, named `value` and scalar; such a structure comes back as the scalar |
| Conversion.BuildValue | src/lib/sup/epics/utils/dto_conversion_utils.cpp:59-63 | the object that walks and composes gives what BuildAnyValue is proved to give |
| ContextQueue.StepKeepsInv | src/lib/sup/epics/ca/ca_context_handle.cpp:49-123 | every atomic step keeps conservation, accounting, the halt relation and the wake-up condition |
| ContextQueue.FifoConservation | src/lib/sup/epics/ca/ca_context_handle.cpp:58-121 | in every reachable state executed, swapped out and queued tasks are the pushes in order, and no task runs twice |
| ContextQueue.OwnResult | src/lib/sup/epics/ca/ca_context_handle.cpp:58-64 | a call returns the result of its own task |
| ContextQueue.HaltDrain | src/lib/sup/epics/ca/ca_context_handle.cpp:104-122 | when the context is destroyed exactly the tasks of the last swap or before have run; if the loop was entered these include all pushed before halt was set |
| ContextQueue.WakeupIsNeverLost | src/lib/sup/epics/ca/ca_context_handle.cpp:60-109 | if the worker sleeps although there is something to do, a step that wakes it is enabled |
| ContextQueue.InternalStepsMakeProgress | src/lib/sup/epics/ca/ca_context_handle.cpp:49-123 | every step of begun work strictly lowers a measure, in any schedule |
| ContextQueue.InternalRunsAreBounded | src/lib/sup/epics/ca/ca_context_handle.cpp:49-123 | so begun work comes to rest after a bounded number of steps |
| ContextQueue.QuiescentCalls | src/lib/sup/epics/ca/ca_context_handle.cpp:58-92 | at rest every call has returned or was refused, except those whose task was pushed after the exited worker's last swap; and if halting has begun, the halting thread has joined an exited worker |
| ContextQueue.JoinedAfterExit | src/lib/sup/epics/ca/ca_context_handle.cpp:80-92 | HaltContext returns only after the worker has left |
| ContextQueue.RefusedExactly | src/lib/sup/epics/ca/ca_context_handle.cpp:49-57 | a call is refused if and only if halting has begun when it checks, and a refused call pushes nothing, ever |
| ContextQueue.LatePushIsNeverExecuted | src/lib/sup/epics/ca/ca_context_handle.cpp:51-64 | a run in which a call sees halt unset, the worker exits and the call then pushes; its task is executed in no continuation |
| ContextQueue.HaltBeforeStart | src/lib/sup/epics/ca/ca_context_handle.cpp:102-107 | a run in which halt is set before the worker reads it and an earlier push is not executed |
| ContextQueue.QueuedRunsExactly | src/lib/sup/epics/ca/ca_context_handle.cpp:104-121 | in any reachable state some continuation executes a queued task if and only if the worker will look at the queue again: not exited, no halt in the running pass, no halt before the first one |
| ContextQueue.WaitingReturnsExactly | src/lib/sup/epics/ca/ca_context_handle.cpp:58-64 | in any reachable state a call that has pushed can return if and only if its task is not queued behind a worker that will not look again |
| ContextQueue.AcceptedIsExecuted | src/lib/sup/epics/ca/ca_context_handle.cpp:104-121 | a task queued while the worker sleeps, is awake or runs a pass without halt is executed, and its call returns the task's result, in every continuation that comes to rest |
| ContextQueue.SerialCompletion | src/lib/sup/epics/ca/ca_channel_manager.cpp:78-166 | with one call at a time and halting only between calls, no call is refused, the worker exits with an empty queue, and every call returns its own result |
| ManagerContext.ManagerIsSerial | src/lib/sup/epics/ca/ca_channel_manager.cpp:70-166 | in every run of any threads through the manager's mutex, with contexts created, used and destroyed under it, at most one thread is in a public call and the context is used serially |
| ManagerContext.CallsHaveRun | src/lib/sup/epics/ca/ca_channel_manager.cpp:82-97 | so whenever no HandleTask call is under way every task handed over has run and its call has its own result, and no call is ever refused |
| ManagerContext.ContextLives | src/lib/sup/epics/ca/ca_channel_manager.cpp:152-166 | a context begins empty, is never replaced, and goes away only after its thread has left with every task run and every call returned |
| ManagerContext.DestroyedAfterExit | src/lib/sup/epics/ca/ca_context_handle.cpp:44-47 | destroying the context finds its thread gone and nothing undone |
| ManagerContext.CallRun | src/lib/sup/epics/ca/ca_channel_manager.cpp:152-158 | any thread can take the mutex, create the context and have a task run with any result |
| ManagerContext.DestroyRun | src/lib/sup/epics/ca/ca_channel_manager.cpp:160-166 | and can then destroy the context and leave everything as it was |
| ManagerContext.CallsMakeProgress | src/lib/sup/epics/ca/ca_channel_manager.cpp:152-166 | a public call inside HandleTask or the context's destructor is never stuck: a step that lowers the measure of begun work is always possible |
| ContextHandle.CAContextHandle.CheckHalt | src/lib/sup/epics/ca/ca_context_handle.cpp:51-57 | the first locked region is the protocol's check |
| ContextHandle.CAContextHandle.PushTask | src/lib/sup/epics/ca/ca_context_handle.cpp:59-62 | the second locked region is the protocol's push and does not look at halt |
| ContextHandle.CAContextHandle.SetHalt | src/lib/sup/epics/ca/ca_context_handle.cpp:86-89 | the locked region of HaltContext |
| ContextHandle.CAContextHandle.WaitAndSwap | src/lib/sup/epics/ca/ca_context_handle.cpp:109-113 | with the mutex: sleep, or take the whole queue and remember halt |
| ContextHandle.CAContextHandle.RunBatch | src/lib/sup/epics/ca/ca_context_handle.cpp:114-119 | the unlocked loop executes every swapped task once, in order, by steps of the protocol |
| ChannelManager.NextIdIsFree | src/lib/sup/epics/ca/ca_channel_manager.cpp:145-150 | with fewer than 2^64 entries the generated id is not in the map, and is the successor unless that is taken or wraps |
| ChannelManager.Pigeonhole | src/lib/sup/epics/ca/ca_channel_manager.cpp:145-150 | fewer than 2^64 keys cannot block 2^64 successive ids, so the search ends |
| ChannelManager.ZeroIdExactly | src/lib/sup/epics/ca/ca_channel_manager.cpp:145-150 | the id 0 is granted if and only if it is free and all ids up to the wrap-around are taken |
| ChannelManager.ZeroIdRun | src/lib/sup/epics/ca/ca_channel_manager.cpp:70-100 | a run from the start whose last addition adds an entry with an open channel and returns 0, as if it had failed |
| ChannelManager.CAChannelManager.GenerateId | src/lib/sup/epics/ca/ca_channel_manager.cpp:145-150 | the loop terminates with the first free id after the last one, modulo 2^64 |
| ChannelManager.IdsIncrease | src/lib/sup/epics/ca/ca_channel_manager.cpp:70-150 | in any run before the wrap-around a call that adds an entry returns an id that is not zero, and every such id is larger than all ids returned before |
| ChannelManager.AddKeepsInv | src/lib/sup/epics/ca/ca_channel_manager.cpp:70-100 | whatever the library answers, the context exists exactly while entries exist, and an open channel is either the live channel of its entry or one whose clear failed |
| ChannelManager.RemoveKeepsInv | src/lib/sup/epics/ca/ca_channel_manager.cpp:102-115 | the same after RemoveChannel, whether or not the clear succeeds |
| ChannelManager.AddReturnsExactly | src/lib/sup/epics/ca/ca_channel_manager.cpp:70-100 | a new entry is there if and only if the library added a channel; its id is what is returned and it owns a newly opened channel; any other id than 0 that is returned is such an entry, no other entry changes, and a throw or a refused type changes nothing |
| ChannelManager.RemoveReturnsExactly | src/lib/sup/epics/ca/ca_channel_manager.cpp:102-115 | true is returned if and only if the id was known and the clear succeeded; the entry is gone in any case, the channel stays open exactly after a failed clear with entries left, and nothing else changes |
| ChannelManager.FailedAddRestores | src/lib/sup/epics/ca/ca_channel_manager.cpp:89-99 | create failure, or subscription failure with a successful clear, leaves everything but the id counter as it was |
| ChannelManager.OpenChannels | src/lib/sup/epics/ca/ca_channel_manager.cpp:70-115 | the open channels are the disjoint union of those in the map and those whose clear failed; no two entries share a channel |
| ChannelManager.CallbacksAreLiveExactly | src/lib/sup/epics/ca/ca_channel_manager.cpp:70-115 | at any point of any run some registered callback points to an erased entry if and only if a call failed to clear a channel and entries have kept the context ever since |
| ChannelManager.DeadCallbackRun | src/lib/sup/epics/ca/ca_channel_manager.cpp:102-115 | three calls lead there: add, add, and a removal whose clear fails |
| ChannelManager.NoLeaks | src/lib/sup/epics/ca/ca_channel_manager.cpp:70-166 | at any point of a run without failed clears the open channels are exactly those in the map and every callback is live |
| ChannelManager.CAChannelManager.AddChannel | src/lib/sup/epics/ca/ca_channel_manager.cpp:70-100 | entry, task, rollback and context clean-up in place amount to the specified change of state |
| ChannelManager.CAChannelManager.RemoveChannel | src/lib/sup/epics/ca/ca_channel_manager.cpp:102-115 | the same for removal |
| ChannelManager.CAChannelManager.UpdateChannel | src/lib/sup/epics/ca/ca_channel_manager.cpp:117-143 | changes nothing; succeeds if and only if the id is known, the value converts, the buffer is not empty and the library accepts it; what is sent goes to the entry's channel, with the type and element count of its AnyType and the bytes of that many elements |
| ChannelManager.CaLibrary.AddChannelTask | src/lib/sup/epics/ca/ca_channel_tasks.cpp:39-57 | the channel id is set exactly if the channel was created, also when the subscription then fails |
| ChannelManager.CaLibrary.RemoveChannelTask | src/lib/sup/epics/ca/ca_channel_tasks.cpp:59-67 | the channel is closed exactly if the clear succeeds |
| ByteFormats.BytesRoundTrip | src/lib/sup/epics/ca/ca_channel_manager.cpp:220 | fixed width two's complement bytes give the number back |
| ByteFormats.DecimalRoundTrip | src/lib/sup/epics/ca/ca_helper.cpp:268-276 | decimal text parses to the number it was printed from |
| ByteFormats.DecimalLength | src/lib/sup/epics/ca/ca_channel_manager.cpp:239-255 | every 64-bit integer has at most 20 characters, so its slot never cuts it |
| ByteFormats.SlotRoundTrip | src/lib/sup/epics/ca/ca_helper.cpp:323-330 | a slot returns the text cut at 40 bytes and at its first NUL, for every text |
| ChannelCodec.SlotTrip | src/lib/sup/epics/ca/ca_channel_manager.cpp:239-285 | one element through its slot, for every type; an empty buffer exactly for enum-backed numbers over 16 bits |
| ChannelCodec.ScalarsAreSentAs | src/lib/sup/epics/ca/ca_helper.cpp:156-181 | which channel type and which bytes each scalar type has: strings and int64 as 40 characters, unsigned numbers as an unsigned word or not at all, all others as their own bytes under the channel type that EPICS reads in the same way |
| ChannelCodec.ArraysAreSentAs | src/lib/sup/epics/ca/ca_helper.cpp:183-208 | the same for the elements of arrays: uint32 and uint64 as characters too, uint8 and uint16 as words |
| ChannelCodec.EscapedReadsBack | src/lib/sup/epics/ca/ca_channel_manager.cpp:243-251 | the JSON text of a string reads back as the string |
| ChannelCodec.ConcatSlots | src/lib/sup/epics/ca/ca_channel_manager.cpp:223-275 | the encoder loops with their early return concatenate all slots or return nothing |
| ChannelCodec.GetUpdateBuffer | src/lib/sup/epics/ca/ca_channel_manager.cpp:201-221 | the branches over channel type and element count give the buffer the properties below are about |
| ChannelCodec.ConcatSlotAt | src/lib/sup/epics/ca/ca_channel_manager.cpp:229-273 | the i-th slot of the concatenation is the i-th element's |
| ChannelCodec.ParseArray | src/lib/sup/epics/ca/ca_helper.cpp:210-321 | the decoder loops assign the received elements into an array of defaults, or throw at the first one that does not convert; a boolean array of size zero becomes one boolean |
| ChannelCodec.CodecRoundTrip | src/lib/sup/epics/ca/ca_channel_manager.cpp:201-285 | a buffer is empty exactly for values that do not fit; otherwise it has the declared length and decodes to the value with its strings cut |
| ChannelCodec.BufferHasDeclaredLength | src/lib/sup/epics/ca/ca_channel_manager.cpp:131-140 | for every channel type, one-element arrays included, a sent buffer has exactly multiplicity times slot size bytes |
| ChannelCodec.CodecIsLosslessExactly | src/lib/sup/epics/ca/ca_helper.cpp:113-142 | the decoded value is the sent one if and only if its strings have at most 40 bytes and no NUL |
| ChannelCodec.SurvivesExactly | src/lib/sup/epics/ca/ca_channel_manager.cpp:201-285 | for every value of a channel type whose form is not left to the JSON library: it is sent and comes back unchanged if and only if it takes its own branch, its enum-backed scalars fit 16 bits and its strings 40 bytes without NUL, or it is the array of the one string that quotes itself |
| ChannelCodec.NumbersSurviveExactly | src/lib/sup/epics/ca/ca_channel_manager.cpp:226-274 | numeric values survive if and only if they are not one-element arrays of text or enum slots, and enum-backed scalars fit 16 bits |
| ChannelCodec.OneNumberAsText | src/lib/sup/epics/ca/ca_channel_manager.cpp:226-236 | an array of one number in a text slot is sent as JSON text that the decoder rejects |
| ChannelCodec.OneEnumIsRefused | src/lib/sup/epics/ca/ca_channel_manager.cpp:260-285 | an array of one enum is never sent |
| ChannelCodec.OneStringIsQuoted | src/lib/sup/epics/ca/ca_channel_manager.cpp:239-258 | for every string, an array of it comes back as the first 40 bytes of its JSON text: bracket, quote, escaped bytes |
| ChannelCodec.OwnQuoteExactly | src/lib/sup/epics/ca/ca_channel_manager.cpp:239-258 | one string, 40 bytes of nested JSON text, equals what comes back for it, and no other does |
| ChannelCodec.NoElements | src/lib/sup/epics/ca/ca_channel_manager.cpp:201-221 | an array of size zero is sent as the text of an empty JSON array where its slots are text, and refused otherwise |
| ChannelCodec.ShortWaveform | src/lib/sup/epics/ca/ca_helper.cpp:210-321 | for all array types and accepted counts: the decoder throws if and only if a received element does not convert, never for raw slots; otherwise the value has the requested type if and only if that is not a boolean array of size zero, and then holds the received elements first and defaults after, and depends on the received bytes only |
| ChannelCodec.EmptyBooleanArray | src/lib/sup/epics/ca/ca_helper.cpp:278-291 | the exception: a boolean array of size zero is decoded as a scalar boolean from the first byte of the buffer |
| ChannelCodec.ReadsReceivedBytesOnlyExactly | src/lib/sup/epics/ca/ca_helper.cpp:113-142 | the received bytes alone determine the value if and only if the type is not a boolean array of size zero |
| ChannelCodec.MonitorValueTyped | src/lib/sup/epics/ca/ca_monitor_wrapper.cpp:37-59 | for raw, text and enum channels: a monitor value has the channel's type if and only if data with an acceptable count came in, every received element converts and the type is not a boolean array of size zero; it throws exactly for arrays with an element that does not convert; without acceptable data it is Empty |
| Rpc.ClientExactly | src/lib/sup/epics/rpc/pv_access_rpc_utils.cpp:34-71 | against any transport: an unencodable request, no answer in time, and a null or undecodable answer each give their error reply, anything else its decoded value |
| Rpc.ServerExactly | src/lib/sup/epics/rpc/pv_access_rpc_utils.cpp:73-99 | for any request value: the encoded error reply of the stage that fails, or the encoded reply of the handler; never a null value |
| Rpc.CallLaw | src/lib/sup/epics/rpc/pv_access_rpc_utils.cpp:34-99 | for every request, handler and delay the caller gets the error reply of the first stage that fails, or the round trip of the handler's reply to the round trip of the request |
| Rpc.CallOutcomes | src/lib/sup/epics/rpc/pv_access_rpc_utils.cpp:34-99 | the same by the structure of request and reply: which stage fails, and that the value that comes back otherwise is Norm of the reply if and only if nothing in the reply is Empty |
| Rpc.CallComposes | src/lib/sup/epics/rpc/pv_access_rpc_utils.cpp:34-99 | between supported values the call is the handler up to Norm |
| Rpc.EmptyMemberIsReplaced | src/lib/sup/epics/rpc/pv_access_rpc_utils.cpp:84-99 | a reply with an Empty member after a scalar reaches the caller with a default in its place, as a value that is not Norm of the reply |
| Monitor.BatchingIsIrrelevant | src/lib/sup/epics/pvxs/pv_access_client_pv_impl.cpp:150-188 | for a compatible stream any split into calls gives the same cache, and the callback sees exactly the committed states |
| Monitor.TypeIsStable | src/lib/sup/epics/pvxs/pv_access_client_pv_impl.cpp:160-181 | once set, the type of the value never changes, whatever arrives and whichever calls throw |
| Monitor.PvAccessClientPv.ProcessMonitor | src/lib/sup/epics/pvxs/pv_access_client_pv_impl.cpp:150-188 | commits the fold of the queued events, or throws with the cache unchanged and the later events still queued |
| Monitor.ThrowLosesItsCall | src/lib/sup/epics/pvxs/pv_access_client_pv_impl.cpp:150-188 | the events before an incompatible update are lost in the same call and kept if they came in an earlier one; the caches differ if and only if those events change the cache |
| Monitor.FoldsExactly | src/lib/sup/epics/pvxs/pv_access_client_pv_impl.cpp:150-181 | from the start a stream of events throws if and only if some update cannot be decoded or does not convert to the type of the first; otherwise the cache holds the last update, converted to the type of the first |
| Monitor.VisibleExactly | src/lib/sup/epics/pvxs/pv_access_client_pv_impl.cpp:75-83 | after any calls, throwing ones included, GetValue is the value of the last committed update, converted to the type of the first unless it is the first, while the last committed connection event is a connect; otherwise, and before any update, it is Empty |

## Left out

- Member names with path syntax (dots, brackets): operator[] is modelled as a lookup by name.
- The signedness of char8: it is an 8-bit word here, and its conversion to uint8 keeps the word.
- sup-dto internals: visiting order, composer, byte, decimal and JSON forms are given as small specifications.
- An array of structures without elements: the real composer's answer is not visible in this repository; the model's composer refuses it.
- ReverseWalk: the walk reads the tree a PVXS value denotes, not its handles; it never writes, so sharing does not matter there. Its stack entries are values that are replaced, not objects.
- Unions and any values inside builder storage: the builders never create them; the walk meets them as foreign nodes.
- TryConvert before encoding (GetUpdateBuffer, SetValue): the codec starts from a value that already has the channel's type.
- Decoding arrays of size zero with text or enum slots: what a JSON parser makes of their type is not in this repository.
- ChannelCodec.ParseArray: one loop stands for the decoder loops of text, enum, boolean and raw arrays, which differ in the element decoder only.
- Timestamps, status and severity of monitor events: read by fixed offsets, no logic.
- Waits with timeouts, LaunchContext's promise, what destroying the queue does to abandoned tasks, callbacks that throw.
- An Empty RPC request: PvAccessRPCClientImpl returns Empty before ClientRPCCall is reached; `Rpc` models ClientRPCCall, where the request travels as a null value.
- Errors of the RPC transport other than a timeout; PvAccessServerPV, factories, wrappers and applications.
- Fairness of the scheduler: progress is stated as a bound on the steps of begun work, not as a temporal property.
