# Tempest.Social, modelled in Dafny

Tempest.Social is a small social layer on top of the Tempest networking library. This project models its core:

- **People.** A `Person` has an identity, an optional nickname and a status byte. The model covers:
  - the person's constructor checks;
  - value equality and the `==`/`!=` operators;
  - the property setters, which raise PropertyChanged only on a real change;
  - the person's wire form.
- **The watch-list provider.** `IWatchListProvider` is written as pure transition functions over an abstract state of people and (watcher, watched) edges (module `WatchListContract`). `MemoryWatchListProvider` is a class over a people map and a set of edges. Each of its methods is proved to move its state exactly as the contract function says.
- **The server.** `SocialServer` keeps three pieces of state:
  - the registry of announced people;
  - the two-way binding between identities and connections;
  - the provider.

  The model covers:
  - resolving the owner of a connection (`GetPerson`);
  - handling a buddy-list message, which is dispatched to provider calls;
  - handling a person announcement: identity verification, join or update, the bootstrap message to a newcomer, and the fan-out to every connected watcher.

  What the server sends or disconnects is recorded in an outbox.
- **The client.** The client-side `WatchList` holds a person list, the messages it sends to the server, and the collection-changed events it raises. The model covers:
  - the local edits;
  - the lookup by identity;
  - serialization;
  - how it applies `PersonMessage` and `BuddyListMessage` from the server.
- **Groups.** The model covers:
  - `Group` and its serializer;
  - `GroupManager`, which hands out the first free group id from a wrapping 32-bit counter;
  - `Invitation`.
- **ObservableDictionary.** This is a dictionary that notifies on itself and on its Keys and Values views. Each of the three notification streams is recorded in order.
- **Protocol messages.** The payloads of `ConnectResultMessage`, `ConnectToMessage` and `GroupConnectionMessage`, with their round trips.

How the source's constructs are represented:

- **Serialization.** Tempest's `IValueWriter`/`IValueReader` are not part of this model. They are represented by a token stream (module `Stream`): a `Writer` appends typed tokens, and a `Reader` consumes them from a position. A read fails, returning `None`, when the next token has the wrong kind.
- **Exceptions.** These become `Result`/`Outcome` values that name the exception (`ArgumentNull("identity")`, `NotSupported`, and so on).
- **C# `null` arguments.** These become `Option` wherever the source checks them.
- **C# `int`.** Modelled as `Int32`, with wrap-around written out where the source relies on it.

## Model

| member | source | states |
|---|---|---|
| People.NewPerson | Desktop/Tempest.Social/Person.cs:44-52 | a null identity is ArgumentNull, an empty or all-white-space one is ArgumentInvalid; otherwise (and only then) the new person has that identity, no nickname and status Offline |
| People.Equals | Desktop/Tempest.Social/Person.cs:107-123 | two persons are equal exactly when identity, nickname and status all agree; null is never equal to a person |
| People.OpEquals | Desktop/Tempest.Social/Person.cs:135-138 | `==` holds exactly when both sides are null or both are equal persons |
| People.OpNotEquals | Desktop/Tempest.Social/Person.cs:140-143 | `!=` holds exactly when `==` does not |
| People.DecodePersonInverse | Desktop/Tempest.Social/Person.cs:100-105 | whatever reads as a person occupies exactly three tokens, and they are that person serialized |
| People.PersonRoundTrip | Desktop/Tempest.Social/Person.cs:93-105 | a serialized person, wherever it sits in a stream, reads back as the same person and leaves the reader just after it |
| People.PeopleItemsRoundTrip | Desktop/Tempest.Social/WatchList.cs:113-128 | the items of a serialized person list read back as the same list, in order, and leave the reader after the last one |
| People.PeopleRoundTrip | Desktop/Tempest.Social/WatchList.cs:113-128 | a serialized person list (count, then items) reads back as the same list wherever it sits in a stream |
| People.ReadPerson | Desktop/Tempest.Social/Person.cs:56-59 | reading a person yields exactly the decoded person and position, and nothing when the tokens do not form a person |
| People.ReadPeople | Desktop/Tempest.Social/WatchList.cs:125 | the read loop succeeds exactly when the list decodes, and then yields the decoded list and position |
| People.PersonObject.SetNickname | Desktop/Tempest.Social/Person.cs:61-72 | the nickname becomes the new value, identity and status are untouched, and "Nickname" is notified exactly when the value changed |
| People.PersonObject.SetStatus | Desktop/Tempest.Social/Person.cs:80-91 | the status becomes the new value, identity and nickname are untouched, and "Status" is notified exactly when the value changed |
| People.PersonObject.Serialize | Desktop/Tempest.Social/Person.cs:93-98 | writes identity, nickname and status, which is the encoding DecodePerson inverts |
| People.WritePerson | Desktop/Tempest.Social/Person.cs:93-98 | writes identity, nickname and status, which is EncodePerson |
| People.EncodePerson | Desktop/Tempest.Social/Person.cs:93-98 | a serialized person on its own reads back as the same person and is consumed entirely |
| People.DecodePerson | Desktop/Tempest.Social/Person.cs:100-105 | a person that reads successfully takes exactly three tokens, all within the stream |
| People.PersonObject.Deserialize | Desktop/Tempest.Social/Person.cs:100-105 | succeeds exactly when a person decodes; the object then holds it, and a change of nickname or status is notified through the setters |
| WatchListContract.WatchedWatchersDual | Desktop/Tempest.Social/IWatchListProvider.cs:59-74 | t is among o's watched exactly when o is among t's watchers: both views read the same edges |
| WatchListContract.PeopleMap | Desktop/Tempest.Social/MemoryWatchListProvider.cs:62-71 | recording a batch of targets knows exactly their identities, each filed under its own identity |
| WatchListContract.PeopleMapLast | Desktop/Tempest.Social/MemoryWatchListProvider.cs:62-71 | any person whose identity does not occur again later in the batch is the one filed under that identity, so when an identity repeats the last occurrence is kept |
| WatchListContract.AddTargetsEdges | Desktop/Tempest.Social/MemoryWatchListProvider.cs:62-71 | the AddRange loop adds exactly one owner-to-target edge per target |
| WatchListContract.AddTargetsPeople | Desktop/Tempest.Social/MemoryWatchListProvider.cs:62-71 | the AddRange loop records every target, the latest one per identity winning |
| WatchListContract.Add | Desktop/Tempest.Social/IWatchListProvider.cs:35-41 | null owner or target fails with the parameter's name; otherwise both people are recorded and the owner-to-target edge is added, keeping the state valid |
| WatchListContract.AddRange | Desktop/Tempest.Social/IWatchListProvider.cs:43-49 | null owner or targets fails; otherwise the owner and all targets are recorded and one edge per target is added |
| WatchListContract.AddRangeViews | Desktop/Tempest.Social/IWatchListProvider.cs:43-49 | after AddRange the owner watches its old set plus the targets' identities, and everyone else's watched set is unchanged |
| WatchListContract.Remove | Desktop/Tempest.Social/IWatchListProvider.cs:51-57 | null owner or target fails; otherwise exactly the owner-to-target edge is removed and people are kept |
| WatchListContract.Clear | Desktop/Tempest.Social/MemoryWatchListProvider.cs:89-98 | a null owner fails; otherwise exactly the owner's outgoing edges are removed |
| WatchListContract.IsWatcher | Desktop/Tempest.Social/MemoryWatchListProvider.cs:100-112 | null arguments fail; otherwise the answer is whether the watcher-to-watchee edge exists |
| WatchListContract.EmptyForUnknown | Desktop/Tempest.Social/IWatchListProvider.cs:59-74 | an identity never recorded watches nobody and is watched by nobody |
| WatchListContract.AddRangeThenRemove | Desktop/Tempest.Social.Tests/WatchListProviderTests.cs:95-106 | from an empty list, adding targets B and C and then removing B leaves the owner watching exactly {B, C} minus B |
| MemoryWatchLists.MemoryWatchListProvider.constructor | Desktop/Tempest.Social/MemoryWatchListProvider.cs:138-139 | a new provider knows no people and no watch-list edges, which is a valid state |
| MemoryWatchLists.MemoryWatchListProvider.AddAsync | Desktop/Tempest.Social/MemoryWatchListProvider.cs:38-53 | the stored state moves exactly as WatchListContract.Add says, failures leaving it unchanged |
| MemoryWatchLists.MemoryWatchListProvider.AddRangeAsync | Desktop/Tempest.Social/MemoryWatchListProvider.cs:55-74 | the loop moves the stored state exactly as WatchListContract.AddRange says |
| MemoryWatchLists.MemoryWatchListProvider.RemoveAsync | Desktop/Tempest.Social/MemoryWatchListProvider.cs:76-87 | the stored state moves exactly as WatchListContract.Remove says |
| MemoryWatchLists.MemoryWatchListProvider.ClearAsync | Desktop/Tempest.Social/MemoryWatchListProvider.cs:89-98 | the stored state moves exactly as WatchListContract.Clear says |
| MemoryWatchLists.MemoryWatchListProvider.GetIsWatcherAsync | Desktop/Tempest.Social/MemoryWatchListProvider.cs:100-112 | the answer is WatchListContract.IsWatcher on the stored state |
| MemoryWatchLists.MemoryWatchListProvider.PeopleArray | Desktop/Tempest.Social/MemoryWatchListProvider.cs:121 | the array holds each person of the given identities exactly once |
| MemoryWatchLists.MemoryWatchListProvider.GetWatchedAsync | Desktop/Tempest.Social/MemoryWatchListProvider.cs:114-124 | a null owner fails; otherwise the result holds, without duplicates, exactly the persons the owner watches |
| MemoryWatchLists.MemoryWatchListProvider.GetWatchersAsync | Desktop/Tempest.Social/MemoryWatchListProvider.cs:126-136 | a null target fails; otherwise the result holds, without duplicates, exactly the persons watching the target |
| Server.Bind | Desktop/Tempest.Social/SocialServer.cs:132 | binding an identity to a connection makes each the other's partner, drops both earlier partners and keeps the registry consistent |
| Server.BindFrame | Desktop/Tempest.Social/SocialServer.cs:132 | binding moves only the identity and the connection: every other identity and connection keeps its partner, the identity's earlier connection and the connection's earlier identity are left unbound, and the bound connections are the old ones less the identity's earlier one, plus the new one |
| Server.GetPerson | Desktop/Tempest.Social/SocialServer.cs:61-82 | the owner of a bound connection is its bound person, with nothing changed; for an unbound connection the resolved identity decides: a stored identity yields its stored person with nothing changed, an unknown non-blank one yields and stores a new `Person (id)` (no nickname, Offline) without binding it, and a null or blank unknown identity faults with nothing changed; the person found always has the resolved identity, and the identity-mismatch branch cannot fire |
| Server.Dispatch | Desktop/Tempest.Social/SocialServer.cs:93-109 | every provider call a buddy-list message leads to acts on the sender's own list; Replace and Move lead to none |
| Server.Fanout | Desktop/Tempest.Social/SocialServer.cs:154-164 | no more messages than watchers, each a PersonMessage carrying the announced person sent to a bound connection; FanoutExact states which and FanoutOncePerWatcher how often |
| Server.SocialServer.constructor | Desktop/Tempest.Social/SocialServer.cs:39-59 | a new server holds the given provider, no people, no bindings and an empty outbox, and is consistent |
| Server.Announce | Desktop/Tempest.Social/SocialServer.cs:114-135 | an identity that does not verify is rejected; a known one has nickname and status updated without rebinding; an unknown one joins, is stored and is bound to the connection; on a join every other binding is kept, the connection's earlier identity is unbound, and no other identity or connection becomes bound |
| Server.Bootstrap | Desktop/Tempest.Social/SocialServer.cs:138-151 | a newcomer who watches nobody is asked for its buddy list; otherwise it receives a Reset carrying exactly its watched people |
| Server.RemoveCalls | Desktop/Tempest.Social/SocialServer.cs:99-103 | one RemoveAsync call per listed person, in order, from the owner |
| Server.FanoutExact | Desktop/Tempest.Social/SocialServer.cs:154-164 | a PersonMessage goes to a connection exactly when a watcher with that identity is bound to it, and nothing else is sent |
| Server.FanoutMisses | Desktop/Tempest.Social/SocialServer.cs:154-164 | a connection no watcher is bound to receives no PersonMessage |
| Server.FanoutOncePerWatcher | Desktop/Tempest.Social/SocialServer.cs:154-164 | with distinct watchers, every watcher with a connection receives the announced person exactly once |
| Server.FiledPeopleDistinct | Desktop/Tempest.Social/MemoryWatchListProvider.cs:126-136 | a watcher list without repeated persons, each filed under its own identity, has no identity twice, so FanoutOncePerWatcher applies to the provider's lists |
| Server.FanoutSkipsUnbound | Desktop/Tempest.Social/SocialServer.cs:154-164 | watchers without a connection receive nothing |
| Server.ApplyAllValid | Desktop/Tempest.Social/SocialServer.cs:93-109 | any sequence of provider calls keeps the provider's state valid |
| Server.RemoveAllEffect | Desktop/Tempest.Social/SocialServer.cs:99-103 | the Remove loop takes exactly the listed identities out of the owner's watched set and leaves everyone else's alone |
| Server.DispatchEffect | Desktop/Tempest.Social/SocialServer.cs:93-109 | Add extends the owner's watched set by the listed people, Remove subtracts them, Reset makes it exactly them, and other actions change nothing |
| Server.SocialServer.GetPersonStep | Desktop/Tempest.Social/SocialServer.cs:61-82 | the server's lookup and its new registry are exactly GetPerson's |
| Server.SocialServer.OnBuddyListMessage | Desktop/Tempest.Social/SocialServer.cs:84-110 | the registry follows GetPerson; a found owner's request is applied to the provider as Dispatch says; a faulted lookup leaves the provider alone |
| Server.SocialServer.ApplyBuddyList | Desktop/Tempest.Social/SocialServer.cs:93-109 | the action switch moves the provider exactly as the Dispatch calls applied in order, keeping it valid |
| Server.SocialServer.RemoveEach | Desktop/Tempest.Social/SocialServer.cs:99-103 | the Remove loop moves the provider exactly as one RemoveAsync per listed person, in order |
| Server.SocialServer.Register | Desktop/Tempest.Social/SocialServer.cs:121-136 | the registry becomes Announce's, and the result says whether the person just joined |
| Server.SocialServer.Forward | Desktop/Tempest.Social/SocialServer.cs:154-164 | the loop appends exactly Fanout's messages and leaves the registry alone |
| Server.SocialServer.OnPersonMessage | Desktop/Tempest.Social/SocialServer.cs:112-165 | a rejected announcement only disconnects; an update fans out; a join sends Bootstrap of the watched people and then fans out; the watched and watcher lists are exactly the provider's sets |
| Server.PeopleOnlyGrow | Desktop/Tempest.Social/SocialServer.cs:58 | neither the buddy-list handler nor an announcement ever forgets a known identity |
| Server.BuddyListBeforeAnnounceNeverBinds | Desktop/Tempest.Social/SocialServer.cs:72-76 | a buddy-list message before the first announcement creates the person without a connection, so a later announcement only updates it and never binds the connection |
| Server.AnnounceFirstBinds | Desktop/Tempest.Social/SocialServer.cs:130-135 | the first announcement of an identity binds it to the announcing connection |
| Client.RemoveFirst | Desktop/Tempest.Social/WatchList.cs:97 | removing a person who is absent changes nothing; otherwise the list loses exactly one element |
| Client.FirstIndex | Desktop/Tempest.Social/WatchList.cs:97 | the position of the first copy of a present person: it holds the person and nothing before it does |
| Client.RemoveFirstKeepsOrder | Desktop/Tempest.Social/WatchList.cs:97 | `List.Remove` takes out the first copy of the person and leaves the elements before and after it in order |
| Client.RemoveFirstSubsequence | Desktop/Tempest.Social/WatchList.cs:97 | what Remove leaves is the list with elements dropped and the rest in their order |
| Client.RemoveFirstMultiset | Desktop/Tempest.Social/WatchList.cs:97 | removing a person takes exactly one copy of it out of the list's contents |
| Client.RemoveEachMultiset | Desktop/Tempest.Social/WatchList.cs:199-206 | applying a Remove message takes one copy of each listed person out of the contents |
| Client.RemoveEach | Desktop/Tempest.Social/WatchList.cs:199-206 | removing the listed persons one at a time never lengthens the list; RemoveEachMultiset states what is taken out and RemoveEachKeepsOrder that the rest keep their order |
| Client.RemoveEachKeepsOrder | Desktop/Tempest.Social/WatchList.cs:199-206 | after a Remove message the remaining persons are in their earlier order |
| Client.Announced | Desktop/Tempest.Social/WatchList.cs:143-154 | an unknown identity is appended after the unchanged list; a known one keeps the length; AnnouncedEffect states the rest |
| Client.IndexOfIdentity | Desktop/Tempest.Social/WatchList.cs:104-111 | finds the first person with the identity, and nothing exactly when no person has it |
| Client.AnnouncedEffect | Desktop/Tempest.Social/WatchList.cs:143-154 | an announcement of a listed identity updates that first entry's nickname and status in place; an unlisted one is appended |
| Client.Adds | Desktop/Tempest.Social/WatchList.cs:49-53 | n Add events |
| Client.Removes | Desktop/Tempest.Social/WatchList.cs:49-53 | n Remove events |
| Client.WatchList.constructor | Desktop/Tempest.Social/WatchList.cs:39-47 | a new watch list is empty and has sent and raised nothing |
| Client.WatchList.Count | Desktop/Tempest.Social/WatchList.cs:55-58 | the number of people listed |
| Client.WatchList.Add | Desktop/Tempest.Social/WatchList.cs:65-71 | appends the person, raises Add and sends an Add BuddyList message carrying just that person |
| Client.WatchList.Clear | Desktop/Tempest.Social/WatchList.cs:73-79 | empties the list, raises Reset and sends a Reset BuddyList message |
| Client.WatchList.Contains | Desktop/Tempest.Social/WatchList.cs:81-85 | whether the person is listed |
| Client.WatchList.RemoveAsWritten | Desktop/Tempest.Social/WatchList.cs:93-102 | removes the first equal person, raises Remove only if one was removed, but always sends a Remove message |
| Client.WatchList.Remove | Desktop/Tempest.Social/WatchList.cs:93-102 | as above, but the Remove message is sent only when a person was removed |
| Client.WatchList.TryGetPerson | Desktop/Tempest.Social/WatchList.cs:104-111 | found exactly when some listed person has the identity, and then returns the first such person |
| Client.WatchList.Serialize | Desktop/Tempest.Social/WatchList.cs:113-117 | writes the list as its count followed by each person, which PeopleRoundTrip reads back |
| Client.WatchList.Deserialize | Desktop/Tempest.Social/WatchList.cs:119-128 | raises Reset, then succeeds exactly when a list decodes, holding it and raising one Add per person; sends nothing |
| Client.WatchList.OnPersonMessage | Desktop/Tempest.Social/WatchList.cs:143-154 | the list becomes Announced of the old list; Add is raised exactly when the identity was new |
| Client.WatchList.OnBuddyListMessage | Desktop/Tempest.Social/WatchList.cs:177-208 | Reset replaces the list, Add appends, Remove removes each listed person once, and any other action changes nothing; each edit raises its events; nothing is sent back |
| Client.WatchList.RemoveAll | Desktop/Tempest.Social/WatchList.cs:199-206 | the Remove loop leaves RemoveEach of the list and raises one Remove per person actually removed |
| Client.WatchList.AddAll | Desktop/Tempest.Social/WatchList.cs:190-197 | the Add loop appends the people in order, raising one Add each |
| Client.RemoveAsWrittenNotifiesOnMiss | Desktop/Tempest.Social/WatchList.cs:93-102 | removing from an empty list changes nothing, yet the code as written still sends a Remove message; the corrected notice sends none |
| Client.RemoveNoticeIffChanged | Desktop/Tempest.Social/WatchList.cs:93-102 | with the correction, a Remove message is sent exactly when the list changed |
| Groups.Group.constructor | Desktop/Tempest.Social/Group.cs:35-38 | a new group has the id and no participants |
| Groups.Group.WithParticipants | Desktop/Tempest.Social/Group.cs:40-48 | the loop adds every participant, in order |
| Groups.NewGroup | Desktop/Tempest.Social/Group.cs:40-48 | null participants is ArgumentNull; otherwise a fresh group with the id and exactly those participants |
| Groups.EncodeNames | Desktop/Tempest.Social/Group.cs:69-73 | one string token per participant, in order |
| Groups.DecodeNames | Desktop/Tempest.Social/Group.cs:75-78 | succeeds exactly when the next n tokens are non-null strings, and then they are the encoding of the names read |
| Groups.GroupRoundTrip | Desktop/Tempest.Social/Group.cs:69-78 | a serialized group reads back as the same id and participants wherever it sits in a stream |
| Groups.EncodeGroup | Desktop/Tempest.Social/Group.cs:69-73 | a serialized group on its own reads back as the same id and participants and is consumed entirely |
| Groups.DecodeGroup | Desktop/Tempest.Social/Group.cs:75-78 | a group that reads successfully takes the id, the count and one token per participant, all within the stream |
| Groups.DecodeGroupInverse | Desktop/Tempest.Social/Group.cs:75-78 | whatever reads as a group is exactly that group serialized |
| Groups.SerializeGroup | Desktop/Tempest.Social/Group.cs:69-73 | writes exactly EncodeGroup of the group |
| Groups.DeserializeGroup | Desktop/Tempest.Social/Group.cs:75-78 | succeeds exactly when a group decodes, and then yields a fresh group with the decoded id and participants |
| GroupManagement.Increment | Desktop/Tempest.Social/GroupManager.cs:45 | `nextId++` in unchecked C#: the int congruent to x + 1 modulo 2^32, which wraps int.MaxValue to int.MinValue |
| GroupManagement.Distance | Desktop/Tempest.Social/GroupManager.cs:44-45 | the number of increments from one id to another is below 2^32 and zero only for the same id |
| GroupManagement.DistanceIncrement | Desktop/Tempest.Social/GroupManager.cs:44-45 | each increment takes the search one step further until it has gone all the way round |
| GroupManagement.DistanceInjective | Desktop/Tempest.Social/GroupManager.cs:44-45 | distinct ids lie at distinct distances from the start |
| GroupManagement.FirstFreeUnique | Desktop/Tempest.Social/GroupManager.cs:44-45 | the id the search stops at is determined by the taken ids and the starting counter |
| GroupManagement.FreeStartIsFirst | Desktop/Tempest.Social/GroupManager.cs:44-45 | when the counter's id is free, that id is chosen |
| GroupManagement.GroupManager.constructor | Desktop/Tempest.Social/GroupManager.cs:61-62 | a new manager has no groups and counts from 0 |
| GroupManagement.GroupManager.CreateGroup | Desktop/Tempest.Social/GroupManager.cs:39-51 | a null person is ArgumentNull and changes nothing; otherwise the new group takes the first free id from the counter on, cyclically, has just the person as participant and is added; no existing group is replaced |
| GroupManagement.GroupManager.LeaveGroup | Desktop/Tempest.Social/GroupManager.cs:53-59 | null person or group is ArgumentNull; otherwise it succeeds without doing anything |
| Invitations.NewInvitation | Desktop/Tempest.Social/Invitation.cs:17-29 | null group or person is ArgumentNull, a response outside the enum is ArgumentInvalid; otherwise the invitation holds exactly its arguments |
| Observable.ItemArgs | Desktop/Tempest.Social/ObservableDictionary.cs:178-186 | an item notification can be built for Add and Remove only; any other action throws ArgumentException |
| Observable.ReplaceNeedsItsOwnArgs | Desktop/Tempest.Social/ObservableDictionary.cs:178-186 | a Replace notification cannot be built from the constructor Signal uses |
| Observable.ObservableDictionary.constructor | Desktop/Tempest.Social/ObservableDictionary.cs:38-43 | a new dictionary is empty and has raised nothing |
| Observable.ObservableDictionary.Count | Desktop/Tempest.Social/ObservableDictionary.cs:54-57 | the number of keys |
| Observable.ObservableDictionary.Get | Desktop/Tempest.Social/ObservableDictionary.cs:61 | the stored value, or KeyNotFound exactly when the key is absent |
| Observable.ObservableDictionary.SignalReset | Desktop/Tempest.Social/ObservableDictionary.cs:169-176 | one Reset on the dictionary and on both views, contents untouched |
| Observable.ObservableDictionary.Signal | Desktop/Tempest.Social/ObservableDictionary.cs:178-186 | for Add and Remove, notifies the pair, the key (unless value-only) and the value; any other action throws before anything is raised |
| Observable.ObservableDictionary.SetAsWritten | Desktop/Tempest.Social/ObservableDictionary.cs:62-69 | stores the value; a new key raises Add on all three streams; an existing key is overwritten and then the setter throws with no notification |
| Observable.ObservableDictionary.Set | Desktop/Tempest.Social/ObservableDictionary.cs:62-69 | stores the value; an existing key raises Replace on the dictionary and the Values view only, a new key raises Add on all three |
| Observable.ObservableDictionary.Add | Desktop/Tempest.Social/ObservableDictionary.cs:123-128 | a present key throws DuplicateKey with nothing changed; otherwise the pair is stored and Add is raised on all three |
| Observable.ObservableDictionary.Clear | Desktop/Tempest.Social/ObservableDictionary.cs:92-96 | empties the dictionary and raises one Reset on all three |
| Observable.ObservableDictionary.ContainsKey | Desktop/Tempest.Social/ObservableDictionary.cs:118-121 | whether the key is stored |
| Observable.ObservableDictionary.ContainsPair | Desktop/Tempest.Social/ObservableDictionary.cs:98-101 | whether the key is stored with exactly that value |
| Observable.ObservableDictionary.TryGetValue | Desktop/Tempest.Social/ObservableDictionary.cs:143-146 | found exactly when the key is stored, with its value |
| Observable.ObservableDictionary.Remove | Desktop/Tempest.Social/ObservableDictionary.cs:130-141 | the key is gone afterwards; Remove is raised on all three exactly when it was present |
| Observable.ObservableDictionary.RemovePair | Desktop/Tempest.Social/ObservableDictionary.cs:108-116 | removes the key only when it holds exactly that value, and then raises Remove; otherwise nothing changes |
| Observable.ObservableDictionary.KeysContains | Desktop/Tempest.Social/ObservableDictionary.cs:243-246 | the Keys view contains exactly the stored keys |
| Observable.ObservableDictionary.ValuesContains | Desktop/Tempest.Social/ObservableDictionary.cs:243-246 | the Values view contains exactly the stored values |
| Observable.ReadOnlyViewCall | Desktop/Tempest.Social/ObservableDictionary.cs:188-257 | on a read-only view Add, Clear and Remove, and only those, throw NotSupportedException; Contains and Count read through to the backing collection |
| Observable.KeysViewCall | Desktop/Tempest.Social/ObservableDictionary.cs:72-75 | the Keys view contains exactly the dictionary's keys and refuses every mutation |
| Observable.ValuesViewCall | Desktop/Tempest.Social/ObservableDictionary.cs:77-80 | the Values view contains exactly the values stored under some key and refuses every mutation |
| Protocol.ConnectResultRoundTrip | Desktop/Tempest.Social/Protocol/ConnectResultMessage.cs:86-98 | a written result (and its target when present) reads back unchanged wherever it sits in a stream |
| Protocol.EncodeConnectResult | Desktop/Tempest.Social/Protocol/ConnectResultMessage.cs:86-91 | a written result on its own reads back as the same result and target and is consumed entirely |
| Protocol.DecodeConnectResult | Desktop/Tempest.Social/Protocol/ConnectResultMessage.cs:93-98 | a successful read takes two tokens, or three when the flag says a target follows |
| Protocol.DecodeConnectResultInverse | Desktop/Tempest.Social/Protocol/ConnectResultMessage.cs:93-98 | whatever reads as a result is exactly that result and target written |
| Protocol.ConnectResultMessage.constructor | Desktop/Tempest.Social/Protocol/ConnectResultMessage.cs:57-60 | a message made for reading starts as FailedUnknown with no target |
| Protocol.ConnectResultMessage.Create | Desktop/Tempest.Social/Protocol/ConnectResultMessage.cs:62-72 | a result outside the enum is ArgumentInvalid, Success without a target is ArgumentNull; otherwise the message holds exactly its arguments |
| Protocol.ConnectResultMessage.WritePayload | Desktop/Tempest.Social/Protocol/ConnectResultMessage.cs:86-91 | writes the result byte, whether a target follows, and the target |
| Protocol.ConnectResultMessage.ReadPayload | Desktop/Tempest.Social/Protocol/ConnectResultMessage.cs:93-98 | succeeds exactly when the payload decodes; the result is read, and the target only when one was written, an earlier target otherwise staying |
| Protocol.ConnectToRoundTrip | Desktop/Tempest.Social/Protocol/ConnectToMessage.cs:79-92 | a written id, hosting flag and target read back unchanged wherever they sit in a stream |
| Protocol.EncodeConnectTo | Desktop/Tempest.Social/Protocol/ConnectToMessage.cs:79-85 | a written id, flag and target on their own read back unchanged and are consumed entirely |
| Protocol.DecodeConnectTo | Desktop/Tempest.Social/Protocol/ConnectToMessage.cs:87-92 | a successful read takes exactly four tokens |
| Protocol.DecodeConnectToInverse | Desktop/Tempest.Social/Protocol/ConnectToMessage.cs:87-92 | whatever reads as a connect-to payload is exactly that payload written |
| Protocol.ConnectToMessage.constructor | Desktop/Tempest.Social/Protocol/ConnectToMessage.cs:34-37 | a message made for reading has no id, no target and is not hosting |
| Protocol.ConnectToMessage.Create | Desktop/Tempest.Social/Protocol/ConnectToMessage.cs:39-50 | null id or target is ArgumentNull; otherwise the message holds exactly its arguments |
| Protocol.ConnectToMessage.WritePayload | Desktop/Tempest.Social/Protocol/ConnectToMessage.cs:79-85 | with a target, writes id, flag, host name and port; without one, writes id and flag and then fails with a null reference |
| Protocol.ConnectToMessage.ReadPayload | Desktop/Tempest.Social/Protocol/ConnectToMessage.cs:87-92 | succeeds exactly when the payload decodes, and then holds the decoded id, flag and target |
| Protocol.GroupConnectionRoundTrip | Desktop/Tempest.Social/Protocol/GroupConnectionMessage.cs:59-71 | a written connection type, with its host for a hosted group, reads back unchanged wherever it sits in a stream |
| Protocol.EncodeGroupConnection | Desktop/Tempest.Social/Protocol/GroupConnectionMessage.cs:59-64 | a written type, with its host for Host, reads back unchanged on its own and is consumed entirely |
| Protocol.DecodeGroupConnection | Desktop/Tempest.Social/Protocol/GroupConnectionMessage.cs:66-71 | a host is read exactly when the type is Host, taking two tokens, and otherwise one |
| Protocol.DecodeGroupConnectionInverse | Desktop/Tempest.Social/Protocol/GroupConnectionMessage.cs:66-71 | whatever reads as a group-connection payload is exactly that payload written |
| Protocol.GroupConnectionMessage.constructor | Desktop/Tempest.Social/Protocol/GroupConnectionMessage.cs:42-45 | a new message has type 0 and no host |
| Protocol.GroupConnectionMessage.WritePayload | Desktop/Tempest.Social/Protocol/GroupConnectionMessage.cs:59-64 | writes the type byte and, for a hosted group, the host; a hosted group without a host fails with a null reference after the type byte |
| Protocol.GroupConnectionMessage.ReadPayload | Desktop/Tempest.Social/Protocol/GroupConnectionMessage.cs:66-71 | succeeds exactly when the payload decodes; reads the type, and the host only for a hosted group |

## Left out

- IWatchListProvider is an interface. It is stated as transition functions over `WatchState` (module `WatchListContract`), which `MemoryWatchListProvider` is proved to follow. The server holds the memory provider directly, since the model has no interfaces.
- Tempest itself is not part of this model. That covers `IValueWriter`/`IValueReader`, `WriteEnumerable`/`ReadEnumerable`, connections, message dispatch and `Target.Serialize`:
  - a stream is a sequence of typed tokens;
  - an enumerable is a count token followed by its items;
  - a `Target` is one token.
- Asynchrony, `lock`, `async void` handlers and `ConfigureAwait` are not modelled. Each handler runs to completion as one step. Interleavings of concurrent handlers are not modelled.
- The identity provider is not modelled. It becomes a parameter of each server handler: the identity it resolves, or `None` for null.
- Disconnecting and sending are entries in the server's outbox. Delivery is not modelled.
- Object identity and aliasing are not modelled. Persons in collections, messages and the provider are values. As a result:
  - the in-place update of a server or client person by an announcement is modelled as replacing the value at that key or index;
  - a person object shared between the server's registry and the provider is not seen to change in both.
- PropertyChanged and CollectionChanged handlers are not modelled. Their notifications are recorded as sequences. Event indices are not kept.
- GetHashCode, `Equals (object)` on non-persons, GetEnumerator and CopyTo are not modelled: they only expose the contents or forward to them.
- Null elements inside collections are not modelled: a null person in a list, a null participant name, or a null host name in a target.
  - A null identity read from a stream is treated as a read failure.
  - A null people list in a `BuddyListMessage` is not representable.
  - The Reset message the client sends carries null people, modelled as an empty list.
- The null-argument checks of the `SocialServer` and `WatchList` constructors are not modelled. The provider and the client context are never null in the model.
- Client.WatchList.Deserialize: a read that fails part-way leaves the list empty. The source keeps the persons read before the failure.
- Client.WatchList.OnBuddyListMessage: Replace and Move are ignored, as in the source.
- Server.GetPerson: the identity-mismatch branch (SocialServer.cs:78-79) returns null in the source. It cannot be taken, because every registry entry is filed under its own identity. The model proves this instead of modelling a disconnect for it.
- Server.SocialServer.OnBuddyListMessage: the disconnect for a null owner (SocialServer.cs:86-91) is therefore never reached. An unbound connection whose identity resolves to null makes `people.TryGetValue (null, …)` at SocialServer.cs:74 throw ArgumentNullException inside an `async void` handler; the model records this as a faulted lookup that leaves the registry and the provider unchanged and sends nothing.
- Provider lookups: `BidirectionalLookup` is not part of this model. Its indexer is assumed to give an empty set for an identity with no entries, as WatchListProviderTests.cs:118-126 expects.
- Server binding: `BidirectionalDictionary` is not part of this model. Its indexer is assumed to drop both earlier partners of the identity and the connection.
- GroupManagement.GroupManager.CreateGroup requires that some id is still free. With all 2^32 ids taken the source loops forever.
- GroupManagement.GroupManager: the group-updated event is not modelled, because nothing raises it.
- The counter `nextId` only grows cyclically: it wraps from int.MaxValue to int.MinValue.
- Observable.ObservableDictionary: the capacity constructor is not modelled separately, because it behaves as the default one.
- `BuddyListMessage`, `PersonMessage` and `RequestBuddyListMessage` are carried as values. Their wire codecs are not part of this model.
- The message classes and handlers of `SocialClient`, search, text, forwarding, invitations to groups and group updates are not part of this model.
- Four tests disagree with the code, and the model follows the code:
  - `WatchListTests.AddInvalid` (WatchListTests.cs:78-81), `ContainsInvalid` (124-127), `RemoveInvalid` (173-177) and `TryGetPersonInvalid` (230-235) expect ArgumentNullException for a null argument.
  - `WatchList.Add`, `Contains`, `Remove` and `TryGetPerson` (WatchList.cs:65-71, 81-85, 93-102, 104-111) do not check for null: Add stores and sends the null, Contains and Remove look it up, and TryGetPerson compares identities with it.
  - In the model all four are given a person or an identity, never null.

## Findings

| source | as written | input that shows it | evidently intended | confidence | as-written member | corrected member |
|---|---|---|---|---|---|---|
| Desktop/Tempest.Social/WatchList.cs:93-102 | `Remove` sends a Remove BuddyList message to the server even when nothing was removed | `Remove (p)` on a list without `p`: returns false and still sends `BuddyList (Remove, [p])` | send only when a person was removed, as WatchListTests.cs:192-193 expects | not executed | Client.RemoveAsWrittenNotifiesOnMiss | Client.RemoveNoticeIffChanged |
| Desktop/Tempest.Social/ObservableDictionary.cs:62-69 | the indexer signals Replace through `NotifyCollectionChangedEventArgs (action, item, index)`, which rejects Replace | `d[k] = v` with `k` already present: the value is stored, then ArgumentException is thrown and no listener is told | raise Replace on the dictionary and its Values view, carrying the new pair (the model's `Change` keeps one item, so the old value is not recorded) | not executed | Observable.ObservableDictionary.SetAsWritten | Observable.ObservableDictionary.Set |
