// The presence messages exchanged by the server (SocialServer.cs) and the
// client mirror (WatchList.cs). Their wire codecs, PersonMessage and
// BuddyListMessage, are not part of this model: a message is its fields.

module Messages {
  import opened Common
  import opened People

  datatype SocialMessage =
    | RequestBuddyList                                   // RequestBuddyListMessage
    | BuddyList(action: ChangeAction, people: seq<Person>) // BuddyListMessage
    | PersonMessage(person: Person)                      // PersonMessage
}
