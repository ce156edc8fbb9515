/** The values the note renderer consumes: events, their delegation claims,
    people, settings, feed kinds, and the global stores it reads from.
    The stores are owned by other parts of the client and are updated
    concurrently; here each render pass sees one snapshot of them. */
module NostrTypes {

  datatype Option<+T> = None | Some(value: T)

  type EventId = nat
  type PublicKey = nat

  /** The event kinds the renderer distinguishes; every other kind is `OtherKind`. */
  datatype EventKind = TextNote | Repost | EncryptedDirectMessage | OtherKind(code: nat)

  /** The outcome of checking an event's delegation tag. */
  datatype Delegation =
    | NotDelegated
    | DelegatedBy(delegator: PublicKey)
    | InvalidDelegation(why: string)

  /** A signed note. Fields that the protocol library derives from the tags
      (subject, content warning, the replied-to id, proof of work, the
      delegation claim) are given here as already derived. `embedded` is the
      outcome of decoding `content` as a complete JSON event: `Some` exactly
      when that decoding succeeds. */
  datatype Event = Event(
    id: EventId,
    pubkey: PublicKey,
    kind: EventKind,
    content: string,
    subject: Option<string>,
    contentWarning: Option<string>,
    repliesTo: Option<EventId>,
    pow: nat,
    delegation: Delegation,
    embedded: Option<Event>)

  /** A profile record; `muted > 0` means the viewer muted this person. */
  datatype Person = Person(pubkey: PublicKey, name: Option<string>, muted: nat)

  /** The flags of the shared settings store that gate rendering. */
  datatype Settings = Settings(reposts: bool, directMessages: bool)

  datatype FeedKind =
    | General
    | Replies
    | Thread(id: EventId, referencedBy: EventId)
    | PersonFeed(pubkey: PublicKey)

  datatype Page = FeedPage(feed: FeedKind) | PersonPage(pubkey: PublicKey)

  /** Aggregated reactions to one event: (symbol, count) pairs and whether the
      viewer already reacted with the default symbol. */
  datatype Reactions = Reactions(counts: seq<(char, nat)>, selfReacted: bool)

  /** One snapshot of the global stores: events by id, people by key, the
      shared settings, the active feed, and the reply, deletion and reaction
      indexes (a missing entry of an index reads as empty). */
  datatype Stores = Stores(
    events: map<EventId, Event>,
    people: map<PublicKey, Person>,
    settings: Settings,
    feed: FeedKind,
    replies: EventId -> seq<EventId>,
    deletion: EventId -> Option<string>,
    reactions: EventId -> Reactions)

  /** The message the renderer sends to the protocol engine when the viewer likes a note. */
  datatype OverlordMessage = Like(id: EventId, pubkey: PublicKey)
}
