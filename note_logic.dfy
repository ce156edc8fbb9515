/** The decisions `render_note` and `render_note_inner` take before drawing
    anything: whether a note is shown at all, whose note it is, which
    markers and actions its header and under-row carry, and which of the
    content modes fills its body. Drawing itself is not modelled; the
    result of rendering one note is the `InnerView` value describing what
    is drawn. */
module NoteLogic {
  import opened NostrTypes

  /* ---------- visibility and author ---------- */

  /** The kind gate: only text notes, reposts (when enabled) and direct
      messages (when enabled) are rendered. */
  function ShouldRender(kind: EventKind, settings: Settings): (r: bool)
    ensures r <==> kind == TextNote
                   || (kind == Repost && settings.reposts)
                   || (kind == EncryptedDirectMessage && settings.directMessages)
  {
    !(kind != TextNote
      && !(settings.reposts && kind == Repost)
      && !(settings.directMessages && kind == EncryptedDirectMessage))
  }

  /** The event `render_note` goes on to draw for `id`, if any: the event
      must be in the store and pass the kind gate. */
  function Renderable(w: Stores, id: EventId): (r: Option<Event>)
    ensures r.Some? <==> id in w.events && ShouldRender(w.events[id].kind, w.settings)
    ensures r.Some? ==> r.value == w.events[id]
  {
    if id !in w.events then None
    else if !ShouldRender(w.events[id].kind, w.settings) then None
    else Some(w.events[id])
  }

  /** The key whose profile is shown: the delegator for a valid delegation,
      the signer otherwise (an invalid delegation only adds a marker). */
  function EffectiveAuthor(e: Event): (r: PublicKey)
    ensures e.delegation.DelegatedBy? ==> r == e.delegation.delegator
    ensures !e.delegation.DelegatedBy? ==> r == e.pubkey
  {
    match e.delegation
    case DelegatedBy(delegator) => delegator
    case _ => e.pubkey
  }

  /** The person shown for `key`: the stored profile, or else a fresh
      placeholder that carries only the key and is not muted. */
  function ResolvePerson(people: map<PublicKey, Person>, key: PublicKey): (r: Person)
    ensures key in people ==> r == people[key]
    ensures key !in people ==> r.pubkey == key && r.name == None && r.muted == 0
  {
    if key in people then people[key] else Person(key, None, 0)
  }

  /** A note is the main event when the active feed is the thread view of that note. */
  function IsMainEvent(feed: FeedKind, id: EventId): (r: bool)
    ensures r <==> feed.Thread? && feed.id == id
  {
    match feed
    case Thread(threadId, _) => threadId == id
    case _ => false
  }

  /* ---------- header ---------- */

  /** A repost without comment (empty, or a whole embedded event) shrinks
      its own avatar by dividing by 180 instead of 100. */
  function ResizeFactor(e: Event): (r: nat)
    ensures r == 180 || r == 100
    ensures r == 180 <==> e.kind == Repost && ClassifyRepost(e) != PlainQuote
  {
    if e.kind == Repost && (e.content == [] || e.embedded.Some?) then 180 else 100
  }

  datatype Marker =
    | PowMarker(pow: nat)
    | InvalidDelegationMarker(why: string)
    | DelegatedMarker
    | DeletedMarker
    | RepostedMarker
    | EncryptedDmMarker

  /** The position of a marker in the header row. */
  function MarkerRank(m: Marker): nat
  {
    match m
    case PowMarker(_) => 0
    case InvalidDelegationMarker(_) => 1
    case DelegatedMarker => 1
    case DeletedMarker => 2
    case RepostedMarker => 3
    case EncryptedDmMarker => 4
  }

  /** The fact about the event that a marker reports. */
  predicate MarkerHolds(e: Event, deleted: bool, m: Marker)
  {
    match m
    case PowMarker(n) => e.pow > 0 && n == e.pow
    case InvalidDelegationMarker(why) => e.delegation == InvalidDelegation(why)
    case DelegatedMarker => e.delegation.DelegatedBy?
    case DeletedMarker => deleted
    case RepostedMarker => e.kind == Repost
    case EncryptedDmMarker => e.kind == EncryptedDirectMessage
  }

  /** The marker labels of the first header row: every marker shown reports
      a true fact, every true fact is shown, and they appear in the fixed
      order POW, delegation, DELETED, REPOSTED, ENCRYPTED DM. */
  function Markers(e: Event, deleted: bool): (r: seq<Marker>)
    ensures forall i, j :: 0 <= i < j < |r| ==> MarkerRank(r[i]) < MarkerRank(r[j])
    ensures forall m :: m in r ==> MarkerHolds(e, deleted, m)
    ensures e.pow > 0 ==> PowMarker(e.pow) in r
    ensures e.delegation.InvalidDelegation? ==> InvalidDelegationMarker(e.delegation.why) in r
    ensures e.delegation.DelegatedBy? ==> DelegatedMarker in r
    ensures deleted ==> DeletedMarker in r
    ensures e.kind == Repost ==> RepostedMarker in r
    ensures e.kind == EncryptedDirectMessage ==> EncryptedDmMarker in r
  {
    (if e.pow > 0 then [PowMarker(e.pow)] else [])
    + (match e.delegation
       case InvalidDelegation(why) => [InvalidDelegationMarker(why)]
       case DelegatedBy(_) => [DelegatedMarker]
       case NotDelegated => [])
    + (if deleted then [DeletedMarker] else [])
    + (if e.kind == Repost then [RepostedMarker] else [])
    + (if e.kind == EncryptedDirectMessage then [EncryptedDmMarker] else [])
  }

  /** The clickable actions of a rendered note. */
  datatype Action =
    | OpenAuthor      // the avatar
    | OpenParent      // the "replies to" link
    | ViewThread      // menu entry and arrow button
    | CopyId
    | CopyIdHex
    | Dismiss
    | CopyContents    // under-row from here on
    | Quote
    | Reply
    | ShowRaw
    | ShowQr
    | React

  /** Which actions a note offers: the avatar and the menu's copy and dismiss
      entries always; the parent link when the note replies to something;
      View Thread except on the main event and on direct messages; the
      under-row only outside a reply context, without Reply on direct
      messages and with the reaction button only when reactions are enabled. */
  function OfferedActions(e: Event, isMain: bool, asReplyTo: bool, reactions: bool): (r: set<Action>)
    ensures OpenAuthor in r && CopyId in r && CopyIdHex in r && Dismiss in r
    ensures OpenParent in r <==> e.repliesTo.Some?
    ensures ViewThread in r <==> !isMain && e.kind != EncryptedDirectMessage
    ensures CopyContents in r <==> !asReplyTo
    ensures Quote in r <==> !asReplyTo
    ensures ShowRaw in r <==> !asReplyTo
    ensures ShowQr in r <==> !asReplyTo
    ensures Reply in r <==> !asReplyTo && e.kind != EncryptedDirectMessage
    ensures React in r <==> !asReplyTo && reactions
  {
    var header := {OpenAuthor, CopyId, CopyIdHex, Dismiss}
      + (if e.repliesTo.Some? then {OpenParent} else {})
      + (if !isMain && e.kind != EncryptedDirectMessage then {ViewThread} else {});
    var underRow :=
      if asReplyTo then {}
      else ({CopyContents, Quote, ShowRaw, ShowQr}
            + (if e.kind != EncryptedDirectMessage then {Reply} else {})
            + (if reactions then {React} else {}));
    header + underRow
  }

  /* ---------- main content ---------- */

  /** How the body of a repost is read. */
  datatype RepostShape = EmbeddedNote(inner: Event) | BareMention | PlainQuote

  /** A repost whose content decodes as an event embeds it; otherwise an
      empty one is a bare mention and a non-empty one a quote. */
  function ClassifyRepost(e: Event): (r: RepostShape)
    ensures r.EmbeddedNote? <==> e.embedded.Some?
    ensures r.EmbeddedNote? ==> r.inner == e.embedded.value
    ensures r == BareMention <==> e.embedded.None? && e.content == []
    ensures r == PlainQuote <==> e.embedded.None? && e.content != []
  {
    match e.embedded
    case Some(inner) => EmbeddedNote(inner)
    case None => if e.content == [] then BareMention else PlainQuote
  }

  datatype ContentMode =
    | RawMode
    | QrMode
    | WarningMode(warning: string)
    | RepostMode(shape: RepostShape)
    | NormalMode

  /** The part of the session state the inner renderer reads: the raw and
      QR slots, the notes approved past their content warning, and the UI's
      own copy of the reactions setting. */
  datatype SessionView = SessionView(
    renderRaw: Option<EventId>,
    renderQr: Option<EventId>,
    approved: set<EventId>,
    reactions: bool)

  /** A note is held behind its content warning until approved. */
  predicate Gated(e: Event, s: SessionView)
  {
    e.contentWarning.Some? && e.id !in s.approved
  }

  /** The body mode, by priority: raw, then QR, then the content-warning
      gate, then the repost shapes, then normal content. */
  function SelectContentMode(e: Event, s: SessionView): (r: ContentMode)
    ensures r == RawMode <==> s.renderRaw == Some(e.id)
    ensures r == QrMode <==> s.renderRaw != Some(e.id) && s.renderQr == Some(e.id)
    ensures r.WarningMode? <==>
              s.renderRaw != Some(e.id) && s.renderQr != Some(e.id) && Gated(e, s)
    ensures r.WarningMode? ==> e.contentWarning == Some(r.warning)
    ensures r.RepostMode? <==>
              s.renderRaw != Some(e.id) && s.renderQr != Some(e.id) && !Gated(e, s)
              && e.kind == Repost
    ensures r.RepostMode? ==> r.shape == ClassifyRepost(e)
    ensures r == NormalMode <==>
              s.renderRaw != Some(e.id) && s.renderQr != Some(e.id) && !Gated(e, s)
              && e.kind != Repost
  {
    if s.renderRaw == Some(e.id) then RawMode
    else if s.renderQr == Some(e.id) then QrMode
    else if e.contentWarning.Some? && e.id !in s.approved then WarningMode(e.contentWarning.value)
    else if e.kind == Repost then RepostMode(ClassifyRepost(e))
    else NormalMode
  }

  /** Approving a note only ever lifts its content-warning gate: afterwards
      the gate is never selected for it, and every other mode is unchanged. */
  lemma ApprovalOnlyLiftsWarning(e: Event, s: SessionView)
    ensures !SelectContentMode(e, s.(approved := s.approved + {e.id})).WarningMode?
    ensures !SelectContentMode(e, s).WarningMode? ==>
              SelectContentMode(e, s.(approved := s.approved + {e.id})) == SelectContentMode(e, s)
  {
  }

  /* ---------- reactions ---------- */

  const DefaultReaction: char := '+'

  /** The counts shown next to the like button: those of the default symbol. */
  function DefaultCounts(rs: seq<(char, nat)>): (r: seq<nat>)
    ensures |r| <= |rs|
    ensures forall n :: n in r ==> (DefaultReaction, n) in rs
    ensures forall n :: (DefaultReaction, n) in rs ==> n in r
  {
    if rs == [] then []
    else (if rs[0].0 == DefaultReaction then [rs[0].1] else []) + DefaultCounts(rs[1..])
  }

  /** The other symbols and their counts, shown after the default ones. */
  function OtherReactions(rs: seq<(char, nat)>): (r: seq<(char, nat)>)
    ensures |r| <= |rs|
    ensures forall p :: p in r <==> p in rs && p.0 != DefaultReaction
  {
    if rs == [] then []
    else (if rs[0].0 != DefaultReaction then [rs[0]] else []) + OtherReactions(rs[1..])
  }

  /** Every aggregated pair is shown exactly once, in one of the two groups. */
  lemma {:induction false} ReactionsPartition(rs: seq<(char, nat)>)
    ensures |DefaultCounts(rs)| + |OtherReactions(rs)| == |rs|
  {
    if rs != [] {
      ReactionsPartition(rs[1..]);
    }
  }

  /** Both groups keep the aggregator's order and multiplicity: each is a
      filter that works pair by pair (with ReactionFiltersSingle). */
  lemma {:induction false} DefaultCountsAppend(a: seq<(char, nat)>, b: seq<(char, nat)>)
    decreases |a|
    ensures DefaultCounts(a + b) == DefaultCounts(a) + DefaultCounts(b)
  {
    if a == [] {
      assert a + b == b;
    } else {
      assert (a + b)[0] == a[0] && (a + b)[1..] == a[1..] + b;
      DefaultCountsAppend(a[1..], b);
      var head := if a[0].0 == DefaultReaction then [a[0].1] else [];
      assert DefaultCounts(a + b) == head + DefaultCounts(a[1..] + b);
      assert DefaultCounts(a) == head + DefaultCounts(a[1..]);
    }
  }

  lemma OtherReactionsCons(x: (char, nat), rest: seq<(char, nat)>)
    ensures OtherReactions([x] + rest) == (if x.0 != DefaultReaction then [x] else []) + OtherReactions(rest)
  {
    assert ([x] + rest)[0] == x && ([x] + rest)[1..] == rest;
  }

  lemma {:induction false} OtherReactionsAppend(a: seq<(char, nat)>, b: seq<(char, nat)>)
    decreases |a|
    ensures OtherReactions(a + b) == OtherReactions(a) + OtherReactions(b)
  {
    if a == [] {
      assert a + b == b;
    } else {
      var x, rest := a[0], a[1..];
      assert a == [x] + rest;
      assert a + b == [x] + (rest + b);
      OtherReactionsAppend(rest, b);
      OtherReactionsCons(x, rest + b);
      OtherReactionsCons(x, rest);
    }
  }

  /** A single pair goes to exactly one group, unchanged. */
  lemma ReactionFiltersSingle(p: (char, nat))
    ensures DefaultCounts([p]) == if p.0 == DefaultReaction then [p.1] else []
    ensures OtherReactions([p]) == if p.0 != DefaultReaction then [p] else []
  {
    assert [p][1..] == [];
  }

  /** The reaction part of the under-row. */
  datatype ReactionRow = ReactionRow(icon: char, defaultCounts: seq<nat>, others: seq<(char, nat)>)

  const FilledHeart: char := '\U{2665}'
  const EmptyHeart: char := '\U{2661}'

  /** The like button shows a filled heart exactly when the viewer already
      reacted, and an empty one otherwise; the two groups follow it. */
  function ReactionRowOf(r: Reactions): (row: ReactionRow)
    ensures row.icon == FilledHeart <==> r.selfReacted
    ensures row.icon == EmptyHeart <==> !r.selfReacted
    ensures row.defaultCounts == DefaultCounts(r.counts) && row.others == OtherReactions(r.counts)
  {
    ReactionRow(if r.selfReacted then FilledHeart else EmptyHeart,
                DefaultCounts(r.counts), OtherReactions(r.counts))
  }

  /* ---------- copy ---------- */

  datatype Clip = RawJsonClip | TextClip(text: string)

  /** Copy Contents copies the serialised event while the note is shown raw,
      and its content otherwise. */
  function CopyContentsClip(e: Event, renderRaw: Option<EventId>): (c: Clip)
    ensures c.TextClip? <==> renderRaw != Some(e.id)
    ensures c.TextClip? ==> c.text == e.content
  {
    if renderRaw == Some(e.id) then RawJsonClip else TextClip(e.content)
  }

  /* ---------- one rendered note ---------- */

  /** The reference that stands in for the absent content of a bare repost. */
  const RepostMention: string := "#[0]"

  datatype Body =
    | RawJson
    | QrCode
    | WarningGate(warning: string)                   // with its Show Post button
    | Nested(view: InnerView)                        // between two separators
    | RenderedContent(deleted: bool, forcedMention: Option<string>)

  datatype InnerView = InnerView(
    author: Person,
    resizeFactor: nat,
    markers: seq<Marker>,
    actions: set<Action>,
    subject: Option<string>,
    body: Body,
    deletionReason: Option<string>,
    reactions: Option<ReactionRow>)

  /** What `render_note_inner` draws for `e`. An embedded note is rendered
      by the same function, with its own author resolved by the same rules,
      as neither the main event nor a reply context; it may itself be a
      repost, so nesting goes as deep as the embedding does. */
  function RenderInner(w: Stores, s: SessionView, e: Event, author: Person,
                       isMain: bool, asReplyTo: bool): (v: InnerView)
    decreases e
    ensures v.author == author
    ensures v.markers == Markers(e, w.deletion(e.id).Some?)
    ensures v.actions == OfferedActions(e, isMain, asReplyTo, s.reactions)
    ensures v.reactions.Some? <==> !asReplyTo && s.reactions
    ensures v.reactions.Some? ==> v.reactions.value == ReactionRowOf(w.reactions(e.id))
    ensures v.resizeFactor == ResizeFactor(e)
    ensures v.subject == e.subject
    ensures v.deletionReason == w.deletion(e.id)
    ensures v.body == RawJson <==> SelectContentMode(e, s) == RawMode
    ensures v.body == QrCode <==> SelectContentMode(e, s) == QrMode
    ensures v.body.WarningGate? <==> SelectContentMode(e, s).WarningMode?
    ensures v.body.WarningGate? ==> e.contentWarning == Some(v.body.warning)
    ensures v.body.Nested? <==> SelectContentMode(e, s).RepostMode? && ClassifyRepost(e).EmbeddedNote?
    ensures v.body.RenderedContent? ==>
              && v.body.deleted == w.deletion(e.id).Some?
              && (v.body.forcedMention.Some? <==> SelectContentMode(e, s) == RepostMode(BareMention))
              && (v.body.forcedMention.Some? ==> v.body.forcedMention.value == RepostMention)
    ensures v.body.Nested? ==>
              && e.embedded.Some?
              && v.body.view == RenderInner(w, s, e.embedded.value,
                                            ResolvePerson(w.people, EffectiveAuthor(e.embedded.value)),
                                            false, false)
  {
    var deletion := w.deletion(e.id);
    var body :=
      match SelectContentMode(e, s)
      case RawMode => RawJson
      case QrMode => QrCode
      case WarningMode(text) => WarningGate(text)
      case RepostMode(EmbeddedNote(inner)) =>
        Nested(RenderInner(w, s, inner, ResolvePerson(w.people, EffectiveAuthor(inner)), false, false))
      case RepostMode(BareMention) => RenderedContent(deletion.Some?, Some(RepostMention))
      case RepostMode(PlainQuote) => RenderedContent(deletion.Some?, None)
      case NormalMode => RenderedContent(deletion.Some?, None);
    InnerView(
      author,
      ResizeFactor(e),
      Markers(e, deletion.Some?),
      OfferedActions(e, isMain, asReplyTo, s.reactions),
      e.subject,
      body,
      deletion,
      if !asReplyTo && s.reactions then Some(ReactionRowOf(w.reactions(e.id))) else None)
  }

  /** An embedded note is resolved exactly like a top-level one: the author
      under delegation, with the placeholder fallback, and the actions of a
      note that is neither the main event nor a reply context. */
  lemma NestedNoteResolvedLikeTopLevel(w: Stores, s: SessionView, e: Event, author: Person,
                                       isMain: bool, asReplyTo: bool)
    requires RenderInner(w, s, e, author, isMain, asReplyTo).body.Nested?
    ensures e.kind == Repost && e.embedded.Some?
    ensures var inner := RenderInner(w, s, e, author, isMain, asReplyTo).body.view;
            && inner.author == ResolvePerson(w.people, EffectiveAuthor(e.embedded.value))
            && inner.actions == OfferedActions(e.embedded.value, false, false, s.reactions)
  {
  }

  /** A bare repost is drawn by the content renderer with the "#[0]" mention forced. */
  lemma BareRepostForcesMention(w: Stores, s: SessionView, e: Event, author: Person,
                                isMain: bool, asReplyTo: bool)
    requires SelectContentMode(e, s) == RepostMode(BareMention)
    ensures RenderInner(w, s, e, author, isMain, asReplyTo).body
            == RenderedContent(w.deletion(e.id).Some?, Some(RepostMention))
  {
  }

  /** How many nested frames a rendered note contains. */
  function NestingDepth(v: InnerView): nat
  {
    match v.body
    case Nested(inner) => 1 + NestingDepth(inner)
    case _ => 0
  }

  /** How many levels of embedded events the mode selection unwraps. */
  function UnwrapDepth(e: Event, s: SessionView): nat
    decreases e
  {
    match SelectContentMode(e, s)
    case RepostMode(EmbeddedNote(inner)) => 1 + UnwrapDepth(inner, s)
    case _ => 0
  }

  /** Repost unwrapping has no depth cap: the rendered nesting is exactly as
      deep as the chain of embedded reposts the mode selection unwraps. */
  lemma {:induction false} NestingFollowsEmbedding(w: Stores, s: SessionView, e: Event,
                                                   author: Person, isMain: bool, asReplyTo: bool)
    decreases e
    ensures NestingDepth(RenderInner(w, s, e, author, isMain, asReplyTo)) == UnwrapDepth(e, s)
  {
    match SelectContentMode(e, s)
    case RepostMode(EmbeddedNote(inner)) =>
      NestingFollowsEmbedding(w, s, inner, ResolvePerson(w.people, EffectiveAuthor(inner)), false, false);
    case _ =>
  }
}
