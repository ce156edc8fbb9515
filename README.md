# Note rendering logic of the gossip client, in Dafny

gossip is a desktop client for the nostr protocol. Its feed draws each
note with `render_note`, which calls `render_note_inner` for the note's
body (`src/ui/feed/note/mod.rs`). The drawing is done with egui. Under the
drawing sits a small layer of decisions and session-state updates, and
that layer is what this project models and proves properties of:

- **Visibility and author.** `render_note` checks the kind gate (text
  notes always; reposts and direct messages only when their settings are
  on). It then picks the effective author: the delegator under a valid
  delegation, otherwise the signer. A person missing from the store is
  replaced by a placeholder. Finally it decides whether the note is the
  main event of a thread view.
- **One rendered note.** `render_note_inner` fixes the avatar resize
  factor, the header markers and the offered actions. It then picks the
  body mode in priority order: raw, QR, content-warning gate, one of three
  repost shapes (embedded note, bare `#[0]` mention, plain quote), or
  normal content. An embedded note is rendered by the same function, so a
  chain of reposts unwraps as deep as it goes. It also builds the reaction
  row and chooses what Copy Contents copies.
- **Session state.** A class `ViewSession` holds the session fields. These
  are the viewed set, the approved set, the height map, the raw and QR
  slots, the QR cache keys, the draft, the reply target, the dismissed
  list, an outbox of Like messages and the active page. Each button is a
  method that changes only the fields it names.
- **Thread walk.** `RenderNote` is the imperative walk. For a note that
  passes the gate, it computes the note's visit (is it new, is it the main
  event, is its author muted, which depth label it carries), marks it
  viewed, records its height, and loops over its replies when the feed is
  threaded and the note is not a reply context. Its result is proved equal
  to a pure pre-order trace, `Walk`. What the frame of a visit holds, the
  muted placeholder or the inner rendering, is `ShownIn`.

Files: `nostr_types.dfy` (events, people, stores), `note_logic.dfy`
(pure decisions), `thread_walk.dfy` (the trace and its lemmas),
`session.dfy` (the session class). The reply loop of `render_note` is
its own method, `RenderReplies`, which calls `RenderNote` for each reply.

The global stores (events, people, settings, the active feed, and the
reply, deletion and reaction indexes) are passed in as one value,
`Stores`. The layout's feedback (the hovered note, whether the feed is
scrolling, measured heights) is passed in as `Pointer`. Decoding a
repost's content as a JSON event is not modelled; its outcome is the
`embedded` field of `Event`.

Some behaviours of the code that are easy to miss:
- Repost unwrapping has no depth cap. The embedded note is rendered by a
  recursive call of `render_note_inner` (mod.rs:332), and that call can
  enter the repost branch (mod.rs:311) again. `NestingFollowsEmbedding`
  states the depth.
- The embedded note is rendered with `as_reply_to = false` (mod.rs:340),
  so it gets its own under-row of actions.
- The raw and QR slots are independent fields (mod.rs:294, 296). When both
  hold a note, raw wins.
- The Reply button is skipped only for direct messages (mod.rs:404). View
  Thread is skipped for direct messages and for the main event (mod.rs:243,
  262).

## Model

| member | source | states |
|---|---|---|
| NoteLogic.ShouldRender | src/ui/feed/note/mod.rs:41-49 | a note is drawn exactly when it is a text note, a repost with reposts enabled, or a direct message with direct messages enabled |
| NoteLogic.Renderable | src/ui/feed/note/mod.rs:33-49 | the walk goes on only for an id present in the event store whose event passes the kind gate, and then with that stored event |
| NoteLogic.EffectiveAuthor | src/ui/feed/note/mod.rs:51-58 | the shown author is the delegator exactly under a valid delegation; an invalid delegation and no delegation both fall back to the signer |
| NoteLogic.ResolvePerson | src/ui/feed/note/mod.rs:60-63 | a stored profile is used as is; a missing one becomes a placeholder that carries the key, has no name and is not muted |
| NoteLogic.IsMainEvent | src/ui/feed/note/mod.rs:67-73 | a note is the main event exactly when the active feed is the thread view of that note |
| NoteLogic.ResizeFactor | src/ui/feed/note/mod.rs:167-174 | the avatar divisor is 180 exactly for reposts that read as an embedded note or a bare mention, i.e. reposts with no comment of their own; 100 otherwise |
| NoteLogic.Markers | src/ui/feed/note/mod.rs:209-239 | every marker shown reports a true fact (proof of work, invalid or valid delegation, deletion, repost, direct message), every such fact is shown, and the order is fixed without repeats |
| NoteLogic.OfferedActions | src/ui/feed/note/mod.rs:179-476 | the avatar, copy and dismiss are always offered; the parent link only for replies; View Thread except on the main event and direct messages; the under-row only outside a reply context, with Reply not on direct messages and the like button only when reactions are on |
| NoteLogic.ClassifyRepost | src/ui/feed/note/mod.rs:311-357 | a repost is an embedded note exactly when its content decodes as an event, otherwise a bare mention when empty and a plain quote when not; the three cases are exclusive and exhaustive |
| NoteLogic.SelectContentMode | src/ui/feed/note/mod.rs:293-360 | the body mode is raw iff the raw slot holds the note; else QR iff the QR slot does; else the warning gate iff a warning exists and the note is unapproved; else repost shapes for reposts; else normal |
| NoteLogic.ApprovalOnlyLiftsWarning | src/ui/feed/note/mod.rs:298-310 | after approving a note the warning gate is never selected for it, and every other mode it had is unchanged |
| NoteLogic.DefaultCounts | src/ui/feed/note/mod.rs:465-469 | the counts shown beside the like button are exactly those paired with the default symbol |
| NoteLogic.OtherReactions | src/ui/feed/note/mod.rs:471-475 | the labelled reactions are exactly the pairs whose symbol is not the default one |
| NoteLogic.DefaultCountsAppend | src/ui/feed/note/mod.rs:465-469 | the default counts of a concatenation are the default counts of each part, in order; with ReactionFiltersSingle this fixes the group as an order- and multiplicity-preserving filter |
| NoteLogic.OtherReactionsAppend | src/ui/feed/note/mod.rs:471-475 | the labelled reactions of a concatenation are those of each part, in order |
| NoteLogic.ReactionFiltersSingle | src/ui/feed/note/mod.rs:465-475 | a single pair with the default symbol contributes its count to the first group and nothing to the second; any other pair contributes itself to the second group only |
| NoteLogic.ReactionRowOf | src/ui/feed/note/mod.rs:449-475 | the like button shows a filled heart exactly when the viewer already reacted and an empty one otherwise, followed by the two groups |
| NoteLogic.ReactionsPartition | src/ui/feed/note/mod.rs:465-475 | every aggregated reaction pair is shown exactly once, in one of the two groups |
| NoteLogic.CopyContentsClip | src/ui/feed/note/mod.rs:374-384 | Copy Contents copies the serialised event while the note is shown raw, and exactly its content otherwise |
| NoteLogic.RenderInner | src/ui/feed/note/mod.rs:144-480 | a rendered note carries the given author, the resize factor, the subject, the markers for its deletion state, the deletion reason and the actions for its context; its body is the raw JSON, the QR code, the warning gate with the note's own warning, or a nested note exactly in the matching mode, and otherwise the content with its deletion flag and the "#[0]" mention forced exactly for a bare repost; a nested body is the embedded event rendered by the same rules with its own resolved author, as neither main event nor reply context, so every clause holds again one level down; a reaction row appears exactly outside a reply context with reactions on, and is the row of this note's reactions |
| NoteLogic.NestedNoteResolvedLikeTopLevel | src/ui/feed/note/mod.rs:312-341 | an embedded note is drawn only for a repost that decodes; its author is resolved by the same delegation and placeholder rules, and it gets the actions of a non-main, non-reply note |
| NoteLogic.BareRepostForcesMention | src/ui/feed/note/mod.rs:345-353 | a bare repost is drawn by the content renderer with the "#[0]" mention forced |
| NoteLogic.NestingFollowsEmbedding | src/ui/feed/note/mod.rs:311-344 | the rendered nesting is exactly as deep as the chain of embedded reposts the mode selection unwraps: there is no depth cap |
| ThreadWalk.VisitOf | src/ui/feed/note/mod.rs:65-108 | the visit of a note against a given viewed set: new iff the note is not in it, main iff the feed is its thread, muted iff its resolved author is muted, and a depth label iff threaded and below the root level |
| ThreadWalk.ShownIn | src/ui/feed/note/mod.rs:95-108 | a visit's frame holds the muted placeholder exactly when the visit is muted; otherwise it is the inner rendering of the note from the pass's stores and session, with the effective author resolved from the people store and the visit's main-event and reply-context flags, so its actions, markers, body mode and reaction row are the ones the inner renderer promises |
| ThreadWalk.WalkVisits | src/ui/feed/note/mod.rs:65-139 | every visit of a walk, at every depth, is the visit of a stored note computed from the viewed set that the pass's earlier visits left |
| ThreadWalk.WalkListVisits | src/ui/feed/note/mod.rs:123-138 | the same for every visit in the replies' walks |
| ThreadWalk.WalkVisitDecisions | src/ui/feed/note/mod.rs:65-115 | for every visit of a walk: its note is stored and passes the gate; it is new exactly when neither the viewed set at the call nor an earlier visit of the pass marked it viewed; it is main exactly when the feed is its thread; its frame is the muted placeholder exactly when its resolved author is muted; otherwise it is the inner rendering with that author and the actions for its flags, raw exactly when the raw slot holds the note, QR exactly when only the QR slot does, behind the warning gate exactly when neither does and it carries an unapproved warning, and with a reaction row exactly outside a reply context with reactions on, that row being the one for its own reactions |
| ThreadWalk.WalkEmptyExactly | src/ui/feed/note/mod.rs:33-49 | the walk of a note visits nothing exactly when out of fuel or when the note is absent or filtered, and otherwise starts with that note |
| ThreadWalk.WalkListEmptyExactly | src/ui/feed/note/mod.rs:123-138 | the replies' walks visit nothing exactly when out of fuel or when no reply is present and passes the gate |
| ThreadWalk.HoveredIdsVisited | src/ui/feed/note/mod.rs:112-115 | the notes a pass marks viewed are exactly its visited notes that were hovered while the feed was not scrolling |
| ThreadWalk.RecordedHeights | src/ui/feed/note/mod.rs:117-119 | after a pass every visited note has its measured height recorded and every other entry is unchanged |
| ThreadWalk.WalkSkipsUnrenderable | src/ui/feed/note/mod.rs:33-49 | an absent or filtered note visits nothing, so it records no height, marks nothing viewed and does not descend |
| ThreadWalk.WalkVisitsRootFirst | src/ui/feed/note/mod.rs:95-119 | a renderable note is visited first, muted or not; a muted author's note shows the placeholder and is still visited |
| ThreadWalk.WalkFlatVisitsAtMostRoot | src/ui/feed/note/mod.rs:123 | outside a threaded feed, or in a reply context, the walk never descends |
| ThreadWalk.WalkShape | src/ui/feed/note/mod.rs:123-139 | a walk starts at its own renderable root; every later visit is a renderable note with the root's flags, at least one level deeper and within the fuel bound |
| ThreadWalk.WalkListShape | src/ui/feed/note/mod.rs:125-138 | every visit in the replies' walks is a renderable note with the given flags, at least at the replies' level and within the fuel bound |
| ThreadWalk.WalkListSnoc | src/ui/feed/note/mod.rs:125-138 | replies are rendered in reply-index order: one more reply at the end appends its walk, which sees the viewed set left by the replies before it |
| ThreadWalk.ExampleThread | src/ui/feed/note/mod.rs:123-139 | note 1 with replies 2 and 3, where 2 has reply 4: the walk visits 1 at depth 0, 2 at depth 1, 4 at depth 2, then 3 at depth 1, so a reply's subtree comes before its next sibling |
| Session.Toggled | src/ui/feed/note/mod.rs:422-426 | a click on note `id` makes the slot hold `id` exactly when it did not hold it before; otherwise the slot is cleared |
| Session.RawClickShowsOnlyThatNote | src/ui/feed/note/mod.rs:294-295 | after a Raw click, a note is shown raw exactly when it is the clicked note and it was not raw before, so at most one note is raw |
| Session.RawWinsOverQr | src/ui/feed/note/mod.rs:294-297 | a note held by both the raw and the QR slot is shown raw |
| Session.QuotedDraft | src/ui/feed/note/mod.rs:394-398 | quoting keeps the old draft as a prefix and puts the reference at the end, with one space between them unless the draft was empty or already ended in a space |
| Session.QuoteSpacing | src/ui/feed/note/mod.rs:394-398 | an empty draft becomes exactly the reference; a draft ending in a space gets the reference directly; any other draft gets one space and then the reference |
| Session.ViewSession.Approve | src/ui/feed/note/mod.rs:307-310 | Show Post adds the note to the approved set and removes only that note's height entry |
| Session.ViewSession.ToggleRaw | src/ui/feed/note/mod.rs:422-426 | the raw slot becomes the toggle of its old value for the clicked note |
| Session.ViewSession.ToggleQr | src/ui/feed/note/mod.rs:437-443 | the QR slot becomes the toggle of its old value, and the cached "feedqr" image is dropped in both branches |
| Session.ViewSession.Quote | src/ui/feed/note/mod.rs:394-398 | the draft becomes the quoted draft of its old value |
| Session.ViewSession.Reply | src/ui/feed/note/mod.rs:404-411 | the reply slot points at the note |
| Session.ViewSession.Dismiss | src/ui/feed/note/mod.rs:257-259 | the note is appended to the dismissed list |
| Session.ViewSession.Like | src/ui/feed/note/mod.rs:454-464 | one Like message is sent, carrying the note's id and the signer's key, not the delegator's |
| Session.ViewSession.ViewThread | src/ui/feed/note/mod.rs:243-249 | the page becomes the thread view of the note, referenced by itself |
| Session.ViewSession.OpenParent | src/ui/feed/note/mod.rs:192-203 | for a reply (the only notes that draw the link), the page becomes the thread of the replied-to note, referenced by this note |
| Session.ViewSession.OpenAuthor | src/ui/feed/note/mod.rs:179-184 | the page becomes the author's person page |
| Session.ViewSession.MarkViewed | src/ui/feed/note/mod.rs:112-115 | the note joins the viewed set exactly when hovered while the feed is not scrolling; nothing leaves it |
| Session.ViewSession.RecordHeight | src/ui/feed/note/mod.rs:117-119 | the note's measured height replaces any earlier one |
| Session.ViewSession.RenderNote | src/ui/feed/note/mod.rs:19-139 | the notes visited are exactly the pure pre-order walk; the viewed set grows by exactly the hovered visited notes; the height map records each visit in order |
| Session.ViewSession.RenderReplies | src/ui/feed/note/mod.rs:123-138 | the reply loop visits exactly the walks of the replies in reply-index order, each starting from the viewed set the earlier ones left; the viewed set and the height map grow as in RenderNote |

## Left out

- Drawing: egui frames, layout, separators, theming, text styles, the avatar image and its pixel size, and the floating-point indent width. Only the decisions behind them are kept: the resize factor and the depth label.
- The click handlers run during drawing in the source, so a click can affect notes drawn later in the same frame. In the model, each handler is a separate method called between passes. This ordering within a frame is not modelled. One consequence: Show Post removes the note's height entry (mod.rs:309), but the same `render_note` call re-inserts it at mod.rs:119. So in the source a top-level note's height entry is never missing after a frame, while `Approve` followed by no pass leaves it missing.
- The global stores are read as one consistent snapshot (`Stores`). Concurrent updates between two reads of one pass are not modelled.
- JSON decoding and encoding, bech32 and hex encoding of ids: the decoding result is the `embedded` field; the textual reference for Quote is a parameter.
- Copy ID, Copy ID as hex and Copy Contents write to the clipboard. Only the choice of what Copy Contents copies is modelled.
- The QR image and the time-ago label are not modelled. The QR text is the trimmed content; only the QR mode and the cache-key removal are kept.
- `content::render_content` and `render_note_maybe_fake` are not part of this model. A body drawn by `render_content` is recorded with its deleted flag and forced mention. Each reply is assumed to be rendered by `render_note` itself.
- `DbPerson::new` is not part of this model. The placeholder is assumed to carry only the key and to be unmuted.
- `set_page` is modelled as an assignment of the page; any history it keeps is not part of this model.
- The avatar fetch and the `to_overlord` channel are not modelled; sending is the append to `outbox`, and send failures are ignored as in the source.
- ThreadWalk.Walk: the source walks the reply graph without a bound; the model stops after `fuel` levels, so on a cyclic or very deep graph it is a truncation of the source's walk.
- The dismissed list is a global store in the source; here it is a field of the session.
- Heights are unbounded integers standing for the measured floating-point heights.
- ThreadWalk.RecordedHeights: the pointer's hover state and measured heights are keyed by note id, not by the drawing. In the source, each drawing of a note has its own frame, its own `hovered()` (mod.rs:113) and its own `bottom.y - top.y` (mod.rs:119). A note drawn twice in one pass (a reply graph with a cycle or a shared reply) therefore gets the same hover answer and the same measured height at every drawing. "Recorded height == measured(id)" is the height of the note's last drawing only under this keying.
- The `unwrap()` calls that can panic are not modelled: bech32 encoding of the id (mod.rs:252, 398) and JSON serialisation of the event (mod.rs:295, 380). Each is treated as always succeeding.
