/** The per-session view state that rendering and the note's buttons
    update in place: which notes were seen, which were approved past their
    content warning, their last measured heights, the raw and QR slots,
    the compose draft and reply target, the dismissed list, the messages
    sent to the protocol engine, and the active page. */
module Session {
  import opened NostrTypes
  import opened NoteLogic
  import opened ThreadWalk

  /** The key under which the feed's QR image is cached. */
  const FeedQrKey: string := "feedqr"

  /** A raw or QR slot after a click on note `id`: it takes the note unless
      it already held it, in which case it is cleared. */
  function Toggled(slot: Option<EventId>, id: EventId): (r: Option<EventId>)
    ensures r == Some(id) <==> slot != Some(id)
    ensures r != Some(id) ==> r == None
  {
    if slot != Some(id) then Some(id) else None
  }

  /** After a Raw click on note `id`, the note shown raw is `id` exactly when
      it was not shown raw before, and no other note is shown raw. */
  lemma RawClickShowsOnlyThatNote(e: Event, s: SessionView, id: EventId)
    ensures SelectContentMode(e, s.(renderRaw := Toggled(s.renderRaw, id))) == RawMode
            <==> e.id == id && s.renderRaw != Some(id)
  {
  }

  /** The raw and QR slots are independent: when both hold the note, raw wins. */
  lemma RawWinsOverQr(e: Event, s: SessionView)
    requires s.renderRaw == Some(e.id) && s.renderQr == Some(e.id)
    ensures SelectContentMode(e, s) == RawMode
  {
  }

  /** Whether quoting into `draft` first needs a space. */
  predicate NeedsSeparator(draft: string)
  {
    draft != [] && draft[|draft| - 1] != ' '
  }

  /** The draft after the Quote action appends `reference`: the old draft is
      kept as a prefix, the reference ends the draft, and they are separated
      by exactly one space unless the draft was empty or already ended in one. */
  function QuotedDraft(draft: string, reference: string): (r: string)
    ensures |draft| <= |r| && r[..|draft|] == draft
    ensures |reference| <= |r| && r[|r| - |reference|..] == reference
    ensures |r| == |draft| + |reference| + (if NeedsSeparator(draft) then 1 else 0)
    ensures |r| > |reference| ==> r[|r| - |reference| - 1] == ' '
  {
    (if NeedsSeparator(draft) then draft + " " else draft) + reference
  }

  /** The three spacing cases of the Quote action. */
  lemma QuoteSpacing(draft: string, reference: string)
    ensures draft == [] ==> QuotedDraft(draft, reference) == reference
    ensures draft != [] && draft[|draft| - 1] == ' ' ==> QuotedDraft(draft, reference) == draft + reference
    ensures draft != [] && draft[|draft| - 1] != ' ' ==> QuotedDraft(draft, reference) == draft + " " + reference
  {
    assert [] + reference == reference;
  }

  class ViewSession {
    var viewed: set<EventId>
    var approved: set<EventId>
    var height: map<EventId, int>
    var renderRaw: Option<EventId>
    var renderQr: Option<EventId>
    var qrCodes: set<string>
    var draft: string
    var replyingTo: Option<EventId>
    var dismissed: seq<EventId>
    var outbox: seq<OverlordMessage>
    var page: Page
    var reactions: bool

    /** A fresh session: nothing seen, approved, measured, toggled or drafted. */
    constructor (reactions: bool, page: Page)
      ensures viewed == {} && approved == {} && height == map[]
      ensures renderRaw == None && renderQr == None && qrCodes == {}
      ensures draft == [] && replyingTo == None && dismissed == [] && outbox == []
      ensures this.page == page && this.reactions == reactions
    {
      viewed, approved, height := {}, {}, map[];
      renderRaw, renderQr, qrCodes := None, None, {};
      draft, replyingTo, dismissed, outbox := [], None, [], [];
      this.page, this.reactions := page, reactions;
    }

    /** The part of this session the inner renderer reads. */
    function View(): SessionView
      reads this`renderRaw, this`renderQr, this`approved, this`reactions
    {
      SessionView(renderRaw, renderQr, approved, reactions)
    }

    /** "Show Post": the note is approved and its stale height forgotten. */
    method Approve(id: EventId)
      modifies this`approved, this`height
      ensures approved == old(approved) + {id}
      ensures height == old(height) - {id}
    {
      approved := approved + {id};
      height := height - {id};
    }

    /** The Raw button of note `id`. */
    method ToggleRaw(id: EventId)
      modifies this`renderRaw
      ensures renderRaw == Toggled(old(renderRaw), id)
    {
      if renderRaw != Some(id) {
        renderRaw := Some(id);
      } else {
        renderRaw := None;
      }
    }

    /** The QR button of note `id`; either way the cached feed QR image is dropped. */
    method ToggleQr(id: EventId)
      modifies this`renderQr, this`qrCodes
      ensures renderQr == Toggled(old(renderQr), id)
      ensures qrCodes == old(qrCodes) - {FeedQrKey}
    {
      if renderQr != Some(id) {
        renderQr := Some(id);
        qrCodes := qrCodes - {FeedQrKey};
      } else {
        renderQr := None;
        qrCodes := qrCodes - {FeedQrKey};
      }
    }

    /** The Quote button: `reference` is the note's textual id. */
    method Quote(reference: string)
      modifies this`draft
      ensures draft == QuotedDraft(old(draft), reference)
    {
      if !(draft != [] && draft[|draft| - 1] == ' ') && draft != [] {
        draft := draft + [' '];
      }
      draft := draft + reference;
    }

    /** The Reply button: the single reply slot now points at the note. */
    method Reply(id: EventId)
      modifies this`replyingTo
      ensures replyingTo == Some(id)
    {
      replyingTo := Some(id);
    }

    /** The Dismiss menu entry appends the note to the dismissed list. */
    method Dismiss(id: EventId)
      modifies this`dismissed
      ensures dismissed == old(dismissed) + [id]
    {
      dismissed := dismissed + [id];
    }

    /** The like button sends a Like carrying the signer's key (not the
      delegator's); the local tally is left to the aggregator. */
    method Like(e: Event)
      modifies this`outbox
      ensures outbox == old(outbox) + [OverlordMessage.Like(e.id, e.pubkey)]
    {
      outbox := outbox + [OverlordMessage.Like(e.id, e.pubkey)];
    }

    /** View Thread (menu entry or arrow button). */
    method ViewThread(id: EventId)
      modifies this`page
      ensures page == FeedPage(Thread(id, id))
    {
      page := FeedPage(Thread(id, id));
    }

    /** The "replies to" link of note `e`, drawn only for a reply: the
      parent's thread, referenced by `e`. */
    method OpenParent(e: Event)
      requires e.repliesTo.Some?
      modifies this`page
      ensures page == FeedPage(Thread(e.repliesTo.value, e.id))
    {
      page := FeedPage(Thread(e.repliesTo.value, e.id));
    }

    /** A click on the avatar. */
    method OpenAuthor(author: Person)
      modifies this`page
      ensures page == PersonPage(author.pubkey)
    {
      page := PersonPage(author.pubkey);
    }

    /** A drawn note hovered while the feed is not scrolling becomes viewed. */
    method MarkViewed(id: EventId, ptr: Pointer)
      modifies this`viewed
      ensures viewed == if MarksViewed(ptr, id) then old(viewed) + {id} else old(viewed)
    {
      if ptr.hovered(id) && !ptr.scrolling {
        viewed := viewed + {id};
      }
    }

    /** The measured height of a drawn note replaces any earlier one. */
    method RecordHeight(id: EventId, h: int)
      modifies this`height
      ensures height == old(height)[id := h]
    {
      height := height[id := h];
    }

    /** `render_note`: draw the note if it exists and passes the gate, mark
      it viewed if hovered, record its height, and then, in a threaded feed
      outside a reply context, render each reply one level deeper. Returns
      the trace it visited; the viewed set only grows, by the hovered
      visited notes, and the height map gains every visited note. */
    method RenderNote(w: Stores, ptr: Pointer, p: NoteParams, fuel: nat) returns (trace: seq<Visit>)
      modifies this`viewed, this`height
      decreases fuel, 0
      ensures trace == Walk(Pass(w, View(), ptr), old(viewed), p, fuel)
      ensures viewed == old(viewed) + HoveredIds(ptr, trace)
      ensures height == Recorded(old(height), ptr, trace)
    {
      if fuel == 0 || p.id !in w.events {
        return [];
      }
      var e := w.events[p.id];
      if !ShouldRender(e.kind, w.settings) {
        return [];
      }
      var pass := Pass(w, View(), ptr);
      var v := VisitOf(pass, viewed, p, e);
      WalkUnfold(pass, viewed, p, fuel, e);
      SingleVisit(height, ptr, v);
      MarkViewed(p.id, ptr);
      RecordHeight(p.id, ptr.measured(p.id));
      trace := [v];
      if p.threaded && !p.asReplyTo {
        assert viewed == old(viewed) + HoveredIds(ptr, [v]);
        var t := RenderReplies(w, ptr, w.replies(p.id), p.indent + 1, p.asReplyTo, p.threaded, fuel - 1);
        assert View() == pass.session;
        assert t == WalkList(pass, old(viewed) + HoveredIds(ptr, [v]), w.replies(p.id), p.indent + 1, p.asReplyTo, p.threaded, fuel - 1);
        HoveredIdsAppend(ptr, trace, t);
        RecordedAppend(old(height), ptr, trace, t);
        trace := trace + t;
      }
    }

    /** The reply loop of `render_note`: each reply, in reply-index order,
      rendered with the same flags at the given depth, each seeing the
      viewed set the earlier ones left. */
    method RenderReplies(w: Stores, ptr: Pointer, ids: seq<EventId>, indent: nat,
                         asReplyTo: bool, threaded: bool, fuel: nat) returns (trace: seq<Visit>)
      modifies this`viewed, this`height
      decreases fuel, 1
      ensures trace == WalkList(Pass(w, View(), ptr), old(viewed), ids, indent, asReplyTo, threaded, fuel)
      ensures viewed == old(viewed) + HoveredIds(ptr, trace)
      ensures height == Recorded(old(height), ptr, trace)
    {
      ghost var pass := Pass(w, View(), ptr);
      ghost var goal := WalkList(pass, viewed, ids, indent, asReplyTo, threaded, fuel);
      trace := [];
      assert ids[0..] == ids;
      for i := 0 to |ids|
        invariant viewed == old(viewed) + HoveredIds(ptr, trace)
        invariant height == Recorded(old(height), ptr, trace)
        invariant trace + WalkList(pass, viewed, ids[i..], indent, asReplyTo, threaded, fuel) == goal
      {
        ghost var before := viewed;
        var t := RenderNote(w, ptr, NoteParams(ids[i], indent, asReplyTo, threaded), fuel);
        WalkListStep(pass, before, ids, i, indent, asReplyTo, threaded, fuel, trace, t);
        HoveredIdsAppend(ptr, trace, t);
        RecordedAppend(old(height), ptr, trace, t);
        trace := trace + t;
      }
      assert WalkList(pass, viewed, ids[|ids|..], indent, asReplyTo, threaded, fuel) == [];
      assert trace + [] == trace;
    }
  }
}
