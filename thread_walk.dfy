/** The thread walk of `render_note`: the note is drawn, then, in a threaded
    feed and outside a reply context, each of its replies in reply-index
    order one level deeper, depth first. Reply graphs come from other
    people's events and may contain cycles, so the walk carries fuel: one
    unit per level, and a walk out of fuel visits nothing. The result of a
    walk is the trace of the notes it visits, in visiting order. */
module ThreadWalk {
  import opened NostrTypes
  import opened NoteLogic

  /** The parameters of one `render_note` call. */
  datatype NoteParams = NoteParams(id: EventId, indent: nat, asReplyTo: bool, threaded: bool)

  /** What the layout reports back during a pass: which notes the pointer is
      over, whether the feed is scrolling, and each note's measured height. */
  datatype Pointer = Pointer(hovered: EventId -> bool, scrolling: bool, measured: EventId -> int)

  /** Everything a pass reads but does not change. */
  datatype Pass = Pass(stores: Stores, session: SessionView, pointer: Pointer)

  /** One visited note: its call parameters, whether it was still unviewed
      when drawn, whether it is the main event, whether its author is
      muted, and the depth label shown in front of it. */
  datatype Visit = Visit(params: NoteParams, isNew: bool, isMain: bool, muted: bool,
                         indentLabel: Option<nat>)

  /** The bookkeeping `render_note` reads for a note that passed the gate. */
  function VisitOf(pass: Pass, viewed: set<EventId>, p: NoteParams, e: Event): (v: Visit)
    ensures v.params == p
    ensures v.isNew <==> e.id !in viewed
    ensures v.isMain == IsMainEvent(pass.stores.feed, e.id)
    ensures v.muted <==> ResolvePerson(pass.stores.people, EffectiveAuthor(e)).muted > 0
    ensures v.indentLabel.Some? <==> p.threaded && p.indent > 0
    ensures v.indentLabel.Some? ==> v.indentLabel.value == p.indent
  {
    Visit(p, e.id !in viewed, IsMainEvent(pass.stores.feed, e.id),
          ResolvePerson(pass.stores.people, EffectiveAuthor(e)).muted > 0,
          if p.threaded && p.indent > 0 then Some(p.indent) else None)
  }

  datatype Shown = MutedPost | Inner(view: InnerView)

  /** What the frame of a visited note holds: the muted placeholder, or
      what `render_note_inner` draws for it. */
  function ShownIn(pass: Pass, v: Visit, e: Event): (r: Shown)
    ensures r == MutedPost <==> v.muted
    ensures r.Inner? ==> r.view.author == ResolvePerson(pass.stores.people, EffectiveAuthor(e))
    ensures r.Inner? ==> r.view.actions == OfferedActions(e, v.isMain, v.params.asReplyTo, pass.session.reactions)
    ensures r.Inner? ==> r.view.markers == Markers(e, pass.stores.deletion(e.id).Some?)
    ensures r.Inner? ==> r.view == RenderInner(pass.stores, pass.session, e,
                                               ResolvePerson(pass.stores.people, EffectiveAuthor(e)),
                                               v.isMain, v.params.asReplyTo)
  {
    if v.muted then MutedPost
    else Inner(RenderInner(pass.stores, pass.session, e,
                           ResolvePerson(pass.stores.people, EffectiveAuthor(e)),
                           v.isMain, v.params.asReplyTo))
  }

  /** A drawn note becomes viewed when hovered while the feed is not scrolling. */
  predicate MarksViewed(ptr: Pointer, id: EventId)
  {
    ptr.hovered(id) && !ptr.scrolling
  }

  /** The ids a trace adds to the viewed set. */
  function HoveredIds(ptr: Pointer, t: seq<Visit>): (r: set<EventId>)
    decreases t
  {
    if t == [] then {}
    else (if MarksViewed(ptr, t[0].params.id) then {t[0].params.id} else {}) + HoveredIds(ptr, t[1..])
  }

  /** The ids a trace visits. */
  function VisitedIds(t: seq<Visit>): set<EventId>
  {
    set i | 0 <= i < |t| :: t[i].params.id
  }

  /** The height map after recording, visit by visit, each note's measured height. */
  function Recorded(h: map<EventId, int>, ptr: Pointer, t: seq<Visit>): map<EventId, int>
    decreases t
  {
    if t == [] then h
    else Recorded(h[t[0].params.id := ptr.measured(t[0].params.id)], ptr, t[1..])
  }

  /** The trace of `render_note` for `p`, given the viewed set at the call. */
  function Walk(pass: Pass, viewed: set<EventId>, p: NoteParams, fuel: nat): seq<Visit>
    decreases fuel, 0
  {
    if fuel == 0 then []
    else
      match Renderable(pass.stores, p.id)
      case None => []
      case Some(e) =>
        var v := VisitOf(pass, viewed, p, e);
        if p.threaded && !p.asReplyTo then
          [v] + WalkList(pass, viewed + HoveredIds(pass.pointer, [v]), pass.stores.replies(p.id),
                         p.indent + 1, p.asReplyTo, p.threaded, fuel - 1)
        else [v]
  }

  /** The traces of the replies `ids`, one after the other, each seeing the
      viewed set left by the ones before it. */
  function WalkList(pass: Pass, viewed: set<EventId>, ids: seq<EventId>, indent: nat,
                    asReplyTo: bool, threaded: bool, fuel: nat): seq<Visit>
    decreases fuel, |ids| + 1
  {
    if ids == [] then []
    else
      var t := Walk(pass, viewed, NoteParams(ids[0], indent, asReplyTo, threaded), fuel);
      t + WalkList(pass, viewed + HoveredIds(pass.pointer, t), ids[1..], indent, asReplyTo, threaded, fuel)
  }

  /* ---------- bookkeeping over traces ---------- */

  lemma {:induction false} HoveredIdsAppend(ptr: Pointer, a: seq<Visit>, b: seq<Visit>)
    decreases a
    ensures HoveredIds(ptr, a + b) == HoveredIds(ptr, a) + HoveredIds(ptr, b)
  {
    if a != [] {
      assert (a + b)[0] == a[0] && (a + b)[1..] == a[1..] + b;
      HoveredIdsAppend(ptr, a[1..], b);
    } else {
      assert a + b == b;
    }
  }

  /** Only visited notes become viewed, and only hovered ones. */
  lemma {:induction false} HoveredIdsVisited(ptr: Pointer, t: seq<Visit>)
    decreases t
    ensures HoveredIds(ptr, t) <= VisitedIds(t)
    ensures forall id :: id in HoveredIds(ptr, t) ==> MarksViewed(ptr, id)
    ensures forall id :: id in VisitedIds(t) && MarksViewed(ptr, id) ==> id in HoveredIds(ptr, t)
  {
    if t != [] {
      HoveredIdsVisited(ptr, t[1..]);
      assert forall i :: 0 <= i < |t[1..]| ==> t[1..][i] == t[i + 1];
      forall id | id in VisitedIds(t) && MarksViewed(ptr, id) ensures id in HoveredIds(ptr, t) {
        var i :| 0 <= i < |t| && t[i].params.id == id;
        if i > 0 {
          assert t[1..][i - 1] == t[i];
          assert id in VisitedIds(t[1..]);
        }
      }
    }
  }

  lemma {:induction false} RecordedAppend(h: map<EventId, int>, ptr: Pointer, a: seq<Visit>, b: seq<Visit>)
    decreases a
    ensures Recorded(h, ptr, a + b) == Recorded(Recorded(h, ptr, a), ptr, b)
  {
    if a != [] {
      assert (a + b)[0] == a[0] && (a + b)[1..] == a[1..] + b;
      RecordedAppend(h[a[0].params.id := ptr.measured(a[0].params.id)], ptr, a[1..], b);
    } else {
      assert a + b == b;
    }
  }

  /** After a pass every visited note has its measured height recorded, and
      every other entry is as it was. */
  lemma {:induction false} RecordedHeights(h: map<EventId, int>, ptr: Pointer, t: seq<Visit>)
    decreases t
    ensures Recorded(h, ptr, t).Keys == h.Keys + VisitedIds(t)
    ensures forall id :: id in VisitedIds(t) ==> Recorded(h, ptr, t)[id] == ptr.measured(id)
    ensures forall id :: id in h && id !in VisitedIds(t) ==> Recorded(h, ptr, t)[id] == h[id]
  {
    if t != [] {
      var h' := h[t[0].params.id := ptr.measured(t[0].params.id)];
      RecordedHeights(h', ptr, t[1..]);
      assert VisitedIds(t) == {t[0].params.id} + VisitedIds(t[1..]) by {
        assert forall i :: 0 <= i < |t[1..]| ==> t[1..][i] == t[i + 1];
        forall id | id in VisitedIds(t) ensures id in {t[0].params.id} + VisitedIds(t[1..]) {
          var i :| 0 <= i < |t| && t[i].params.id == id;
          if i > 0 { assert t[1..][i - 1] == t[i]; }
        }
      }
    }
  }

  /* ---------- the walk ---------- */

  /** An absent or filtered note, or a walk out of fuel, draws nothing and
      therefore records nothing and descends nowhere. */
  lemma WalkSkipsUnrenderable(pass: Pass, viewed: set<EventId>, p: NoteParams, fuel: nat)
    requires fuel == 0 || p.id !in pass.stores.events
             || !ShouldRender(pass.stores.events[p.id].kind, pass.stores.settings)
    ensures Walk(pass, viewed, p, fuel) == []
  {
  }

  /** A renderable note is visited first; a muted author's note shows the
      muted placeholder and is visited all the same. */
  lemma WalkVisitsRootFirst(pass: Pass, viewed: set<EventId>, p: NoteParams, fuel: nat)
    requires fuel > 0 && p.id in pass.stores.events
    requires ShouldRender(pass.stores.events[p.id].kind, pass.stores.settings)
    ensures var t := Walk(pass, viewed, p, fuel);
            var e := pass.stores.events[p.id];
            && |t| >= 1
            && t[0] == VisitOf(pass, viewed, p, e)
            && (ShownIn(pass, t[0], e) == MutedPost
                <==> ResolvePerson(pass.stores.people, EffectiveAuthor(e)).muted > 0)
  {
  }

  /** Outside a threaded feed, or in a reply context, the walk never descends. */
  lemma WalkFlatVisitsAtMostRoot(pass: Pass, viewed: set<EventId>, p: NoteParams, fuel: nat)
    requires !p.threaded || p.asReplyTo
    ensures |Walk(pass, viewed, p, fuel)| <= 1
  {
  }

  /** A visit of a renderable note with the given flags, drawn between
      `lo` levels deep (inclusive) and `hi` levels deep (exclusive). */
  predicate WellPlaced(pass: Pass, lo: nat, hi: int, asReplyTo: bool, threaded: bool, v: Visit)
  {
    && Renderable(pass.stores, v.params.id).Some?
    && v.params.threaded == threaded
    && v.params.asReplyTo == asReplyTo
    && lo <= v.params.indent < hi
  }

  predicate AllWellPlaced(pass: Pass, lo: nat, hi: int, asReplyTo: bool, threaded: bool, t: seq<Visit>)
  {
    forall v :: v in t ==> WellPlaced(pass, lo, hi, asReplyTo, threaded, v)
  }

  /** A non-empty walk starts with its own renderable root; every later
      visit is a renderable note with the root's flags, at least one level
      deeper than the root and less than `fuel` levels below it. */
  lemma {:induction false} WalkShape(pass: Pass, viewed: set<EventId>, p: NoteParams, fuel: nat)
    decreases fuel, 0
    ensures var t := Walk(pass, viewed, p, fuel);
            t != [] ==>
              && t[0].params == p
              && Renderable(pass.stores, p.id).Some?
              && AllWellPlaced(pass, p.indent + 1, p.indent + fuel, p.asReplyTo, p.threaded, t[1..])
  {
    if fuel > 0 && Renderable(pass.stores, p.id).Some? {
      var e := Renderable(pass.stores, p.id).value;
      var v := VisitOf(pass, viewed, p, e);
      if p.threaded && !p.asReplyTo {
        var viewed' := viewed + HoveredIds(pass.pointer, [v]);
        var ids := pass.stores.replies(p.id);
        var rest := WalkList(pass, viewed', ids, p.indent + 1, p.asReplyTo, p.threaded, fuel - 1);
        assert Walk(pass, viewed, p, fuel) == [v] + rest;
        WalkListShape(pass, viewed', ids, p.indent + 1, p.asReplyTo, p.threaded, fuel - 1);
        assert ([v] + rest)[1..] == rest;
      } else {
        assert Walk(pass, viewed, p, fuel) == [v];
        assert [v][1..] == [];
      }
    }
  }

  lemma {:induction false} WalkListShape(pass: Pass, viewed: set<EventId>, ids: seq<EventId>,
                                         indent: nat, asReplyTo: bool, threaded: bool, fuel: nat)
    decreases fuel, |ids| + 1
    ensures AllWellPlaced(pass, indent, indent + fuel, asReplyTo, threaded,
                          WalkList(pass, viewed, ids, indent, asReplyTo, threaded, fuel))
  {
    if ids != [] {
      var child := NoteParams(ids[0], indent, asReplyTo, threaded);
      var t := Walk(pass, viewed, child, fuel);
      WalkShape(pass, viewed, child, fuel);
      if t != [] {
        assert t == [t[0]] + t[1..];
      }
      var viewed' := viewed + HoveredIds(pass.pointer, t);
      WalkListShape(pass, viewed', ids[1..], indent, asReplyTo, threaded, fuel);
    }
  }

  lemma WalkListCons(pass: Pass, viewed: set<EventId>, ids: seq<EventId>,
                     indent: nat, asReplyTo: bool, threaded: bool, fuel: nat)
    requires ids != []
    ensures var t := Walk(pass, viewed, NoteParams(ids[0], indent, asReplyTo, threaded), fuel);
            WalkList(pass, viewed, ids, indent, asReplyTo, threaded, fuel)
            == t + WalkList(pass, viewed + HoveredIds(pass.pointer, t), ids[1..], indent, asReplyTo, threaded, fuel)
  {
  }

  /** The step of the reply loop: rendering the replies from position `i`
      on is rendering reply `i`, then the ones after it. */
  lemma WalkListFrom(pass: Pass, viewed: set<EventId>, ids: seq<EventId>, i: nat,
                     indent: nat, asReplyTo: bool, threaded: bool, fuel: nat)
    requires i < |ids|
    ensures var t := Walk(pass, viewed, NoteParams(ids[i], indent, asReplyTo, threaded), fuel);
            WalkList(pass, viewed, ids[i..], indent, asReplyTo, threaded, fuel)
            == t + WalkList(pass, viewed + HoveredIds(pass.pointer, t), ids[i + 1..], indent, asReplyTo, threaded, fuel)
  {
    assert ids[i..][0] == ids[i] && ids[i..][1..] == ids[i + 1..];
    WalkListCons(pass, viewed, ids[i..], indent, asReplyTo, threaded, fuel);
  }

  /** The reply loop's invariant is kept by rendering reply `i`: the trace
      so far followed by the walk of the remaining replies stays the same. */
  lemma WalkListStep(pass: Pass, viewed: set<EventId>, ids: seq<EventId>, i: nat,
                     indent: nat, asReplyTo: bool, threaded: bool, fuel: nat,
                     done: seq<Visit>, t: seq<Visit>)
    requires i < |ids|
    requires t == Walk(pass, viewed, NoteParams(ids[i], indent, asReplyTo, threaded), fuel)
    ensures done + WalkList(pass, viewed, ids[i..], indent, asReplyTo, threaded, fuel)
            == (done + t) + WalkList(pass, viewed + HoveredIds(pass.pointer, t), ids[i + 1..],
                                     indent, asReplyTo, threaded, fuel)
  {
    WalkListFrom(pass, viewed, ids, i, indent, asReplyTo, threaded, fuel);
  }

  /** One step of `render_note` on a renderable note: its visit, then (when
      it descends) the walk of its replies from the viewed set it leaves. */
  lemma WalkUnfold(pass: Pass, viewed: set<EventId>, p: NoteParams, fuel: nat, e: Event)
    requires fuel > 0 && Renderable(pass.stores, p.id) == Some(e)
    ensures var v := VisitOf(pass, viewed, p, e);
            Walk(pass, viewed, p, fuel)
            == if p.threaded && !p.asReplyTo
               then [v] + WalkList(pass, viewed + HoveredIds(pass.pointer, [v]), pass.stores.replies(p.id),
                                   p.indent + 1, p.asReplyTo, p.threaded, fuel - 1)
               else [v]
  {
  }

  /** The bookkeeping of a single visit. */
  lemma SingleVisit(h: map<EventId, int>, ptr: Pointer, v: Visit)
    ensures HoveredIds(ptr, [v]) == if MarksViewed(ptr, v.params.id) then {v.params.id} else {}
    ensures Recorded(h, ptr, [v]) == h[v.params.id := ptr.measured(v.params.id)]
  {
    assert [v][1..] == [];
  }

  /** The walk of a single reply is the walk of that reply. */
  lemma WalkListSingle(pass: Pass, viewed: set<EventId>, id: EventId,
                       indent: nat, asReplyTo: bool, threaded: bool, fuel: nat)
    ensures WalkList(pass, viewed, [id], indent, asReplyTo, threaded, fuel)
            == Walk(pass, viewed, NoteParams(id, indent, asReplyTo, threaded), fuel)
  {
    var t := Walk(pass, viewed, NoteParams(id, indent, asReplyTo, threaded), fuel);
    WalkListCons(pass, viewed, [id], indent, asReplyTo, threaded, fuel);
    assert [id][1..] == [];
    assert WalkList(pass, viewed + HoveredIds(pass.pointer, t), [], indent, asReplyTo, threaded, fuel) == [];
    assert t + [] == t;
  }

  /** Replies are drawn in reply-index order: rendering one more reply at
      the end appends its trace, which sees the viewed set left by all the
      earlier ones. */
  lemma {:induction false} WalkListSnoc(pass: Pass, viewed: set<EventId>, ids: seq<EventId>, id: EventId,
                                        indent: nat, asReplyTo: bool, threaded: bool, fuel: nat)
    decreases |ids|
    ensures var before := WalkList(pass, viewed, ids, indent, asReplyTo, threaded, fuel);
            WalkList(pass, viewed, ids + [id], indent, asReplyTo, threaded, fuel)
            == before + Walk(pass, viewed + HoveredIds(pass.pointer, before),
                             NoteParams(id, indent, asReplyTo, threaded), fuel)
  {
    var ptr := pass.pointer;
    if ids == [] {
      assert ids + [id] == [id];
      WalkListSingle(pass, viewed, id, indent, asReplyTo, threaded, fuel);
      assert WalkList(pass, viewed, ids, indent, asReplyTo, threaded, fuel) == [];
      assert viewed + HoveredIds(ptr, []) == viewed;
    } else {
      var ids' := ids + [id];
      assert ids'[0] == ids[0] && ids'[1..] == ids[1..] + [id];
      WalkListCons(pass, viewed, ids', indent, asReplyTo, threaded, fuel);
      WalkListCons(pass, viewed, ids, indent, asReplyTo, threaded, fuel);
      var t := Walk(pass, viewed, NoteParams(ids[0], indent, asReplyTo, threaded), fuel);
      var viewed' := viewed + HoveredIds(ptr, t);
      WalkListSnoc(pass, viewed', ids[1..], id, indent, asReplyTo, threaded, fuel);
      var mid := WalkList(pass, viewed', ids[1..], indent, asReplyTo, threaded, fuel);
      HoveredIdsAppend(ptr, t, mid);
      assert viewed + HoveredIds(ptr, t + mid) == viewed' + HoveredIds(ptr, mid);
    }
  }

  /** A walk visits nothing exactly when it is out of fuel or its note is
      absent or filtered; otherwise it starts with its own note. */
  lemma WalkEmptyExactly(pass: Pass, viewed: set<EventId>, p: NoteParams, fuel: nat)
    ensures var t := Walk(pass, viewed, p, fuel);
            && (t == [] <==> fuel == 0 || Renderable(pass.stores, p.id).None?)
            && (t != [] ==> t[0].params == p)
  {
  }

  /** The replies' walks visit nothing exactly when out of fuel or when no
      reply is present and passes the gate. */
  lemma {:induction false} WalkListEmptyExactly(pass: Pass, viewed: set<EventId>, ids: seq<EventId>,
                                                indent: nat, asReplyTo: bool, threaded: bool, fuel: nat)
    decreases |ids|
    ensures WalkList(pass, viewed, ids, indent, asReplyTo, threaded, fuel) == []
            <==> fuel == 0 || forall k :: 0 <= k < |ids| ==> Renderable(pass.stores, ids[k]).None?
  {
    if ids != [] {
      var child := NoteParams(ids[0], indent, asReplyTo, threaded);
      var t := Walk(pass, viewed, child, fuel);
      WalkEmptyExactly(pass, viewed, child, fuel);
      WalkListCons(pass, viewed, ids, indent, asReplyTo, threaded, fuel);
      WalkListEmptyExactly(pass, viewed + HoveredIds(pass.pointer, t), ids[1..], indent, asReplyTo, threaded, fuel);
      assert forall k :: 0 <= k < |ids[1..]| ==> ids[1..][k] == ids[k + 1];
      if fuel > 0 && (forall k :: 0 <= k < |ids| ==> Renderable(pass.stores, ids[k]).None?) {
        assert Renderable(pass.stores, ids[0]).None?;
      }
      if fuel > 0 && WalkList(pass, viewed, ids, indent, asReplyTo, threaded, fuel) == [] {
        forall k | 0 <= k < |ids| ensures Renderable(pass.stores, ids[k]).None? {
          if k > 0 { assert ids[k] == ids[1..][k - 1]; }
        }
      }
    } else {
      assert WalkList(pass, viewed, ids, indent, asReplyTo, threaded, fuel) == [];
    }
  }

  /* ---------- every visit, not only the first ---------- */

  /** Each visit of `t` is what `render_note` computes for its note from the
      viewed set as the earlier visits of the pass left it. */
  predicate VisitsFrom(pass: Pass, viewed: set<EventId>, t: seq<Visit>)
    decreases t
  {
    t == [] ||
    (&& t[0].params.id in pass.stores.events
     && t[0] == VisitOf(pass, viewed, t[0].params, pass.stores.events[t[0].params.id])
     && VisitsFrom(pass, viewed + HoveredIds(pass.pointer, [t[0]]), t[1..]))
  }

  lemma {:induction false} VisitsFromAppend(pass: Pass, viewed: set<EventId>, a: seq<Visit>, b: seq<Visit>)
    decreases a
    requires VisitsFrom(pass, viewed, a)
    requires VisitsFrom(pass, viewed + HoveredIds(pass.pointer, a), b)
    ensures VisitsFrom(pass, viewed, a + b)
  {
    var ptr := pass.pointer;
    if a == [] {
      assert a + b == b;
      assert viewed + HoveredIds(ptr, a) == viewed;
    } else {
      assert (a + b)[0] == a[0] && (a + b)[1..] == a[1..] + b;
      var viewed' := viewed + HoveredIds(ptr, [a[0]]);
      assert [a[0]] + a[1..] == a;
      HoveredIdsAppend(ptr, [a[0]], a[1..]);
      assert viewed' + HoveredIds(ptr, a[1..]) == viewed + HoveredIds(ptr, a);
      VisitsFromAppend(pass, viewed', a[1..], b);
    }
  }

  /** The visit at position `i` is computed from the viewed set the first
      `i` visits left. */
  lemma {:induction false} VisitsFromAt(pass: Pass, viewed: set<EventId>, t: seq<Visit>, i: nat)
    decreases i
    requires VisitsFrom(pass, viewed, t) && i < |t|
    ensures t[i].params.id in pass.stores.events
    ensures t[i] == VisitOf(pass, viewed + HoveredIds(pass.pointer, t[..i]), t[i].params,
                            pass.stores.events[t[i].params.id])
  {
    var ptr := pass.pointer;
    if i == 0 {
      assert t[..0] == [];
      assert viewed + HoveredIds(ptr, []) == viewed;
    } else {
      var viewed' := viewed + HoveredIds(ptr, [t[0]]);
      VisitsFromAt(pass, viewed', t[1..], i - 1);
      assert t[1..][i - 1] == t[i];
      assert t[..i] == [t[0]] + t[1..][..i - 1];
      HoveredIdsAppend(ptr, [t[0]], t[1..][..i - 1]);
      assert viewed' + HoveredIds(ptr, t[1..][..i - 1]) == viewed + HoveredIds(ptr, t[..i]);
    }
  }

  /** Every visit of a walk, at every depth, is computed from the stored
      event and the viewed set the visits before it left. */
  lemma {:induction false} WalkVisits(pass: Pass, viewed: set<EventId>, p: NoteParams, fuel: nat)
    decreases fuel, 0
    ensures VisitsFrom(pass, viewed, Walk(pass, viewed, p, fuel))
  {
    if fuel > 0 && Renderable(pass.stores, p.id).Some? {
      var e := Renderable(pass.stores, p.id).value;
      var v := VisitOf(pass, viewed, p, e);
      assert VisitsFrom(pass, viewed, [v]) by {
        assert [v][1..] == [];
      }
      if p.threaded && !p.asReplyTo {
        var viewed' := viewed + HoveredIds(pass.pointer, [v]);
        var rest := WalkList(pass, viewed', pass.stores.replies(p.id), p.indent + 1, p.asReplyTo, p.threaded, fuel - 1);
        WalkListVisits(pass, viewed', pass.stores.replies(p.id), p.indent + 1, p.asReplyTo, p.threaded, fuel - 1);
        VisitsFromAppend(pass, viewed, [v], rest);
        assert Walk(pass, viewed, p, fuel) == [v] + rest;
      } else {
        assert Walk(pass, viewed, p, fuel) == [v];
      }
    } else {
      assert Walk(pass, viewed, p, fuel) == [];
    }
  }

  lemma {:induction false} WalkListVisits(pass: Pass, viewed: set<EventId>, ids: seq<EventId>,
                                          indent: nat, asReplyTo: bool, threaded: bool, fuel: nat)
    decreases fuel, |ids| + 1
    ensures VisitsFrom(pass, viewed, WalkList(pass, viewed, ids, indent, asReplyTo, threaded, fuel))
  {
    if ids != [] {
      var t := Walk(pass, viewed, NoteParams(ids[0], indent, asReplyTo, threaded), fuel);
      var viewed' := viewed + HoveredIds(pass.pointer, t);
      WalkVisits(pass, viewed, NoteParams(ids[0], indent, asReplyTo, threaded), fuel);
      WalkListVisits(pass, viewed', ids[1..], indent, asReplyTo, threaded, fuel);
      WalkListCons(pass, viewed, ids, indent, asReplyTo, threaded, fuel);
      VisitsFromAppend(pass, viewed, t, WalkList(pass, viewed', ids[1..], indent, asReplyTo, threaded, fuel));
    } else {
      assert WalkList(pass, viewed, ids, indent, asReplyTo, threaded, fuel) == [];
    }
  }

  /** The decisions of every visit of a walk: a note is new exactly when no
      earlier visit of the pass marked it viewed and it was not viewed
      before; it is the main event exactly when the feed is its thread; and
      its frame holds the muted placeholder exactly when its resolved
      author is muted, and otherwise is drawn from the pass's session and
      stores: raw or QR exactly when the slot holds it, behind the warning
      gate exactly when it carries an unapproved warning, and with its own
      reaction row. */
  lemma WalkVisitDecisions(pass: Pass, viewed: set<EventId>, p: NoteParams, fuel: nat, i: nat)
    requires i < |Walk(pass, viewed, p, fuel)|
    ensures var t := Walk(pass, viewed, p, fuel);
            && t[i].params.id in pass.stores.events
            && var e := pass.stores.events[t[i].params.id];
               && ShouldRender(e.kind, pass.stores.settings)
               && (t[i].isNew <==> e.id !in viewed + HoveredIds(pass.pointer, t[..i]))
               && (t[i].isMain <==> IsMainEvent(pass.stores.feed, e.id))
               && (ShownIn(pass, t[i], e) == MutedPost
                   <==> ResolvePerson(pass.stores.people, EffectiveAuthor(e)).muted > 0)
               && (ShownIn(pass, t[i], e).Inner? ==>
                     && ShownIn(pass, t[i], e).view.author
                        == ResolvePerson(pass.stores.people, EffectiveAuthor(e))
                     && ShownIn(pass, t[i], e).view.actions
                        == OfferedActions(e, IsMainEvent(pass.stores.feed, e.id), t[i].params.asReplyTo,
                                          pass.session.reactions))
               && (ShownIn(pass, t[i], e).Inner? ==>
                     var view := ShownIn(pass, t[i], e).view;
                     && view == RenderInner(pass.stores, pass.session, e,
                                            ResolvePerson(pass.stores.people, EffectiveAuthor(e)),
                                            IsMainEvent(pass.stores.feed, e.id), t[i].params.asReplyTo)
                     && (view.body == RawJson <==> pass.session.renderRaw == Some(e.id))
                     && (view.body == QrCode <==>
                           pass.session.renderRaw != Some(e.id) && pass.session.renderQr == Some(e.id))
                     && (view.body.WarningGate? <==>
                           pass.session.renderRaw != Some(e.id) && pass.session.renderQr != Some(e.id)
                           && Gated(e, pass.session))
                     && (view.reactions.Some? <==> !t[i].params.asReplyTo && pass.session.reactions)
                     && (view.reactions.Some? ==> view.reactions.value == ReactionRowOf(pass.stores.reactions(e.id))))
  {
    var t := Walk(pass, viewed, p, fuel);
    WalkVisits(pass, viewed, p, fuel);
    VisitsFromAt(pass, viewed, t, i);
    WalkShape(pass, viewed, p, fuel);
    if i > 0 {
      assert t[i] in t[1..] by { assert t[1..][i - 1] == t[i]; }
    }
  }

  /* ---------- an example thread ---------- */

  /** The (id, indent) pairs of a trace. */
  function Positions(t: seq<Visit>): (r: seq<(EventId, nat)>)
    ensures |r| == |t|
    ensures forall i :: 0 <= i < |t| ==> r[i] == (t[i].params.id, t[i].params.indent)
  {
    if t == [] then [] else [(t[0].params.id, t[0].params.indent)] + Positions(t[1..])
  }

  lemma PositionsAppend(a: seq<Visit>, b: seq<Visit>)
    ensures Positions(a + b) == Positions(a) + Positions(b)
  {
    assert forall i :: 0 <= i < |a + b| ==> Positions(a + b)[i] == (Positions(a) + Positions(b))[i];
  }

  /** Note 1 has replies 2 and 3, note 2 has reply 4; 3 and 4 have none. */
  function ExampleNote(id: EventId): Event
  {
    Event(id, 7, TextNote, "gm", None, None,
          if id == 1 then None else if id == 4 then Some(2) else Some(1), 0, NotDelegated, None)
  }

  function ExampleStores(): Stores
  {
    Stores(
      map[1 := ExampleNote(1), 2 := ExampleNote(2), 3 := ExampleNote(3), 4 := ExampleNote(4)],
      map[], Settings(false, false), General,
      (id: EventId) => if id == 1 then [2, 3] else if id == 2 then [4] else [],
      (id: EventId) => None,
      (id: EventId) => Reactions([], false))
  }

  /** A note without replies is visited alone, at its own depth. */
  lemma ExampleLeaf(session: SessionView, ptr: Pointer, viewed: set<EventId>, id: EventId,
                    indent: nat, fuel: nat)
    requires id == 3 || id == 4
    requires fuel > 0
    ensures Positions(Walk(Pass(ExampleStores(), session, ptr), viewed,
                           NoteParams(id, indent, false, true), fuel)) == [(id, indent)]
  {
    var pass := Pass(ExampleStores(), session, ptr);
    var p := NoteParams(id, indent, false, true);
    var v := VisitOf(pass, viewed, p, ExampleNote(id));
    WalkUnfold(pass, viewed, p, fuel, ExampleNote(id));
    assert WalkList(pass, viewed + HoveredIds(ptr, [v]), [], indent + 1, false, true, fuel - 1) == [];
    assert [v] + [] == [v];
  }

  /** Note 2 is visited, then its reply 4 one level deeper. */
  lemma ExampleBranch(session: SessionView, ptr: Pointer, viewed: set<EventId>)
    ensures Positions(Walk(Pass(ExampleStores(), session, ptr), viewed,
                           NoteParams(2, 1, false, true), 2)) == [(2, 1), (4, 2)]
  {
    var pass := Pass(ExampleStores(), session, ptr);
    var p := NoteParams(2, 1, false, true);
    var v := VisitOf(pass, viewed, p, ExampleNote(2));
    var viewed' := viewed + HoveredIds(ptr, [v]);
    WalkUnfold(pass, viewed, p, 2, ExampleNote(2));
    WalkListCons(pass, viewed', [4], 2, false, true, 1);
    var t4 := Walk(pass, viewed', NoteParams(4, 2, false, true), 1);
    ExampleLeaf(session, ptr, viewed', 4, 2, 1);
    assert [4][1..] == [];
    assert WalkList(pass, viewed' + HoveredIds(ptr, t4), [], 2, false, true, 1) == [];
    assert t4 + [] == t4;
    PositionsAppend([v], t4);
  }

  /** The replies of note 1: reply 2 with its own reply 4, then reply 3. */
  lemma ExampleReplies(session: SessionView, ptr: Pointer, viewed: set<EventId>)
    ensures Positions(WalkList(Pass(ExampleStores(), session, ptr), viewed, [2, 3], 1, false, true, 2))
            == [(2, 1), (4, 2), (3, 1)]
  {
    var pass := Pass(ExampleStores(), session, ptr);
    WalkListCons(pass, viewed, [2, 3], 1, false, true, 2);
    var t2 := Walk(pass, viewed, NoteParams(2, 1, false, true), 2);
    ExampleBranch(session, ptr, viewed);
    var v2 := viewed + HoveredIds(ptr, t2);
    assert [2, 3][1..] == [3];
    WalkListCons(pass, v2, [3], 1, false, true, 2);
    var t3 := Walk(pass, v2, NoteParams(3, 1, false, true), 2);
    ExampleLeaf(session, ptr, v2, 3, 1, 2);
    assert [3][1..] == [];
    assert WalkList(pass, v2 + HoveredIds(ptr, t3), [], 1, false, true, 2) == [];
    assert t3 + [] == t3;
    PositionsAppend(t2, t3);
  }

  /** A threaded walk from note 1 draws 1, then reply 2 one level deeper,
      then 2's own reply 4 before 2's sibling 3, which is back at depth 1. */
  lemma ExampleThread(session: SessionView, ptr: Pointer, viewed: set<EventId>)
    ensures Positions(Walk(Pass(ExampleStores(), session, ptr), viewed, NoteParams(1, 0, false, true), 3))
            == [(1, 0), (2, 1), (4, 2), (3, 1)]
  {
    var pass := Pass(ExampleStores(), session, ptr);
    var p := NoteParams(1, 0, false, true);
    var v := VisitOf(pass, viewed, p, ExampleNote(1));
    var v1 := viewed + HoveredIds(ptr, [v]);
    WalkUnfold(pass, viewed, p, 3, ExampleNote(1));
    ExampleReplies(session, ptr, v1);
    PositionsAppend([v], WalkList(pass, v1, [2, 3], 1, false, true, 2));
  }
}
