/**
 The viewer's tag store and its undo log, as values. The store maps an image
 path to the list of its tags; an image without a key has no tags, and so has
 an image whose list has been emptied (the key is never deleted). Every toggle
 appends an event to the log; undo pops the last event and applies its
 inverse: an added tag is removed again, a removed tag is appended again.
 */
module Tags {

  type Path = string
  type Tag = string
  type Store = map<Path, seq<Tag>>

  datatype Action = Added | Removed

  /** One entry of the undo log: which image, which tag, what happened. */
  datatype TagEvent = TagEvent(image: Path, tag: Tag, action: Action)

  /** The tags of `p`, empty when `p` has no key. */
  function TagsOf(store: Store, p: Path): seq<Tag>
  {
    if p in store then store[p] else []
  }

  /** An image counts as tagged only when its key is present and its list is non-empty. */
  predicate HasTags(store: Store, p: Path)
    ensures HasTags(store, p) <==> TagsOf(store, p) != []
  {
    p in store && |store[p]| > 0
  }

  predicate NoDup(xs: seq<Tag>)
  {
    forall i, j :: 0 <= i < j < |xs| ==> xs[i] != xs[j]
  }

  /** No tag list of the store holds a tag twice. */
  ghost predicate NoDupStore(store: Store)
  {
    forall p :: p in store ==> NoDup(store[p])
  }

  /**
   Two stores give every image the same tags, counted with multiplicity; the
   order within a list may differ, and a missing key equals an empty list.
   */
  ghost predicate Equiv(a: Store, b: Store)
  {
    forall p :: multiset(TagsOf(a, p)) == multiset(TagsOf(b, p))
  }

  lemma EquivSym(a: Store, b: Store)
    requires Equiv(a, b)
    ensures Equiv(b, a)
  {
    forall p ensures multiset(TagsOf(b, p)) == multiset(TagsOf(a, p)) {
      assert multiset(TagsOf(a, p)) == multiset(TagsOf(b, p));
    }
  }

  lemma EquivTrans(a: Store, b: Store, c: Store)
    requires Equiv(a, b) && Equiv(b, c)
    ensures Equiv(a, c)
  {
    forall p ensures multiset(TagsOf(a, p)) == multiset(TagsOf(c, p)) {
      assert multiset(TagsOf(a, p)) == multiset(TagsOf(b, p));
    }
  }

  /** Where Python's `list.index` finds `t`: its first occurrence. */
  function FirstIndex(xs: seq<Tag>, t: Tag): (i: nat)
    requires t in xs
    ensures i < |xs| && xs[i] == t && t !in xs[..i]
  {
    if xs[0] == t then 0
    else
      var j := FirstIndex(xs[1..], t);
      assert xs[..j + 1] == [xs[0]] + xs[1..][..j];
      j + 1
  }

  /**
   Python's `list.remove`: drop the first occurrence of `t`, keeping the other
   tags in their order.
   */
  function RemoveFirst(xs: seq<Tag>, t: Tag): (r: seq<Tag>)
    requires t in xs
    ensures exists i :: 0 <= i < |xs| && xs[i] == t && t !in xs[..i] && r == xs[..i] + xs[i + 1..]
    ensures multiset(r) == multiset(xs) - multiset{t}
  {
    var i := FirstIndex(xs, t);
    assert xs == xs[..i] + [t] + xs[i + 1..];
    xs[..i] + xs[i + 1..]
  }

  /** `toggle_tag` on the store: remove `tag` from `image` if present, append it otherwise. */
  function Toggle(store: Store, image: Path, tag: Tag): (r: (Store, Action))
    ensures r.1 == Added <==> tag !in TagsOf(store, image)
    ensures image in r.0 && r.0 == store[image := r.0[image]]
    ensures r.1 == Added ==> r.0[image] == TagsOf(store, image) + [tag]
    ensures r.1 == Removed ==> r.0[image] == RemoveFirst(TagsOf(store, image), tag)
    ensures r.1 == Removed ==> multiset(r.0[image]) == multiset(TagsOf(store, image)) - multiset{tag}
  {
    var xs := TagsOf(store, image);
    if tag in xs then
      (store[image := RemoveFirst(xs, tag)], Removed)
    else
      (store[image := xs + [tag]], Added)
  }

  /** The event `toggle_tag` records: the image, the tag and whether it was added. */
  function ToggleEvent(store: Store, image: Path, tag: Tag): (e: TagEvent)
    ensures e.image == image && e.tag == tag
    ensures e.action == Added <==> tag !in TagsOf(store, image)
  {
    TagEvent(image, tag, Toggle(store, image, tag).1)
  }

  /**
   `undo_tag` can invert `e` without raising: the image has a key, and an added
   tag is still there to be removed. The strict form also asks that a removed
   tag is absent, so that appending it again cannot create a duplicate.
   */
  predicate CanUndo(store: Store, e: TagEvent, strict: bool)
    ensures CanUndo(store, e, strict) ==> CanUndo(store, e, false)
  {
    && e.image in store
    && (e.action == Added ==> e.tag in store[e.image])
    && (strict && e.action == Removed ==> e.tag !in store[e.image])
  }

  /** `undo_tag` on the store: the inverse of the event's action. */
  function Undo(store: Store, e: TagEvent): (r: Store)
    requires CanUndo(store, e, false)
    ensures e.image in r && r == store[e.image := r[e.image]]
    ensures e.action == Removed ==> r[e.image] == store[e.image] + [e.tag]
    ensures e.action == Added ==> r[e.image] == RemoveFirst(store[e.image], e.tag)
    ensures e.action == Added ==> multiset(r[e.image]) == multiset(store[e.image]) - multiset{e.tag}
  {
    var xs := store[e.image];
    if e.action == Added then
      store[e.image := RemoveFirst(xs, e.tag)]
    else
      store[e.image := xs + [e.tag]]
  }

  function Last(h: seq<TagEvent>): TagEvent
    requires h != []
  {
    h[|h| - 1]
  }

  function Front(h: seq<TagEvent>): seq<TagEvent>
    requires h != []
  {
    h[..|h| - 1]
  }

  /** Every image the log mentions has a key in the store. */
  ghost predicate KeysCover(store: Store, h: seq<TagEvent>)
  {
    forall k :: 0 <= k < |h| ==> h[k].image in store
  }

  /** Undoing the whole log, newest first, never raises. */
  ghost predicate Replayable(store: Store, h: seq<TagEvent>, strict: bool)
    decreases |h|
  {
    h == [] ||
    (CanUndo(store, Last(h), strict) && Replayable(Undo(store, Last(h)), Front(h), strict))
  }

  /** The store after undoing every event of the log, newest first. */
  ghost function UnwindAll(store: Store, h: seq<TagEvent>): Store
    requires Replayable(store, h, false)
    decreases |h|
  {
    if h == [] then store else UnwindAll(Undo(store, Last(h)), Front(h))
  }

  /** A log that can be undone strictly can be undone. */
  lemma {:induction false} StrictReplayIsReplay(store: Store, h: seq<TagEvent>, strict: bool)
    requires Replayable(store, h, strict)
    ensures Replayable(store, h, false)
    decreases |h|
  {
    if h != [] {
      StrictReplayIsReplay(Undo(store, Last(h)), Front(h), strict);
    }
  }

  /** Undoing the same event in two equivalent stores gives equivalent stores. */
  lemma UndoRespectsEquiv(a: Store, b: Store, e: TagEvent, strict: bool)
    requires Equiv(a, b) && CanUndo(a, e, strict) && e.image in b
    ensures CanUndo(b, e, strict)
    ensures Equiv(Undo(a, e), Undo(b, e))
  {
    assert multiset(TagsOf(a, e.image)) == multiset(TagsOf(b, e.image));
    assert e.tag in a[e.image] <==> e.tag in b[e.image] by {
      assert e.tag in a[e.image] <==> e.tag in multiset(a[e.image]);
      assert e.tag in b[e.image] <==> e.tag in multiset(b[e.image]);
    }
    forall p ensures multiset(TagsOf(Undo(a, e), p)) == multiset(TagsOf(Undo(b, e), p)) {
      assert multiset(TagsOf(a, p)) == multiset(TagsOf(b, p));
    }
  }

  /**
   Whether the whole log can be undone, and what undoing it all yields, depend
   only on the store up to equivalence (given that the log's images are keys).
   */
  lemma {:induction false} ReplayRespectsEquiv(a: Store, b: Store, h: seq<TagEvent>, strict: bool)
    requires Equiv(a, b) && Replayable(a, h, strict) && KeysCover(b, h)
    ensures Replayable(b, h, strict)
    ensures Replayable(a, h, false) && Replayable(b, h, false)
    ensures Equiv(UnwindAll(a, h), UnwindAll(b, h))
    decreases |h|
  {
    StrictReplayIsReplay(a, h, strict);
    if h != [] {
      var e := Last(h);
      assert e.image in b;
      UndoRespectsEquiv(a, b, e, strict);
      var a', b' := Undo(a, e), Undo(b, e);
      assert KeysCover(b', Front(h));
      ReplayRespectsEquiv(a', b', Front(h), strict);
      StrictReplayIsReplay(b, h, strict);
    }
  }

  /**
   Undoing the event a toggle recorded restores the image's tags: exactly when
   the tag was added, up to order when it was removed (it comes back at the end).
   */
  lemma UndoInvertsToggle(store: Store, image: Path, tag: Tag)
    ensures var s, e := Toggle(store, image, tag).0, ToggleEvent(store, image, tag);
            && CanUndo(s, e, false)
            && Equiv(Undo(s, e), store)
            && Undo(s, e).Keys == store.Keys + {image}
            && (e.action == Added ==> TagsOf(Undo(s, e), image) == TagsOf(store, image))
            && (NoDup(TagsOf(store, image)) ==> CanUndo(s, e, true))
  {
    var xs := TagsOf(store, image);
    if tag in xs {
      UndoAfterRemove(store, image, tag);
      assert multiset(RemoveFirst(xs, tag) + [tag]) == multiset(xs);
      EquivUpdate(store, image, RemoveFirst(xs, tag) + [tag]);
      UpdateKeys(store, image, RemoveFirst(xs, tag) + [tag]);
    } else {
      UndoAfterAdd(store, image, tag);
      EquivUpdate(store, image, xs);
      UpdateKeys(store, image, xs);
    }
  }

  /** Writing a list under `image` adds `image` to the keys and touches no other key. */
  lemma UpdateKeys(store: Store, image: Path, ys: seq<Tag>)
    ensures store[image := ys].Keys == store.Keys + {image}
  {
  }

  /** The added case of `UndoInvertsToggle`, with every store written out. */
  lemma UndoAfterAdd(store: Store, image: Path, tag: Tag)
    requires tag !in TagsOf(store, image)
    ensures Toggle(store, image, tag).0 == store[image := TagsOf(store, image) + [tag]]
    ensures ToggleEvent(store, image, tag) == TagEvent(image, tag, Added)
    ensures CanUndo(Toggle(store, image, tag).0, TagEvent(image, tag, Added), true)
    ensures Undo(Toggle(store, image, tag).0, TagEvent(image, tag, Added)) == store[image := TagsOf(store, image)]
  {
    var xs := TagsOf(store, image);
    assert Toggle(store, image, tag).0 == store[image := xs + [tag]];
    UndoAppend(store, image, xs, tag);
  }

  /** Undoing the addition of a tag the list lacked gives the list back. */
  lemma UndoAppend(store: Store, image: Path, xs: seq<Tag>, tag: Tag)
    requires tag !in xs
    ensures Undo(store[image := xs + [tag]], TagEvent(image, tag, Added)) == store[image := xs]
  {
    var s := store[image := xs + [tag]];
    RemoveAppended(xs, tag);
    assert Undo(s, TagEvent(image, tag, Added)) == s[image := xs];
    assert s[image := xs] == store[image := xs];
  }

  /** The removed case of `UndoInvertsToggle`, with every store written out. */
  lemma UndoAfterRemove(store: Store, image: Path, tag: Tag)
    requires tag in TagsOf(store, image)
    ensures Toggle(store, image, tag).0 == store[image := RemoveFirst(TagsOf(store, image), tag)]
    ensures ToggleEvent(store, image, tag) == TagEvent(image, tag, Removed)
    ensures CanUndo(Toggle(store, image, tag).0, TagEvent(image, tag, Removed), false)
    ensures Undo(Toggle(store, image, tag).0, TagEvent(image, tag, Removed))
            == store[image := RemoveFirst(TagsOf(store, image), tag) + [tag]]
    ensures NoDup(TagsOf(store, image)) ==> CanUndo(Toggle(store, image, tag).0, TagEvent(image, tag, Removed), true)
  {
    var xs := TagsOf(store, image);
    var ys := RemoveFirst(xs, tag);
    var s := store[image := ys];
    var e := TagEvent(image, tag, Removed);
    assert Toggle(store, image, tag).0 == s;
    assert s[image] == ys;
    assert Undo(s, e) == s[image := ys + [tag]];
    assert s[image := ys + [tag]] == store[image := ys + [tag]];
    if NoDup(xs) {
      RemoveFirstOfNoDup(xs, tag);
    }
  }

  /** Replacing a list by a permutation of it gives an equivalent store. */
  lemma EquivUpdate(store: Store, image: Path, ys: seq<Tag>)
    requires multiset(ys) == multiset(TagsOf(store, image))
    ensures Equiv(store[image := ys], store)
  {
    forall p ensures multiset(TagsOf(store[image := ys], p)) == multiset(TagsOf(store, p)) {
      if p != image {
        assert TagsOf(store[image := ys], p) == TagsOf(store, p);
      }
    }
  }

  /** Removing a tag just appended to a list that lacked it gives the list back. */
  lemma RemoveAppended(xs: seq<Tag>, t: Tag)
    requires t !in xs
    ensures RemoveFirst(xs + [t], t) == xs
  {
    var ys := xs + [t];
    var i := FirstIndex(ys, t);
    assert i == |xs|;
    assert ys[..i] == xs;
  }

  /** Removing a tag from a duplicate-free list leaves a duplicate-free list without it. */
  lemma RemoveFirstOfNoDup(xs: seq<Tag>, t: Tag)
    requires t in xs && NoDup(xs)
    ensures t !in RemoveFirst(xs, t) && NoDup(RemoveFirst(xs, t))
  {
    var r := RemoveFirst(xs, t);
    var i := FirstIndex(xs, t);
    assert r == xs[..i] + xs[i + 1..];
    // position k of r holds xs[k] before i and xs[k + 1] from i on
    forall k | 0 <= k < |r| ensures r[k] == xs[if k < i then k else k + 1] {
    }
    forall k | 0 <= k < |r| ensures r[k] != t {
      var k' := if k < i then k else k + 1;
      assert r[k] == xs[k'] && xs[i] == t && k' != i;
    }
    forall k, m | 0 <= k < m < |r| ensures r[k] != r[m] {
      var k' := if k < i then k else k + 1;
      var m' := if m < i then m else m + 1;
      assert r[k] == xs[k'] && r[m] == xs[m'] && k' < m';
    }
  }

  /** Appending a tag the list lacks keeps it duplicate-free. */
  lemma AppendFreshKeepsNoDup(xs: seq<Tag>, t: Tag)
    requires NoDup(xs) && t !in xs
    ensures NoDup(xs + [t])
  {
    forall i, j | 0 <= i < j < |xs + [t]| ensures (xs + [t])[i] != (xs + [t])[j] {
      if j == |xs| {
        assert (xs + [t])[i] == xs[i];
      }
    }
  }

  /**
   A toggle never creates a duplicate, and it flips whether the tag is present
   (for a list that had no duplicates to begin with).
   */
  lemma ToggleKeepsNoDup(store: Store, image: Path, tag: Tag)
    requires NoDupStore(store)
    ensures NoDupStore(Toggle(store, image, tag).0)
    ensures tag in TagsOf(Toggle(store, image, tag).0, image) <==> tag !in TagsOf(store, image)
  {
    var xs := TagsOf(store, image);
    if tag in xs {
      RemoveFirstOfNoDup(xs, tag);
    } else {
      AppendFreshKeepsNoDup(xs, tag);
    }
  }

  /** A strict undo never creates a duplicate. */
  lemma UndoKeepsNoDup(store: Store, e: TagEvent)
    requires NoDupStore(store) && CanUndo(store, e, true)
    ensures NoDupStore(Undo(store, e))
  {
    if e.action == Added {
      RemoveFirstOfNoDup(store[e.image], e.tag);
    } else {
      AppendFreshKeepsNoDup(store[e.image], e.tag);
    }
  }

  /** Toggling the same tag twice gives the image its original tags back. */
  lemma ToggleTwice(store: Store, image: Path, tag: Tag)
    requires NoDup(TagsOf(store, image))
    ensures var once := Toggle(store, image, tag);
            var twice := Toggle(once.0, image, tag);
            && twice.1 != once.1
            && Equiv(twice.0, store)
            && (once.1 == Added ==> TagsOf(twice.0, image) == TagsOf(store, image))
  {
    var xs := TagsOf(store, image);
    if tag in xs {
      var ys := RemoveFirst(xs, tag);
      ToggleTwicePresent(store, image, tag);
      assert multiset(ys + [tag]) == multiset(xs);
      EquivUpdate(store, image, ys + [tag]);
    } else {
      ToggleTwiceAbsent(store, image, tag);
      EquivUpdate(store, image, xs);
    }
  }

  /** `ToggleTwice` for a tag the image has: removed, then appended at the end. */
  lemma ToggleTwicePresent(store: Store, image: Path, tag: Tag)
    requires NoDup(TagsOf(store, image)) && tag in TagsOf(store, image)
    ensures Toggle(store, image, tag).1 == Removed
    ensures Toggle(Toggle(store, image, tag).0, image, tag).1 == Added
    ensures Toggle(Toggle(store, image, tag).0, image, tag).0
            == store[image := RemoveFirst(TagsOf(store, image), tag) + [tag]]
  {
    var xs := TagsOf(store, image);
    var ys := RemoveFirst(xs, tag);
    UndoAfterRemove(store, image, tag);
    RemoveFirstOfNoDup(xs, tag);
    var once := store[image := ys];
    assert TagsOf(once, image) == ys;
    UndoAfterAdd(once, image, tag);
    assert once[image := ys + [tag]] == store[image := ys + [tag]];
  }

  /** `ToggleTwice` for a tag the image lacks: appended, then removed again. */
  lemma ToggleTwiceAbsent(store: Store, image: Path, tag: Tag)
    requires tag !in TagsOf(store, image)
    ensures Toggle(store, image, tag).1 == Added
    ensures Toggle(Toggle(store, image, tag).0, image, tag).1 == Removed
    ensures Toggle(Toggle(store, image, tag).0, image, tag).0 == store[image := TagsOf(store, image)]
  {
    var xs := TagsOf(store, image);
    UndoAfterAdd(store, image, tag);
    var once := store[image := xs + [tag]];
    assert TagsOf(once, image) == xs + [tag];
    UndoAfterRemove(once, image, tag);
    RemoveAppended(xs, tag);
    assert once[image := xs] == store[image := xs];
  }

  /**
   Recording a toggle on a log that could be undone gives a log that can still
   be undone, and undoing all of it yields what undoing the old log did.
   */
  lemma ToggleExtendsReplay(store: Store, h: seq<TagEvent>, image: Path, tag: Tag, strict: bool)
    requires Replayable(store, h, strict) && KeysCover(store, h)
    requires strict ==> NoDup(TagsOf(store, image))
    ensures var s, h' := Toggle(store, image, tag).0, h + [ToggleEvent(store, image, tag)];
            && KeysCover(s, h')
            && Replayable(s, h', strict)
            && Replayable(s, h', false) && Replayable(store, h, false)
            && Equiv(UnwindAll(s, h'), UnwindAll(store, h))
  {
    var s, e := Toggle(store, image, tag).0, ToggleEvent(store, image, tag);
    UndoInvertsToggle(store, image, tag);
    var u := Undo(s, e);
    ReplayAfterUndo(store, u, h, strict);
    ReplayAppend(s, h, e, strict);
    KeysCoverAppend(store, s, h, e);
  }

  /** The log replays from the store a toggle's undo leaves, just as from the store before. */
  lemma ReplayAfterUndo(store: Store, u: Store, h: seq<TagEvent>, strict: bool)
    requires Replayable(store, h, strict) && KeysCover(store, h)
    requires Equiv(u, store) && store.Keys <= u.Keys
    ensures Replayable(u, h, strict) && Replayable(u, h, false) && Replayable(store, h, false)
    ensures Equiv(UnwindAll(u, h), UnwindAll(store, h))
  {
    EquivSym(u, store);
    assert KeysCover(u, h);
    ReplayRespectsEquiv(store, u, h, strict);
    EquivSym(UnwindAll(store, h), UnwindAll(u, h));
  }

  /** An event that can be undone, on top of a log that replays, gives a log that replays. */
  lemma ReplayAppend(s: Store, h: seq<TagEvent>, e: TagEvent, strict: bool)
    requires CanUndo(s, e, strict) && Replayable(Undo(s, e), h, strict) && Replayable(Undo(s, e), h, false)
    ensures Replayable(s, h + [e], strict) && Replayable(s, h + [e], false)
    ensures UnwindAll(s, h + [e]) == UnwindAll(Undo(s, e), h)
  {
    var h' := h + [e];
    assert Last(h') == e && Front(h') == h;
    StrictReplayIsReplay(s, h', strict);
  }

  /** Logging an event on an image with a key keeps every logged image covered. */
  lemma KeysCoverAppend(store: Store, s: Store, h: seq<TagEvent>, e: TagEvent)
    requires KeysCover(store, h) && store.Keys <= s.Keys && e.image in s
    ensures KeysCover(s, h + [e])
  {
    forall k | 0 <= k < |h + [e]| ensures (h + [e])[k].image in s {
      if k < |h| {
        assert (h + [e])[k] == h[k];
      }
    }
  }
}
