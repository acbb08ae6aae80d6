/**
 The review session of the image viewer (`ImageViewer`): the list of image
 paths, the current index, the tag store and its undo log, and the display
 settings, all updated in place by the key handlers.
 */
module Session {

  import opened Options
  import opened Tags
  import opened Navigation
  import opened Geometry

  /** `show_channel`: choosing the channel already shown returns to the composite "RGB". */
  function ChannelAfter(mode: string, channel: string): (r: string)
    ensures r == channel || r == "RGB"
    ensures r == "RGB" <==> mode == channel || channel == "RGB"
  {
    if mode == channel then "RGB" else channel
  }

  /** `toggle_display_mode`: single becomes grid, anything else becomes single. */
  function FlipDisplay(d: DisplayMode): (r: DisplayMode)
    ensures r != d
  {
    if d == Single then Grid else Single
  }

  /** Pressing the same channel key twice from another mode comes back to "RGB". */
  lemma ShowChannelTwice(mode: string, c: string)
    requires mode != c
    ensures ChannelAfter(ChannelAfter(mode, c), c) == "RGB"
  {
  }

  /** The second of two different channel keys wins. */
  lemma ShowChannelSwitch(mode: string, c: string, d: string)
    requires c != d
    ensures ChannelAfter(ChannelAfter(mode, c), d) == d
  {
  }

  /** Flipping the display mode twice changes nothing. */
  lemma FlipDisplayInvolution(d: DisplayMode)
    ensures FlipDisplay(d) != d && FlipDisplay(FlipDisplay(d)) == d
  {
  }

  /**
   The log invariant of a session: every logged image has a key, the whole log
   can be undone without raising, and undoing it all gives back `initial`.
   */
  ghost predicate LogInvariant(store: Store, log: seq<TagEvent>, initial: Store)
  {
    && KeysCover(store, log)
    && Replayable(store, log, false)
    && Equiv(UnwindAll(store, log), initial)
  }

  /** No tag list holds a duplicate, and undoing the log will never create one. */
  ghost predicate CleanLog(store: Store, log: seq<TagEvent>)
  {
    NoDupStore(store) && Replayable(store, log, true)
  }

  /** Once every event has been undone, the tags are the loaded ones, up to order within a list. */
  lemma LogEmptyMeansLoaded(store: Store, initial: Store)
    requires LogInvariant(store, [], initial)
    ensures Equiv(store, initial)
  {
    assert UnwindAll(store, []) == store;
  }

  /** The log invariants of the session survive a toggle that is logged. */
  lemma ToggleKeepsLog(store: Store, log: seq<TagEvent>, image: Path, tag: Tag, initial: Store)
    requires LogInvariant(store, log, initial)
    ensures LogInvariant(Toggle(store, image, tag).0, log + [ToggleEvent(store, image, tag)], initial)
    ensures CleanLog(store, log) ==>
              CleanLog(Toggle(store, image, tag).0, log + [ToggleEvent(store, image, tag)])
  {
    var s, h := Toggle(store, image, tag).0, log + [ToggleEvent(store, image, tag)];
    ToggleExtendsReplay(store, log, image, tag, false);
    EquivTrans(UnwindAll(s, h), UnwindAll(store, log), initial);
    if CleanLog(store, log) {
      ToggleExtendsReplay(store, log, image, tag, true);
      ToggleKeepsNoDup(store, image, tag);
    }
  }

  class ImageViewer {
    const files: seq<Path>
    var currentIndex: nat
    var tags: Store
    var history: seq<TagEvent>
    var displayMode: DisplayMode
    var renderMode: string
    var skipTagged: bool

    /** The tag store as loaded when the session started. */
    ghost var Initial: Store

    /**
     The index is in range, every logged image has a key, the whole log can be
     undone without raising, and undoing it all gives back the loaded tags.
     */
    ghost predicate Valid()
      reads this`currentIndex, this`tags, this`history, this`Initial
    {
      |files| > 0 && currentIndex < |files| && LogValid()
    }

    /** The tag and log part of `Valid`. */
    ghost predicate LogValid()
      reads this`tags, this`history, this`Initial
    {
      LogInvariant(tags, history, Initial)
    }

    /** The tags hold no duplicates, now or after any number of undos. */
    ghost predicate Clean()
      reads this`tags, this`history
    {
      CleanLog(tags, history)
    }

    /**
     A session over `files` with the tags `loaded` from the tag file: grid mode,
     skipping tagged images, at the first image, with an empty undo log.
     */
    constructor (files: seq<Path>, loaded: Store)
      requires |files| > 0
      ensures Valid()
      ensures this.files == files && currentIndex == 0 && tags == loaded && history == []
      ensures displayMode == Grid && renderMode == "RGB" && skipTagged
      ensures Initial == loaded
      ensures NoDupStore(loaded) ==> Clean()
    {
      this.files := files;
      currentIndex := 0;
      tags := loaded;
      history := [];
      displayMode := Grid;
      renderMode := "RGB";
      skipTagged := true;
      Initial := loaded;
    }

    /**
     The loop of `next_image` and `prev_image`: step until an eligible image is
     reached, or report "Done" (false) once back at the start.
     */
    method Navigate(dir: Direction) returns (found: bool)
      requires Valid()
      modifies this`currentIndex
      ensures Valid()
      ensures var t := Target(files, tags, skipTagged, old(currentIndex), dir);
              && (found <==> t.Some?)
              && currentIndex == (if found then t.value else old(currentIndex))
    {
      var n := |files|;
      var start := currentIndex;
      var k: nat := 0;
      ModSmall(start, n);
      while true
        invariant k < n
        invariant currentIndex == Offset(start, dir, k, n)
        invariant Target(files, tags, skipTagged, start, dir) == Scan(files, tags, skipTagged, start, dir, k + 1)
        decreases n - k
      {
        StepOffset(start, dir, k, n);
        currentIndex := Step(currentIndex, dir, n);
        k := k + 1;
        assert Scan(files, tags, skipTagged, start, dir, k) ==
               if Eligible(files, tags, skipTagged, currentIndex) then Some(currentIndex)
               else if k == n then None
               else Scan(files, tags, skipTagged, start, dir, k + 1);
        if Eligible(files, tags, skipTagged, currentIndex) {
          return true;
        }
        OffsetReturns(start, dir, k, n);
        if currentIndex == start {
          return false;
        }
      }
    }

    /** `next_image`. */
    method NextImage() returns (found: bool)
      requires Valid()
      modifies this`currentIndex
      ensures Valid()
      ensures var t := Target(files, tags, skipTagged, old(currentIndex), Forward);
              && (found <==> t.Some?)
              && currentIndex == (if found then t.value else old(currentIndex))
    {
      found := Navigate(Forward);
    }

    /** `prev_image`. */
    method PrevImage() returns (found: bool)
      requires Valid()
      modifies this`currentIndex
      ensures Valid()
      ensures var t := Target(files, tags, skipTagged, old(currentIndex), Backward);
              && (found <==> t.Some?)
              && currentIndex == (if found then t.value else old(currentIndex))
    {
      found := Navigate(Backward);
    }

    /** `toggle_skip_behavior`. */
    method ToggleSkipBehavior()
      modifies this`skipTagged
      ensures skipTagged == !old(skipTagged)
    {
      skipTagged := !skipTagged;
    }

    /** `show_channel`. */
    method ShowChannel(channel: string)
      modifies this`renderMode
      ensures renderMode == ChannelAfter(old(renderMode), channel)
    {
      if renderMode == channel {
        renderMode := "RGB";
      } else {
        renderMode := channel;
      }
    }

    /** `toggle_display_mode`. */
    method ToggleDisplayMode()
      modifies this`displayMode
      ensures displayMode == FlipDisplay(old(displayMode))
    {
      displayMode := if displayMode == Single then Grid else Single;
    }

    /**
     The first half of `toggle_tag`: add `tag` to the list of `image` (created
     empty when the image has no key) or remove its first occurrence, and log
     what was done. The log stays undoable and still leads back to the
     loaded tags.
     */
    method ApplyToggle(image: Path, tag: Tag)
      requires Valid()
      modifies this`tags, this`history
      ensures Valid()
      ensures tags == Toggle(old(tags), image, tag).0
      ensures history == old(history) + [ToggleEvent(old(tags), image, tag)]
      ensures old(Clean()) ==> Clean()
    {
      ToggleKeepsLog(tags, history, image, tag, Initial);
      var current := if image in tags then tags[image] else [];
      var action := Added;
      if tag in current {
        current := RemoveFirst(current, tag);
        action := Removed;
      } else {
        current := current + [tag];
      }
      tags := tags[image := current];
      history := history + [TagEvent(image, tag, action)];
    }

    /**
     `toggle_tag`: toggle `tag` on the current image, log the event, then move
     on as `next_image` does, under the new tags.
     */
    method ToggleTag(tag: Tag) returns (found: bool)
      requires Valid()
      modifies this`tags, this`history, this`currentIndex
      ensures Valid()
      ensures tags == Toggle(old(tags), files[old(currentIndex)], tag).0
      ensures history == old(history) + [ToggleEvent(old(tags), files[old(currentIndex)], tag)]
      ensures var t := Target(files, tags, skipTagged, old(currentIndex), Forward);
              && (found <==> t.Some?)
              && currentIndex == (if found then t.value else old(currentIndex))
      ensures old(Clean()) ==> Clean()
    {
      ApplyToggle(files[currentIndex], tag);
      found := NextImage();
    }

    /**
     `undo_tag`: with an empty log nothing happens; otherwise pop the newest
     event and invert it.
     */
    method UndoTag()
      requires Valid()
      modifies this`tags, this`history
      ensures Valid()
      ensures old(history) == [] ==> tags == old(tags) && history == old(history)
      ensures old(history) != [] ==>
                && history == Front(old(history))
                && tags == Undo(old(tags), Last(old(history)))
      ensures history == [] ==> Equiv(tags, Initial)
      ensures old(Clean()) ==> Clean()
    {
      if history == [] {
        LogEmptyMeansLoaded(tags, Initial);
        return;
      }
      var last := history[|history| - 1];
      ghost var store := tags;
      history := history[..|history| - 1];
      if last.action == Added {
        tags := tags[last.image := RemoveFirst(tags[last.image], last.tag)];
      } else {
        tags := tags[last.image := tags[last.image] + [last.tag]];
      }
      assert tags == Undo(store, last);
      if old(Clean()) {
        UndoKeepsNoDup(store, last);
      }
      if history == [] {
        LogEmptyMeansLoaded(tags, Initial);
      }
    }

    /**
     What `load_image` draws for the current modes: a grid only in grid mode, a
     single band only in single mode and only the band the render mode names.
     */
    function Render(image: Size, bands: nat, window: Size): (r: Render)
      reads this
      ensures r == Plan(displayMode, renderMode, image, bands, window)
      ensures r.GridView? ==> displayMode == Grid && |r.tiles| == bands
      ensures r.SingleView? ==> displayMode == Single && BandOf(renderMode) == Some(r.band) && r.band < bands
      ensures displayMode == Single && renderMode == "RGB" ==> !r.GridView? && !r.SingleView?
    {
      Plan(displayMode, renderMode, image, bands, window)
    }
  }
}
