# Image review session of the texture tagging tool, in Dafny

This project models the core of `app.py`: the `ImageViewer` session that
walks a list of extracted texture files, filters out files that are not
worth reviewing, lets a reviewer toggle the tags `copy` and `skip` on the
current image with an undo log, navigates forwards and backwards with
wrap-around, and computes the scaled size and 2x2 channel grid of the picture
it draws.

- `filter.dfy` (module `Filter`): `is_image_valid`, a case-sensitive substring
  exclusion list over relative paths, including the literal backslash entries.
- `tags.dfy` (module `Tags`): the tag store (path to list of tags) and the undo
  log as values. It holds the toggle and undo steps and the theory of replaying
  the log backwards: undo never raises, never creates a duplicate, and restores
  the tags.
- `navigation.dfy` (module `Navigation`): the specification of where
  `next_image` / `prev_image` land. Python's `%` on a positive modulus agrees
  with Dafny's Euclidean `%`.
- `geometry.dfy` (module `Geometry`): the dimension arithmetic of `load_image`.
  It covers fit-inside scaling, the grid quadrants and what a render produces
  for each display mode, including the error cases.
- `session.dfy` (module `Session`): the class `ImageViewer`. Its fields
  `currentIndex`, `tags` and `history` are updated in place by the key
  handlers. `next_image` / `prev_image` are a `while` loop proved against
  `Navigation.Target`. A ghost field `Initial` remembers the tags as loaded,
  and the class invariant keeps "undoing the whole log gives back the loaded
  tags".

Three behaviours of the code that the model keeps as they are:

- A toggle that removes the last tag of an image leaves an empty list under
  the key rather than deleting it. An image counts as tagged only when its
  list is non-empty.
- Undo of a removal appends the tag at the end of the list. The log therefore
  restores the tags of an image as a multiset (`Tags.Equiv`), not as the exact
  list. The exact list comes back when the undone event was an addition.
- Single display mode with the default composite mode `"RGB"` does not draw
  the composite. The channel table has no `"RGB"` entry, so the lookup raises
  (`Geometry.Render.Raised(UnknownChannel("RGB"))`).

Inputs the session receives from outside are parameters of the model:

- the file list (from the directory walk);
- the loaded tag store (from the tag file);
- the window size, and the image's size and band count (from the windowing
  toolkit and the imaging library).

## Model

| member | source | states |
|---|---|---|
| Filter.IsImageValid | app.py:128-141 | `is_image_valid` holds exactly when no entry of the exclusion list is a substring of the path |
| Filter.AnyOccursSpec | app.py:141 | `any(f in path for f in filters)` holds exactly when some pattern of the list is a substring of the path |
| Filter.ValidIffNoExcludedSubstring | app.py:128-141 | a path is valid exactly when it contains none of the ten excluded substrings, matched case-sensitively |
| Filter.ColourMapRejected | app.py:128-141 | `weapons\rifle_co.png` is rejected, by the `co.png` entry |
| Filter.UiIconRejected | app.py:135 | `textures\UI\icon_ao.png` is rejected, by the `\UI\` entry |
| Filter.NormalMapAccepted | app.py:128-141 | `weapons\rifle_normal.png` is accepted |
| Filter.MissingCharExcludes | app.py:141 | a pattern holding a character the path lacks is not a substring of it |
| Filter.PinnedCharExcludes | app.py:141 | a pattern whose j-th character occurs in the path only at q can only occur at q - j |
| Geometry.ScaledSize | app.py:82-96 | the scaled size fits inside the window |
| Geometry.ScaledSizeKeepsAspect | app.py:88-96 | a relatively wider image is pinned to the window width, with height equal to the proportional height rounded down; any other image is pinned to the window height, with width rounded down likewise |
| Geometry.PinnedWidth | app.py:88-92 | a relatively wider image has a non-zero width, and its derived height is the floor quotient and at most the window height |
| Geometry.PinnedHeight | app.py:93-96 | for an image that is not relatively wider, the derived width is the floor quotient and at most the window width |
| Geometry.WideImageExample | app.py:88-92 | a 4000x2000 image in an 800x600 window is relatively wider and scales to 800x400 |
| Geometry.TileAt | app.py:111-119 | channel `idx` gets a quadrant of half the scaled width and height; for idx < 4 it lies inside the scaled rectangle |
| Geometry.TileCorner | app.py:119 | channels 0..3 sit at column offset 0 or one quadrant width (by `idx % 2`) and row offset 0 or one quadrant height (by `idx // 2`) |
| Geometry.GridTiles | app.py:108-119 | one tile per band, tile `idx` being `TileAt(scaled, idx)` (half-size quadrant at `idx % 2`, `idx // 2`); with at most four bands and a scaled size of at least 2x2, every quadrant is non-empty and inside the scaled rectangle, and no two quadrants overlap |
| Geometry.GridTilesPartition | app.py:111-119 | tiles placed at the quadrant positions of `idx % 2` and `idx // 2`, for at most four bands in a scaled size of at least 2x2, are non-empty, inside the scaled rectangle and pairwise disjoint |
| Geometry.BandOf | app.py:122 | the single-channel table has exactly the keys R, G, B, A, each naming a band below 4 |
| Geometry.Plan | app.py:74-126 | a zero-size window draws nothing; a zero image height raises division by zero; a scaled size with a side of at most 1 draws nothing; at a scaled size of at least 2x2 grid mode draws `GridTiles` of the fit-inside `ScaledSize`, and single mode draws the band the render mode names when the image has it, raises a missing band when it does not and an unknown channel when the mode names none; any drawn picture is at least 2x2 and within the window |
| Geometry.TinyWindowRendersNothing | app.py:78-100 | a window one pixel wide or high never draws |
| Geometry.SingleCompositeRaises | app.py:121-123 | single mode with render mode "RGB" never draws; once the scaled image is at least 2x2 the channel lookup raises |
| Tags.FirstIndex | app.py:219 | `list.remove` acts at the first occurrence: the index holds the tag and no earlier position does |
| Tags.RemoveFirst | app.py:219 | removing a present tag takes out its first occurrence and keeps the other tags in their order; as a multiset exactly one copy goes |
| Tags.Toggle | app.py:213-222 | the tag is added exactly when the image did not have it; the image ends up with a key; an added tag goes at the end; a removed tag loses its first copy, the other tags keeping their order (`RemoveFirst`); every other image's entry is unchanged |
| Tags.ToggleEvent | app.py:224-228 | the logged event names the image and the tag, and says `added` exactly when the image lacked the tag |
| Tags.CanUndo | app.py:241-244 | the conditions under which `undo_tag` raises neither a missing-key nor a missing-value error; the strict form implies the plain one |
| Tags.HasTags | app.py:148-149 | an image counts as tagged exactly when its list, with a missing key read as empty, is non-empty |
| Tags.Undo | app.py:240-244 | undo touches only the event's image: a removed tag is appended again; an added tag loses its first copy, the other tags keeping their order (`RemoveFirst`) |
| Tags.UndoInvertsToggle | app.py:212-244 | undo can always invert the event a toggle just logged; it gives back the image's tags as a multiset, adds no key beyond the image, and gives back the exact list when the tag was added; it is strict when the list had no duplicates |
| Tags.UndoAfterAdd | app.py:214-222 | toggling a tag an image lacks appends it and logs `added`, and undoing that event gives back the original list |
| Tags.UndoAppend | app.py:242 | undoing the addition of a tag the list lacked gives the list back |
| Tags.UndoAfterRemove | app.py:218-220 | toggling a present tag removes its first copy and logs `removed`; undoing that event appends it again; with no duplicates before, the undo cannot create one |
| Tags.RemoveAppended | app.py:222 | removing a tag just appended to a list without it gives the list back |
| Tags.RemoveFirstOfNoDup | app.py:219 | removing a tag from a duplicate-free list leaves a duplicate-free list without the tag |
| Tags.AppendFreshKeepsNoDup | app.py:222 | appending a tag the list lacks keeps it duplicate-free |
| Tags.ToggleKeepsNoDup | app.py:217-222 | a toggle never creates a duplicate, and it flips whether the tag is present |
| Tags.UndoKeepsNoDup | app.py:241-244 | a strict undo never creates a duplicate |
| Tags.ToggleTwice | app.py:212-222 | for an image whose list has no duplicates, toggling the same tag twice flips the logged action and gives back the image's tags as a multiset, and the exact list when the first toggle added |
| Tags.ToggleTwicePresent | app.py:218-222 | for a tag the image has, in a duplicate-free list, the first toggle removes it and the second appends it at the end |
| Tags.ToggleTwiceAbsent | app.py:218-222 | for a tag the image lacks, the first toggle appends it and the second removes it, restoring the list |
| Tags.StrictReplayIsReplay | app.py:236-244 | a log that can be undone without creating duplicates can be undone |
| Tags.UndoRespectsEquiv | app.py:240-244 | undoing the same event in two stores with the same tags keeps them equal as multisets |
| Tags.ReplayRespectsEquiv | app.py:236-244 | whether the whole log can be undone, and what undoing it gives, depend only on the tags as multisets |
| Tags.ToggleExtendsReplay | app.py:212-244 | logging a toggle on an undoable log keeps it undoable (strictly, for a duplicate-free list), and undoing all of it still gives what undoing the old log gave |
| Tags.ReplayAfterUndo | app.py:236-244 | the log replays from the store an undo of a toggle leaves, just as from the store before the toggle |
| Tags.ReplayAppend | app.py:224-228 | an event that can be undone, pushed on a log that replays, gives a log that replays, with the same final store |
| Tags.KeysCoverAppend | app.py:214-215 | after logging an event for an image with a key, every logged image still has a key |
| Tags.EquivUpdate | app.py:219-244 | replacing an image's list by a permutation of it leaves the tags unchanged as multisets |
| Navigation.Eligible | app.py:148-149 | an eligible image passes the filter; while skipping, it has no tags; without skipping, eligibility is exactly the filter |
| Navigation.Step | app.py:146 | one step forward or back stays in `[0, n)` |
| Navigation.Offset | app.py:146 | the index k steps from the start stays in `[0, n)` |
| Navigation.StepOffset | app.py:146 | one more step from the index k steps away gives the index k + 1 steps away, in both directions |
| Navigation.OffsetReturns | app.py:151 | within one cycle the scan is back at the start exactly after n steps |
| Navigation.OffsetCovers | app.py:145-154 | every index is reached within one cycle, in either direction |
| Navigation.Scan | app.py:145-154 | the rest of the scan from step `k`: whatever it finds is an index in range that is eligible |
| Navigation.Target | app.py:143-168 | where `next_image`/`prev_image` land: any index found is in range and eligible |
| Navigation.ScanFindsFirst | app.py:145-150 | a found index is eligible and is the first eligible index the scan meets |
| Navigation.ScanNone | app.py:145-154 | the scan finds nothing exactly when no index it can still visit is eligible |
| Navigation.TargetIsFirstEligible | app.py:143-168 | navigation lands on an eligible image, the first one in its direction; it lands back on the start only when no other image is eligible |
| Navigation.DoneIffNoneEligible | app.py:151-154 | "Done" is shown exactly when no image at all is eligible |
| Session.ChannelAfter | app.py:176-179 | the new render mode is the pressed channel or "RGB", and it is "RGB" exactly when the channel was already shown or is "RGB" itself |
| Session.FlipDisplay | app.py:183 | the display mode always changes |
| Session.ShowChannelTwice | app.py:174-179 | the same channel key twice from another mode returns to "RGB" |
| Session.ShowChannelSwitch | app.py:174-179 | of two different channel keys, the second wins |
| Session.FlipDisplayInvolution | app.py:182-183 | toggling the display mode changes it, and toggling twice gives it back |
| Session.LogEmptyMeansLoaded | app.py:236-238 | with the log empty, the tags equal the loaded ones as multisets |
| Session.ToggleKeepsLog | app.py:212-228 | a logged toggle keeps the log invariant: logged images have keys, the log can be undone, and undoing it all gives the loaded tags; it keeps the no-duplicate invariant as well |
| Session.ImageViewer.constructor | app.py:9-30 | grid mode, skipping tagged images, index 0, render mode "RGB", empty log, tags as loaded, with the session invariant established |
| Session.ImageViewer.Navigate | app.py:143-169 | the `while True` loop of `next_image`/`prev_image`; it ends on `Target`, keeps the index in range, and leaves the index at the start on "Done" |
| Session.ImageViewer.NextImage | app.py:143-155 | `next_image` lands on `Target(..., Forward)`, or reports "Done" and keeps the index |
| Session.ImageViewer.PrevImage | app.py:157-169 | `prev_image` lands on `Target(..., Backward)`, or reports "Done" and keeps the index |
| Session.ImageViewer.ToggleSkipBehavior | app.py:171-172 | the skip flag is negated and nothing else changes |
| Session.ImageViewer.ShowChannel | app.py:174-179 | the render mode becomes "RGB" when the channel is already shown, the channel otherwise |
| Session.ImageViewer.ToggleDisplayMode | app.py:182-183 | single becomes grid, grid becomes single |
| Session.ImageViewer.ApplyToggle | app.py:213-228 | the store becomes `Toggle` of the old store and one matching event is logged; the log invariant and the no-duplicate invariant are kept |
| Session.ImageViewer.ToggleTag | app.py:212-234 | toggles and logs on the current image, then navigates forward under the new tags |
| Session.ImageViewer.Render | app.py:74-126 | what `load_image` produces is `Plan` at the session's current display and render modes: a grid only in grid mode, with one tile per band; a single band only in single mode, the one the render mode names; single mode with "RGB" draws nothing |
| Session.ImageViewer.UndoTag | app.py:236-247 | an empty log changes nothing; otherwise it pops exactly the last event and inverts it; the index is never changed; with the log empty the tags are the loaded ones as multisets; the invariants are kept |

## Left out

- The tkinter window, key bindings, canvas drawing, the title bar and the tag panel (`update_tag_panel`): user interface only. `ToggleTag` and `UndoTag` do not model the panel refresh.
- Image decoding, resizing, band splitting and merging: pixel work in the imaging library. Only sizes, positions and band indices are modelled. `Geometry.Plan` takes the image's size and band count as inputs.
- Geometry.ScaledSize: the aspect ratios are Python floats truncated by `int()`. The model compares them exactly, by cross-multiplication, and rounds the derived side down exactly. Float rounding edge cases, where the float result is one pixel off the exact floor, are not captured.
- Geometry.GridTiles: states non-overlap only for at most four bands, and so does Geometry.GridTilesPartition. The source places any further band in a third row, which can fall outside the scaled rectangle.
- Reading and writing the tag file (`load_tags`, `save_tags`): file I/O. The constructor takes the loaded store as a parameter, and saving after each change is not modelled.
- The directory walk that builds the file list, including its extension check: file system I/O. The file list is a constructor parameter.
- Session.ImageViewer.constructor: requires a non-empty file list. With no files the source raises when it first loads an image, so no session exists.
- Session.ImageViewer.ShowChannel: does not model the re-render that follows a mode change. The same goes for `ToggleDisplayMode`, `NextImage` and `PrevImage`. `Session.ImageViewer.Render` gives what that render would produce.
- Session.ImageViewer.UndoTag: the invariant that keeps every undo from raising is proved for the logs the session builds. Tags loaded from the file may already hold duplicates, so the no-duplicate guarantee is conditional: it holds from the first state in which `Clean()` holds.
- `tag_image`: never bound to a key, and it keys the store by absolute paths with `True` values. It is not part of this model.
- `quit_viewer`: saves and exits; I/O only.
- The archive extraction, texture conversion, folder sync and copy scripts (`conversion_utils.py`, `extract.py`, `convert_paa2png.py`, `convert_png2paa.py`, `process.py`, `copy_tagged.py`): external tools, thread pools and file copying. They are not part of this model.
