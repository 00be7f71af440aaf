# FlickrSearch photo grid controller, modelled in Dafny

This project models the view controller of the FlickrSearch screen. The screen searches a photo
service and adds each result set to a grid, newest first. Tapping a photo enlarges it, and tapping
it again collapses it. A share button switches to a multi-select mode, and the thumbnails of the
selected photos go to the platform share sheet.

With the UIKit plumbing removed, the controller is a small event-driven state machine. Its state is
four fields:

- `searches`: the result-set accumulator.
- `largePhotoIndexPath`: the optional enlarged grid position.
- `isSharing`: the sharing flag.
- `selectedPhotos`: the sharing selection.

Each callback that changes state is one method of the class
`Controller.FlickrPhotosCollectionViewController`; the data-source counts and the lookup are
functions in `Photos`, and the text field's guard is the function `SearchQuery`. The property observers (`didSet`) on
`largePhotoIndexPath` and `isSharing` become the methods `SetLargePhotoIndexPath` and `SetSharing`,
and every assignment in the source goes through them.

Some UI state is kept as plain fields of the class:

- the count label's text (`shareLabel`);
- the collection view's `allowsMultipleSelection`;
- whether the navigation item has a share button (`hasShareButton`, fixed at construction).

Requests to the framework go into the field `requests` in the order they are issued. These are:
reload items, reload data, clear the cell selection, set the bar items, and present the share sheet.

`Valid()` is the class invariant. Every event method keeps it, and the constructor, `SetSharing`
and `ShareCompleted` establish it from any state. It says four things:

- multi-select follows sharing mode;
- the selection is empty outside sharing mode;
- in sharing mode with a share button, nothing is enlarged and the label counts the selection;
- every selected photo is one the grid shows.

Because of the second point, the third guard of the share button ("not sharing") can never fire
in a valid state, and `ShareButtonTapped` says so.

Module `Photos` (Photos.dfy) holds the value types and the pure expressions:

- the grid lookup `photo(for:)` and the section and item counts;
- the `compactMap` that collects thumbnails;
- `firstIndex(of:)` followed by `remove(at:)`.

Module `Controller` (Controller.dfy) holds the class, a cell class `PhotoCell`, and the pure
decision functions the methods are specified against. It ends with four scenario methods. Each one
runs a short sequence of events and states the outcome.

Behaviour of the code that is easy to misread:

- Selecting a photo in sharing mode appends it with no duplicate check. Selecting the same photo
  twice lists it twice (`ShareScenario`). The same photo also appears at two positions when the
  same search runs twice, and selecting it at both lists it twice. Deselecting removes only the
  first copy (`RemoveFirstKeepsLaterCopies`, `RepeatedSearchScenario`).
- Entering sharing mode collapses the enlarged photo only when the navigation item has a share
  button. The early return for a missing button comes after the selection is cleared and before
  the collapse.
- Leaving sharing mode through the share button's toggle does not refresh the count label. Only the
  share completion handler blanks it.
- `cellForItemAt` tests only whether some position is enlarged, not whether it is this cell's.
  It then starts the fetch for the enlarged position, not for the cell's own. So while one photo is
  enlarged, any other cell that is rendered looks selected and, when its large image is not yet
  cached, fetches it; if that photo is still enlarged when the fetch completes, the large image is
  applied to the cell (`OtherCellsRenderAsEnlarged`, `OtherCellFetchScenario`).
- Prepending a result set moves every existing section down by one, but the enlarged position is
  not adjusted (`PrependShiftsSections` for the shift; `SearchCompleted`, which changes only
  `searches` and `requests`, for the unchanged position). After a search completes, it then names whatever photo is
  now at that position, possibly the same one or none at all.

## Model

| member | source | states |
|---|---|---|
| Photos.PhotoAt | FlickrSearch/FlickrPhotosCollectionViewController.swift:187-189 | for an in-range position, the photo returned belongs to that section's result set and is among the photos the grid shows |
| Photos.NumberOfSections | FlickrSearch/FlickrPhotosCollectionViewController.swift:227-229 | no sections exactly when there are no searches; every displayable position lies in a counted section |
| Photos.NumberOfItems | FlickrSearch/FlickrPhotosCollectionViewController.swift:231-233 | the rows counted in a section are exactly the displayable positions of that section |
| Photos.AllPhotosDisplayed | FlickrSearch/FlickrPhotosCollectionViewController.swift:187-189 | every photo of every result set is returned by the lookup at some displayable position |
| Photos.AllPhotosPrepend | FlickrSearch/FlickrPhotosCollectionViewController.swift:214 | after a result set is prepended, the displayed photos are its photos followed by all photos shown before |
| Photos.PrependShiftsSections | FlickrSearch/FlickrPhotosCollectionViewController.swift:214 | after a prepend, the photo at (s, r) is found at (s+1, r) |
| Photos.Thumbnails | FlickrSearch/FlickrPhotosCollectionViewController.swift:161-167 | no more images than photos; empty exactly when no photo has a thumbnail; every image is the thumbnail of some selected photo |
| Photos.ThumbnailsAppend | FlickrSearch/FlickrPhotosCollectionViewController.swift:161-167 | collecting thumbnails distributes over concatenation, so selection order is kept |
| Photos.ThumbnailsAllPresent | FlickrSearch/FlickrPhotosCollectionViewController.swift:161-167 | when every photo has a thumbnail, nothing is skipped and image i is the thumbnail of photo i |
| Photos.FirstIndexOf | FlickrSearch/FlickrPhotosCollectionViewController.swift:115 | no index exactly when the photo is absent; otherwise an index holding it with no earlier occurrence |
| Photos.RemoveFirst | FlickrSearch/FlickrPhotosCollectionViewController.swift:115-116 | unchanged when absent; otherwise one shorter with exactly one copy removed (multiset), and no new elements |
| Photos.RemoveFirstKeepsLaterCopies | FlickrSearch/FlickrPhotosCollectionViewController.swift:115-116 | a photo present twice is still present after one removal, with its count lowered by one |
| Photos.RemoveFirstShape | FlickrSearch/FlickrPhotosCollectionViewController.swift:115-116 | elements before the first occurrence keep their place and the later ones move up by one |
| Controller.NextEnlarged | FlickrSearch/FlickrPhotosCollectionViewController.swift:90-94 | collapses exactly when the tapped position was the enlarged one, otherwise enlarges the tapped position |
| Controller.ReloadPaths | FlickrSearch/FlickrPhotosCollectionViewController.swift:39-46 | reloads exactly the present ones among the new and old enlarged positions, the new one first |
| Controller.SearchQuery | FlickrSearch/FlickrPhotosCollectionViewController.swift:194-201 | a query starts exactly when the text field has non-empty text, and the query is that text |
| Controller.SearchesNewestFirst | FlickrSearch/FlickrPhotosCollectionViewController.swift:209-214 | after any order of successful completions, the accumulator is those results reversed, ahead of the earlier contents |
| Controller.LatestSearchFirst | FlickrSearch/FlickrPhotosCollectionViewController.swift:209-214 | the most recently completed search is section 0 |
| Controller.ShareDecision | FlickrSearch/FlickrPhotosCollectionViewController.swift:153-172 | the guards in order: no searches; empty selection toggles; not sharing; no thumbnails; otherwise present the non-empty thumbnail list |
| Controller.CellChoice | FlickrSearch/FlickrPhotosCollectionViewController.swift:245-261 | selected look exactly when any position is enlarged; large image when enlarged and cached, else thumbnail; fetch exactly when enlarged and not cached, for the enlarged position |
| Controller.OtherCellsRenderAsEnlarged | FlickrSearch/FlickrPhotosCollectionViewController.swift:245-259 | a cell other than the enlarged one still gets the selected look and, if uncached, a fetch for the enlarged position |
| Controller.PhotoCell.constructor | FlickrSearch/FlickrPhotosCollectionViewController.swift:236-243 | a cell before it is filled in shows no image, does not look selected and has its activity indicator stopped |
| Controller.FlickrPhotosCollectionViewController.SharingRequests | FlickrSearch/FlickrPhotosCollectionViewController.swift:62-83 | the isSharing observer always first clears the cell selection; with a share button it ends by setting the bar items for the new value, preceded on true by one reload of the enlarged position when there is one; without one it does nothing more |
| Controller.FlickrPhotosCollectionViewController.constructor | FlickrSearch/FlickrPhotosCollectionViewController.swift:34-60 | starts with no searches, nothing enlarged, not sharing, an empty selection, and the invariant holding |
| Controller.FlickrPhotosCollectionViewController.SetLargePhotoIndexPath | FlickrSearch/FlickrPhotosCollectionViewController.swift:37-49 | stores the new position and requests a reload of the new and old positions |
| Controller.FlickrPhotosCollectionViewController.UpdateSharedPhotoCountLabel | FlickrSearch/FlickrPhotosCollectionViewController.swift:140-146 | the label counts the selection in sharing mode and is blank otherwise |
| Controller.FlickrPhotosCollectionViewController.SetSharing | FlickrSearch/FlickrPhotosCollectionViewController.swift:60-85 | any assignment empties the selection; with a share button, true also collapses and shows the count label; the exact requests issued; establishes the invariant |
| Controller.FlickrPhotosCollectionViewController.ShouldSelectItemAt | FlickrSearch/FlickrPhotosCollectionViewController.swift:87-97 | in sharing mode returns true and changes nothing; otherwise returns false, toggles the enlarged position and reloads |
| Controller.FlickrPhotosCollectionViewController.DidSelectItemAt | FlickrSearch/FlickrPhotosCollectionViewController.swift:99-107 | in sharing mode appends exactly the tapped photo at the end and updates the label; otherwise nothing changes |
| Controller.FlickrPhotosCollectionViewController.DidDeselectItemAt | FlickrSearch/FlickrPhotosCollectionViewController.swift:109-119 | in sharing mode removes the first copy of the tapped photo if present and updates the label only then; otherwise nothing changes |
| Controller.FlickrPhotosCollectionViewController.ShareButtonTapped | FlickrSearch/FlickrPhotosCollectionViewController.swift:153-172 | the outcome is the guard decision on the old state, never "not sharing"; a toggle acts as an assignment to isSharing; otherwise only a share request is added |
| Controller.FlickrPhotosCollectionViewController.ShareCompleted | FlickrSearch/FlickrPhotosCollectionViewController.swift:174-178 | afterwards not sharing, selection empty, label blank, whatever the share outcome |
| Controller.FlickrPhotosCollectionViewController.SearchCompleted | FlickrSearch/FlickrPhotosCollectionViewController.swift:205-216 | a success is prepended as section 0 and the grid reloaded; a failure changes nothing; the enlarged position is left as it was |
| Controller.FlickrPhotosCollectionViewController.CellForItemAt | FlickrSearch/FlickrPhotosCollectionViewController.swift:235-262 | the cell is filled in as the cell choice says, and the fetch returned is for the enlarged position with the cell's photo and records the cell |
| Controller.FlickrPhotosCollectionViewController.LargeImageFetchCompleted | FlickrSearch/FlickrPhotosCollectionViewController.swift:121-137 | on the cell the fetch was started for, the indicator stops and the image is set only for a success whose position equals the enlarged position at completion |
| Controller.StaleFetchScenario | FlickrSearch/FlickrPhotosCollectionViewController.swift:129-135 | a large image that arrives after another photo was enlarged is dropped, and the cell keeps its thumbnail |
| Controller.OtherCellFetchScenario | FlickrSearch/FlickrPhotosCollectionViewController.swift:245-259 | a non-enlarged cell rendered while another photo is enlarged ends up showing its own large image |
| Controller.RepeatedSearchScenario | FlickrSearch/FlickrPhotosCollectionViewController.swift:99-119 | after the same search runs twice, selecting the photo at both positions lists it twice, and deselecting one position leaves one copy |
| Controller.ShareScenario | FlickrSearch/FlickrPhotosCollectionViewController.swift:99-178 | toggle on, select one photo twice, share: both thumbnails are presented, and on completion the selection is empty |

## Left out

- UIKit view mechanics are left out because they are platform calls: cell dequeueing, the batch-update animation, `scrollToItem` after a batch update, the popover anchor of the share sheet, the header view (lines 264-277) and text-field responder handling. Reloads, selection clearing, bar-item changes and share presentation appear only as entries in `requests`.
- Layout sizing, insets and `sizeToFillWidth` (lines 280-303) are left out because they are floating-point geometry.
- The label's colour, its resize animation and its exact wording are left out. The label is modelled as blank or as a count of selected photos.
- The search request itself and `loadLargeImage` are foreign asynchronous calls whose sources are not part of this model. Each completion is an event method that takes the result as a parameter. Moving work back to the main queue is thread marshalling and is not modelled.
- `FlickrPhoto` and `FlickrSearchResults` are not part of this model. A photo is a value with an identifier, an optional thumbnail and an optional large image. Its equality, used by `firstIndex(of:)`, is Dafny's structural equality. The caching of a fetched large image inside the photo object (a reference type in the source) is not modelled.
- The `[weak self]` check in the fetch callback is left out because the model has no deallocation.
- The diagnostic `print` calls on search success and failure are left out because console output has no effect on state.
- `SearchQuery` covers only the empty-text guard of `textFieldShouldReturn`. Starting the request, clearing the text field and returning `true` are text-field handling.
- `PhotoCell.constructor` models only a brand-new cell, and the scenario methods use fresh cells. A dequeued cell may be a reused one with an old image, the selected look or a running indicator; `CellForItemAt` accepts a cell in any such state.
