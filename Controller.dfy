/**
 The photo-search view controller as an event-driven state machine. Its state
 is the result-set accumulator, the enlarged grid position, the sharing flag
 and the sharing selection; each callback that changes state is one method. What the
 controller asks of the collection view (reloads, selection clearing, bar
 items, the share sheet) is recorded in `requests`, in issue order.
 */
module Controller {
  import opened Photos

  /** The text of the "N photos selected" label. */
  datatype ShareLabel = Blank | PhotosSelected(count: nat)

  /** A request the controller makes of the UI framework. */
  datatype UiRequest =
    | ReloadItems(paths: seq<IndexPath>)
    | ReloadData
    | ClearCellSelection
    | ShowBarItems(withCountLabel: bool)
    | PresentShare(images: seq<Image>)

  /** Which of the share button's guards decided what a tap does. */
  datatype ShareOutcome =
    | NoSearches
    | ToggledSharing
    | NotSharing
    | NoThumbnails
    | Presented(images: seq<Image>)

  /** How a cell is filled in: its image, whether it is forced into the selected look, and the large-image fetch it starts. */
  datatype CellRender = CellRender(image: Option<Image>, markSelected: bool, fetchFor: Option<IndexPath>)

  /** A large-image fetch in flight: the position it was started for, the photo it loads and the cell its completion writes to. */
  datatype LargeFetch = LargeFetch(indexPath: IndexPath, photo: Photo, cell: PhotoCell)

  /** Tapping a position outside sharing mode: collapse it if it is the enlarged one, else enlarge it. */
  function NextEnlarged(current: Option<IndexPath>, tapped: IndexPath): (next: Option<IndexPath>)
    ensures next == None <==> current == Some(tapped)
    ensures next != None ==> next == Some(tapped)
  {
    if current == Some(tapped) then None else Some(tapped)
  }

  /** The cells reloaded when the enlarged position changes: the new one first, then the old one. */
  function ReloadPaths(newValue: Option<IndexPath>, oldValue: Option<IndexPath>): (paths: seq<IndexPath>)
    ensures forall q :: q in paths <==> newValue == Some(q) || oldValue == Some(q)
    ensures |paths| == (if newValue.Some? then 1 else 0) + (if oldValue.Some? then 1 else 0)
    ensures newValue.Some? ==> paths[0] == newValue.value
    ensures oldValue.Some? ==> paths[|paths| - 1] == oldValue.value
  {
    (if newValue.Some? then [newValue.value] else []) + (if oldValue.Some? then [oldValue.value] else [])
  }

  /** The query a press of Return starts: none for a missing or empty text field. */
  function SearchQuery(text: Option<string>): (query: Option<string>)
    ensures query.Some? <==> text.Some? && text.value != ""
    ensures query.Some? ==> query == text
  {
    match text
    case None => None
    case Some(t) => if t == "" then None else Some(t)
  }

  /** The result-set accumulator after successful searches complete in the order given. */
  function SearchesAfter(searches: seq<SearchResults>, arrivals: seq<SearchResults>): seq<SearchResults>
    decreases |arrivals|
  {
    if arrivals == [] then searches else SearchesAfter([arrivals[0]] + searches, arrivals[1..])
  }

  function Reversed<T>(s: seq<T>): seq<T>
  {
    if s == [] then [] else Reversed(s[1..]) + [s[0]]
  }

  /** The accumulator is newest first: completions come out in reverse order, ahead of what was there. */
  lemma {:induction false} SearchesNewestFirst(searches: seq<SearchResults>, arrivals: seq<SearchResults>)
    ensures SearchesAfter(searches, arrivals) == Reversed(arrivals) + searches
    decreases |arrivals|
  {
    if arrivals != [] {
      SearchesNewestFirst([arrivals[0]] + searches, arrivals[1..]);
      assert Reversed(arrivals[1..]) + ([arrivals[0]] + searches)
          == (Reversed(arrivals[1..]) + [arrivals[0]]) + searches;
    }
  }

  /** The latest completed search is the first section. */
  lemma LatestSearchFirst(searches: seq<SearchResults>, arrivals: seq<SearchResults>)
    requires arrivals != []
    ensures |SearchesAfter(searches, arrivals)| == |arrivals| + |searches|
    ensures SearchesAfter(searches, arrivals)[0] == arrivals[|arrivals| - 1]
  {
    SearchesNewestFirst(searches, arrivals);
    ReversedFirst(arrivals);
  }

  lemma {:induction false} ReversedFirst<T>(s: seq<T>)
    requires s != []
    ensures |Reversed(s)| == |s| && Reversed(s)[0] == s[|s| - 1]
  {
    if |s| > 1 {
      ReversedFirst(s[1..]);
    } else {
      assert Reversed(s[1..]) == [];
    }
  }

  /**
   What a tap on the share button does, by its guards in order: nothing
   without searches; with an empty selection it toggles sharing; nothing
   outside sharing mode; nothing when no selected photo has a thumbnail;
   otherwise it presents the thumbnails.
   */
  function ShareDecision(searches: seq<SearchResults>, selected: seq<Photo>, sharing: bool): (r: ShareOutcome)
    ensures r == NoSearches <==> searches == []
    ensures r == ToggledSharing <==> searches != [] && selected == []
    ensures r == NotSharing <==> searches != [] && selected != [] && !sharing
    ensures r == NoThumbnails <==>
      searches != [] && selected != [] && sharing && forall i :: 0 <= i < |selected| ==> selected[i].thumbnail.None?
    ensures r.Presented? ==> r.images == Thumbnails(selected) && r.images != []
  {
    if searches == [] then NoSearches
    else if selected == [] then ToggledSharing
    else if !sharing then NotSharing
    else
      var images := Thumbnails(selected);
      if images == [] then NoThumbnails else Presented(images)
  }

  /**
   How a cell is filled in. Only whether SOME position is enlarged is tested,
   not whether it is this cell's, and the fetch started is for the enlarged
   position rather than the cell's own.
   */
  function CellChoice(photo: Photo, enlarged: Option<IndexPath>): (r: CellRender)
    ensures r.markSelected <==> enlarged.Some?
    ensures r.fetchFor.Some? <==> enlarged.Some? && photo.largeImage.None?
    ensures r.fetchFor.Some? ==> r.fetchFor == enlarged
    ensures r.image == if enlarged.Some? && photo.largeImage.Some? then photo.largeImage else photo.thumbnail
  {
    match enlarged
    case None => CellRender(photo.thumbnail, false, None)
    case Some(large) =>
      if photo.largeImage.Some? then CellRender(photo.largeImage, true, None)
      else CellRender(photo.thumbnail, true, Some(large))
  }

  /**
   While any photo is enlarged, every other cell is rendered as if it were the
   enlarged one. The same holds for every cell, the enlarged one included; the
   requires only picks out the cells where this is surprising.
   */
  lemma OtherCellsRenderAsEnlarged(searches: seq<SearchResults>, enlarged: IndexPath, ip: IndexPath)
    requires InRange(searches, ip) && ip != enlarged
    ensures CellChoice(PhotoAt(searches, ip), Some(enlarged)).markSelected
    ensures PhotoAt(searches, ip).largeImage.None? ==>
      CellChoice(PhotoAt(searches, ip), Some(enlarged)).fetchFor == Some(enlarged)
  {
  }

  /** A grid cell: what it shows, whether it looks selected, and its activity indicator. */
  class PhotoCell {
    var image: Option<Image>
    var isSelected: bool
    var loading: bool

    constructor ()
      ensures image == None && !isSelected && !loading
    {
      image, isSelected, loading := None, false, false;
    }
  }

  class FlickrPhotosCollectionViewController {
    var searches: seq<SearchResults>
    var largePhotoIndexPath: Option<IndexPath>
    var isSharing: bool
    var selectedPhotos: seq<Photo>
    var shareLabel: ShareLabel
    var allowsMultipleSelection: bool
    var requests: seq<UiRequest>
    /** Whether the navigation item has a right bar button (the share button). */
    const hasShareButton: bool

    /**
     The controller's invariant: multi-select follows sharing mode, there is a
     selection only in sharing mode, with the share button present sharing
     mode has nothing enlarged and a label counting the selection, and every
     selected photo is one the grid displays.
     */
    ghost predicate Valid()
      reads this
    {
      && allowsMultipleSelection == isSharing
      && (!isSharing ==> selectedPhotos == [])
      && (isSharing && hasShareButton ==>
            largePhotoIndexPath == None && shareLabel == PhotosSelected(|selectedPhotos|))
      && (forall p :: p in selectedPhotos ==> p in AllPhotos(searches))
    }

    constructor (hasShareButton: bool)
      ensures Valid()
      ensures this.hasShareButton == hasShareButton
      ensures searches == [] && largePhotoIndexPath == None && !isSharing && selectedPhotos == []
      ensures shareLabel == Blank && !allowsMultipleSelection && requests == []
    {
      this.hasShareButton := hasShareButton;
      searches, largePhotoIndexPath, isSharing, selectedPhotos := [], None, false, [];
      shareLabel, allowsMultipleSelection, requests := Blank, false, [];
    }

    /** The requests the isSharing observer issues, given the new value and the enlarged position it found. */
    function SharingRequests(value: bool, enlarged: Option<IndexPath>): (r: seq<UiRequest>)
      ensures |r| == 1 + (if hasShareButton then 1 else 0) + (if hasShareButton && value && enlarged.Some? then 1 else 0)
      ensures r[0] == ClearCellSelection
      ensures hasShareButton ==> r[|r| - 1] == ShowBarItems(value)
      ensures hasShareButton && value && enlarged.Some? ==> r[1] == ReloadItems([enlarged.value])
    {
      assert enlarged.Some? ==> ReloadPaths(None, enlarged) == [enlarged.value];
      [ClearCellSelection] +
      if !hasShareButton then []
      else if !value then [ShowBarItems(false)]
      else (if enlarged.Some? then [ReloadItems(ReloadPaths(None, enlarged))] else []) + [ShowBarItems(true)]
    }

    /** Assignment to largePhotoIndexPath with its observer: reload the new and the old position. */
    method SetLargePhotoIndexPath(p: Option<IndexPath>)
      modifies this`largePhotoIndexPath, this`requests
      ensures largePhotoIndexPath == p
      ensures requests == old(requests) + [ReloadItems(ReloadPaths(p, old(largePhotoIndexPath)))]
    {
      var oldValue := largePhotoIndexPath;
      largePhotoIndexPath := p;
      requests := requests + [ReloadItems(ReloadPaths(largePhotoIndexPath, oldValue))];
    }

    /** Refresh the selection-count label. */
    method UpdateSharedPhotoCountLabel()
      modifies this`shareLabel
      ensures shareLabel == if isSharing then PhotosSelected(|selectedPhotos|) else Blank
    {
      if isSharing {
        shareLabel := PhotosSelected(|selectedPhotos|);
      } else {
        shareLabel := Blank;
      }
    }

    /**
     Assignment to isSharing with its observer. The selection is always
     emptied; without a share button nothing further happens; leaving sharing
     mode restores the bar items; entering it collapses the enlarged photo and
     shows the count label.
     */
    method SetSharing(value: bool)
      modifies this`isSharing, this`allowsMultipleSelection, this`selectedPhotos
      modifies this`largePhotoIndexPath, this`shareLabel, this`requests
      ensures Valid()
      ensures isSharing == value && allowsMultipleSelection == value && selectedPhotos == []
      ensures largePhotoIndexPath == if hasShareButton && value then None else old(largePhotoIndexPath)
      ensures shareLabel == if hasShareButton && value then PhotosSelected(0) else old(shareLabel)
      ensures requests == old(requests) + SharingRequests(value, old(largePhotoIndexPath))
    {
      isSharing := value;
      allowsMultipleSelection := isSharing;
      requests := requests + [ClearCellSelection];
      selectedPhotos := [];

      if !hasShareButton {
        return;
      }
      if !isSharing {
        requests := requests + [ShowBarItems(false)];
        return;
      }
      if largePhotoIndexPath != None {
        SetLargePhotoIndexPath(None);
      }
      UpdateSharedPhotoCountLabel();
      requests := requests + [ShowBarItems(true)];
    }

    /** shouldSelectItemAt: in sharing mode let the tap select; otherwise toggle the enlarged photo instead. */
    method ShouldSelectItemAt(ip: IndexPath) returns (shouldSelect: bool)
      requires Valid()
      modifies this`largePhotoIndexPath, this`requests
      ensures Valid()
      ensures shouldSelect == isSharing
      ensures isSharing ==> largePhotoIndexPath == old(largePhotoIndexPath) && requests == old(requests)
      ensures !isSharing ==>
        && largePhotoIndexPath == NextEnlarged(old(largePhotoIndexPath), ip)
        && requests == old(requests) + [ReloadItems(ReloadPaths(largePhotoIndexPath, old(largePhotoIndexPath)))]
    {
      if isSharing {
        return true;
      }
      if largePhotoIndexPath == Some(ip) {
        SetLargePhotoIndexPath(None);
      } else {
        SetLargePhotoIndexPath(Some(ip));
      }
      return false;
    }

    /** didSelectItemAt: in sharing mode append the tapped photo, with no duplicate check. */
    method DidSelectItemAt(ip: IndexPath)
      requires Valid()
      requires isSharing ==> InRange(searches, ip)
      modifies this`selectedPhotos, this`shareLabel
      ensures Valid()
      ensures !isSharing ==> selectedPhotos == old(selectedPhotos) && shareLabel == old(shareLabel)
      ensures isSharing ==>
        && selectedPhotos == old(selectedPhotos) + [PhotoAt(searches, ip)]
        && shareLabel == PhotosSelected(|selectedPhotos|)
    {
      if !isSharing {
        return;
      }
      var flickrPhoto := PhotoAt(searches, ip);
      selectedPhotos := selectedPhotos + [flickrPhoto];
      UpdateSharedPhotoCountLabel();
    }

    /** didDeselectItemAt: in sharing mode remove the first occurrence of the tapped photo, if any. */
    method DidDeselectItemAt(ip: IndexPath)
      requires Valid()
      requires isSharing ==> InRange(searches, ip)
      modifies this`selectedPhotos, this`shareLabel
      ensures Valid()
      ensures !isSharing ==> selectedPhotos == old(selectedPhotos) && shareLabel == old(shareLabel)
      ensures isSharing ==>
        && selectedPhotos == RemoveFirst(old(selectedPhotos), PhotoAt(searches, ip))
        && shareLabel == if PhotoAt(searches, ip) in old(selectedPhotos) then PhotosSelected(|selectedPhotos|) else old(shareLabel)
    {
      if !isSharing {
        return;
      }
      var flickrPhoto := PhotoAt(searches, ip);
      match FirstIndexOf(selectedPhotos, flickrPhoto)
      case None =>
      case Some(index) =>
        selectedPhotos := selectedPhotos[..index] + selectedPhotos[index + 1..];
        UpdateSharedPhotoCountLabel();
    }

    /** shareButtonTapped: the guards in source order; the third can never fire in a valid state. */
    method ShareButtonTapped() returns (outcome: ShareOutcome)
      requires Valid()
      modifies this`isSharing, this`allowsMultipleSelection, this`selectedPhotos
      modifies this`largePhotoIndexPath, this`shareLabel, this`requests
      ensures Valid()
      ensures outcome == ShareDecision(old(searches), old(selectedPhotos), old(isSharing))
      ensures outcome != NotSharing
      ensures outcome == ToggledSharing ==>
        && isSharing == !old(isSharing)
        && allowsMultipleSelection == isSharing
        && selectedPhotos == []
        && largePhotoIndexPath == (if hasShareButton && isSharing then None else old(largePhotoIndexPath))
        && shareLabel == (if hasShareButton && isSharing then PhotosSelected(0) else old(shareLabel))
        && requests == old(requests) + SharingRequests(isSharing, old(largePhotoIndexPath))
      ensures outcome != ToggledSharing ==>
        && isSharing == old(isSharing)
        && allowsMultipleSelection == old(allowsMultipleSelection)
        && selectedPhotos == old(selectedPhotos)
        && largePhotoIndexPath == old(largePhotoIndexPath)
        && shareLabel == old(shareLabel)
        && requests == old(requests) + (if outcome.Presented? then [PresentShare(outcome.images)] else [])
    {
      if searches == [] {
        return NoSearches;
      }
      if selectedPhotos == [] {
        SetSharing(!isSharing);
        return ToggledSharing;
      }
      if !isSharing {
        return NotSharing;
      }
      var images := Thumbnails(selectedPhotos);
      if images == [] {
        return NoThumbnails;
      }
      requests := requests + [PresentShare(images)];
      return Presented(images);
    }

    /** The share sheet's completion handler: whatever the outcome, leave sharing mode with nothing selected. */
    method ShareCompleted()
      modifies this`isSharing, this`allowsMultipleSelection, this`selectedPhotos
      modifies this`largePhotoIndexPath, this`shareLabel, this`requests
      ensures Valid()
      ensures !isSharing && !allowsMultipleSelection && selectedPhotos == [] && shareLabel == Blank
      ensures largePhotoIndexPath == old(largePhotoIndexPath)
      ensures requests == old(requests) + SharingRequests(false, old(largePhotoIndexPath))
    {
      SetSharing(false);
      selectedPhotos := [];
      UpdateSharedPhotoCountLabel();
    }

    /** Completion of a search started from the text field: a success is prepended and the grid reloaded. */
    method SearchCompleted(outcome: Result<SearchResults>)
      requires Valid()
      modifies this`searches, this`requests
      ensures Valid()
      ensures outcome.Success? ==>
        searches == [outcome.value] + old(searches) && requests == old(requests) + [ReloadData]
      ensures outcome.Failure? ==> searches == old(searches) && requests == old(requests)
    {
      match outcome
      case Failure(_) =>
      case Success(results) =>
        AllPhotosPrepend(results, searches);
        searches := [results] + searches;
        requests := requests + [ReloadData];
    }

    /** cellForItemAt: fill in a dequeued cell and return the large-image fetch it starts, if any. */
    method CellForItemAt(cell: PhotoCell, ip: IndexPath) returns (fetch: Option<LargeFetch>)
      requires InRange(searches, ip)
      modifies cell
      ensures var r := CellChoice(PhotoAt(searches, ip), largePhotoIndexPath);
        && cell.image == r.image
        && cell.isSelected == (old(cell.isSelected) || r.markSelected)
        && cell.loading == r.fetchFor.Some?
        && fetch == if r.fetchFor.Some? then Some(LargeFetch(r.fetchFor.value, PhotoAt(searches, ip), cell)) else None
    {
      var flickrPhoto := PhotoAt(searches, ip);
      cell.loading := false;
      var r := CellChoice(flickrPhoto, largePhotoIndexPath);
      cell.image := r.image;
      if r.markSelected {
        cell.isSelected := true;
      }
      match r.fetchFor
      case None =>
        fetch := None;
      case Some(target) =>
        cell.loading := true;
        fetch := Some(LargeFetch(target, flickrPhoto, cell));
    }

    /**
     Completion of a large-image fetch: the indicator stops; the image is
     shown only for a success whose position is still the enlarged one.
     */
    method LargeImageFetchCompleted(fetch: LargeFetch, result: Result<Photo>)
      modifies fetch.cell
      ensures !fetch.cell.loading && fetch.cell.isSelected == old(fetch.cell.isSelected)
      ensures fetch.cell.image ==
        if result.Success? && largePhotoIndexPath == Some(fetch.indexPath) then result.value.largeImage
        else old(fetch.cell.image)
    {
      var cell := fetch.cell;
      cell.loading := false;
      match result
      case Success(photo) =>
        if Some(fetch.indexPath) == largePhotoIndexPath {
          cell.image := photo.largeImage;
        }
      case Failure(_) =>
    }
  }

  /** Enlarge a photo, then another one before its large image arrives: the late result is dropped. */
  method StaleFetchScenario(big: Image) returns (shown: Option<Image>)
    ensures shown == Some(Image(0))
  {
    var a := Photo("a", Some(Image(0)), None);
    var b := Photo("b", Some(Image(1)), None);
    var c := new FlickrPhotosCollectionViewController(true);
    c.SearchCompleted(Success(SearchResults("cats", [a, b])));
    var _ := c.ShouldSelectItemAt(IndexPath(0, 0));
    var cell := new PhotoCell();
    var fetch := c.CellForItemAt(cell, IndexPath(0, 0));
    assert fetch == Some(LargeFetch(IndexPath(0, 0), a, cell));
    var _ := c.ShouldSelectItemAt(IndexPath(0, 1));
    c.LargeImageFetchCompleted(fetch.value, Success(Photo("a", Some(Image(0)), Some(big))));
    shown := cell.image;
  }

  /** While one photo is enlarged, another cell rendered starts a fetch that ends up showing its large image. */
  method OtherCellFetchScenario(big: Image) returns (shown: Option<Image>)
    ensures shown == Some(big)
  {
    var a := Photo("a", Some(Image(0)), None);
    var b := Photo("b", Some(Image(1)), None);
    var c := new FlickrPhotosCollectionViewController(true);
    c.SearchCompleted(Success(SearchResults("cats", [a, b])));
    var _ := c.ShouldSelectItemAt(IndexPath(0, 0));
    var cell := new PhotoCell();
    var fetch := c.CellForItemAt(cell, IndexPath(0, 1));
    assert fetch == Some(LargeFetch(IndexPath(0, 0), b, cell));
    c.LargeImageFetchCompleted(fetch.value, Success(Photo("b", Some(Image(1)), Some(big))));
    shown := cell.image;
  }

  /** Select the same photo twice, share, complete: two thumbnails go out and sharing ends empty. */
  method ShareScenario() returns (shared: ShareOutcome, selectedAfter: seq<Photo>)
    ensures shared == Presented([Image(0), Image(0)])
    ensures selectedAfter == []
  {
    var a := Photo("a", Some(Image(0)), None);
    var c := new FlickrPhotosCollectionViewController(true);
    c.SearchCompleted(Success(SearchResults("cats", [a])));
    var toggled := c.ShareButtonTapped();
    assert toggled == ToggledSharing && c.isSharing;
    c.DidSelectItemAt(IndexPath(0, 0));
    c.DidSelectItemAt(IndexPath(0, 0));
    assert c.selectedPhotos == [a, a];
    ThumbnailsAllPresent([a, a]);
    shared := c.ShareButtonTapped();
    c.ShareCompleted();
    selectedAfter := c.selectedPhotos;
  }

  /**
   Run the same search twice, so one photo sits at two positions; select it at
   both, then deselect it at one: both selections are kept, and one removal
   leaves the other copy.
   */
  method RepeatedSearchScenario() returns (selectedBoth: seq<Photo>, selectedAfter: seq<Photo>)
    ensures selectedBoth == [Photo("a", Some(Image(0)), None), Photo("a", Some(Image(0)), None)]
    ensures selectedAfter == [Photo("a", Some(Image(0)), None)]
  {
    var a := Photo("a", Some(Image(0)), None);
    var c := new FlickrPhotosCollectionViewController(true);
    var cats := SearchResults("cats", [a]);
    c.SearchCompleted(Success(cats));
    c.SearchCompleted(Success(cats));
    assert c.searches == [cats, cats] && c.selectedPhotos == [];
    var toggled := c.ShareButtonTapped();
    assert toggled == ToggledSharing && c.isSharing && c.searches == [cats, cats];
    c.DidSelectItemAt(IndexPath(0, 0));
    assert c.selectedPhotos == [a];
    c.DidSelectItemAt(IndexPath(1, 0));
    assert c.selectedPhotos == [a, a];
    selectedBoth := c.selectedPhotos;
    c.DidDeselectItemAt(IndexPath(1, 0));
    assert FirstIndexOf([a, a], a) == Some(0);
    selectedAfter := c.selectedPhotos;
  }
}
