/**
 The values the photo-search screen works on: photos, the result set of one
 search, grid positions, and the pure expressions the view controller
 evaluates over them (the grid lookup, the thumbnail list handed to the share
 sheet, and the first-occurrence removal used on deselect).
 */
module Photos {

  datatype Option<T> = None | Some(value: T)

  /** The outcome of an asynchronous collaborator call. */
  datatype Result<T> = Success(value: T) | Failure(error: string)

  /** An image handle; images are only ever passed around and compared. */
  datatype Image = Image(id: nat)

  /** A search hit: its pre-loaded thumbnail and its lazily fetched large image. */
  datatype Photo = Photo(photoID: string, thumbnail: Option<Image>, largeImage: Option<Image>)

  /** The result set of one successful query. */
  datatype SearchResults = SearchResults(searchTerm: string, searchResults: seq<Photo>)

  /** A grid position: the result set (section) and the photo within it (row). */
  datatype IndexPath = IndexPath(section: nat, row: nat)

  /** The positions the grid can display for the given result sets. */
  predicate InRange(searches: seq<SearchResults>, ip: IndexPath)
  {
    ip.section < |searches| && ip.row < |searches[ip.section].searchResults|
  }

  /** The number of sections the grid shows: one per result set. */
  function NumberOfSections(searches: seq<SearchResults>): (n: nat)
    ensures n == 0 <==> searches == []
    ensures forall ip :: InRange(searches, ip) ==> ip.section < n
  {
    |searches|
  }

  /** The number of cells in one section: the photos of that result set. */
  function NumberOfItems(searches: seq<SearchResults>, section: nat): (n: nat)
    requires section < NumberOfSections(searches)
    ensures forall row: nat :: row < n <==> InRange(searches, IndexPath(section, row))
  {
    |searches[section].searchResults|
  }

  /** Every photo of every result set, newest result set first. */
  function AllPhotos(searches: seq<SearchResults>): seq<Photo>
  {
    if searches == [] then [] else searches[0].searchResults + AllPhotos(searches[1..])
  }

  /** The photo displayed at a grid position. */
  function PhotoAt(searches: seq<SearchResults>, ip: IndexPath): (p: Photo)
    requires InRange(searches, ip)
    ensures p in AllPhotos(searches)
    ensures p in searches[ip.section].searchResults
  {
    AllPhotosContains(searches, ip);
    searches[ip.section].searchResults[ip.row]
  }

  lemma {:induction false} AllPhotosContains(searches: seq<SearchResults>, ip: IndexPath)
    requires InRange(searches, ip)
    ensures searches[ip.section].searchResults[ip.row] in AllPhotos(searches)
  {
    if ip.section > 0 {
      AllPhotosContains(searches[1..], IndexPath(ip.section - 1, ip.row));
    }
  }

  /** Every photo of every result set is displayed at some in-range position. */
  lemma {:induction false} AllPhotosDisplayed(searches: seq<SearchResults>, p: Photo)
    requires p in AllPhotos(searches)
    ensures exists ip :: InRange(searches, ip) && PhotoAt(searches, ip) == p
  {
    var first := searches[0].searchResults;
    if p in first {
      var row :| 0 <= row < |first| && first[row] == p;
      assert InRange(searches, IndexPath(0, row)) && PhotoAt(searches, IndexPath(0, row)) == p;
    } else {
      AllPhotosDisplayed(searches[1..], p);
      var ip :| InRange(searches[1..], ip) && PhotoAt(searches[1..], ip) == p;
      var moved := IndexPath(ip.section + 1, ip.row);
      assert InRange(searches, moved) && PhotoAt(searches, moved) == p;
    }
  }

  /** Prepending a result set keeps every photo displayed. */
  lemma AllPhotosPrepend(results: SearchResults, searches: seq<SearchResults>)
    ensures AllPhotos([results] + searches) == results.searchResults + AllPhotos(searches)
  {
    assert ([results] + searches)[1..] == searches;
  }

  /**
   Prepending a result set moves every existing result set one section down,
   so a position recorded before the prepend then names whatever photo is now
   at that position, possibly the same one or none at all.
   */
  lemma PrependShiftsSections(results: SearchResults, searches: seq<SearchResults>, ip: IndexPath)
    requires InRange(searches, ip)
    ensures InRange([results] + searches, IndexPath(ip.section + 1, ip.row))
    ensures PhotoAt([results] + searches, IndexPath(ip.section + 1, ip.row)) == PhotoAt(searches, ip)
  {
  }

  /**
   The images handed to the share sheet: the thumbnails of the selected
   photos in selection order, skipping any photo that has none.
   */
  function Thumbnails(photos: seq<Photo>): (images: seq<Image>)
    ensures |images| <= |photos|
    ensures images == [] <==> forall i :: 0 <= i < |photos| ==> photos[i].thumbnail.None?
    ensures forall img :: img in images ==> exists i :: 0 <= i < |photos| && photos[i].thumbnail == Some(img)
  {
    if photos == [] then []
    else
      var rest := Thumbnails(photos[1..]);
      assert forall img :: img in rest ==> exists i :: 0 <= i < |photos| && photos[i].thumbnail == Some(img) by {
        forall img | img in rest
          ensures exists i :: 0 <= i < |photos| && photos[i].thumbnail == Some(img)
        {
          var j :| 0 <= j < |photos[1..]| && photos[1..][j].thumbnail == Some(img);
          assert photos[j + 1].thumbnail == Some(img);
        }
      }
      match photos[0].thumbnail
      case Some(t) => [t] + rest
      case None => rest
  }

  /** Collecting thumbnails distributes over concatenation of selections. */
  lemma {:induction false} ThumbnailsAppend(a: seq<Photo>, b: seq<Photo>)
    ensures Thumbnails(a + b) == Thumbnails(a) + Thumbnails(b)
  {
    if a == [] {
      assert a + b == b;
    } else {
      assert (a + b)[1..] == a[1..] + b;
      ThumbnailsAppend(a[1..], b);
    }
  }

  /** When every photo has a thumbnail, none is skipped and the order is kept. */
  lemma {:induction false} ThumbnailsAllPresent(photos: seq<Photo>)
    requires forall i :: 0 <= i < |photos| ==> photos[i].thumbnail.Some?
    ensures |Thumbnails(photos)| == |photos|
    ensures forall i :: 0 <= i < |photos| ==> Thumbnails(photos)[i] == photos[i].thumbnail.value
  {
    if photos != [] {
      ThumbnailsAllPresent(photos[1..]);
    }
  }

  /** The index of the first element equal to x, as Swift's firstIndex(of:). */
  function FirstIndexOf<T(==)>(s: seq<T>, x: T): (r: Option<nat>)
    ensures r.None? <==> x !in s
    ensures r.Some? ==> r.value < |s| && s[r.value] == x && x !in s[..r.value]
  {
    if s == [] then None
    else if s[0] == x then Some(0)
    else
      match FirstIndexOf(s[1..], x)
      case None => None
      case Some(i) =>
        assert s[..i + 1] == [s[0]] + s[1..][..i];
        Some(i + 1)
  }

  /**
   The sequence with the first occurrence of x removed (firstIndex(of:)
   followed by remove(at:)); unchanged when x does not occur.
   */
  function RemoveFirst<T(==)>(s: seq<T>, x: T): (r: seq<T>)
    ensures x !in s ==> r == s
    ensures x in s ==> |r| == |s| - 1
    ensures multiset(r) == multiset(s) - multiset{x}
    ensures forall y :: y in r ==> y in s
  {
    match FirstIndexOf(s, x)
    case None => s
    case Some(i) =>
      assert s == s[..i] + [s[i]] + s[i + 1..];
      assert multiset(s) == multiset(s[..i]) + multiset{x} + multiset(s[i + 1..]);
      s[..i] + s[i + 1..]
  }

  /** Only one copy goes: a photo selected twice is still selected after one removal. */
  lemma RemoveFirstKeepsLaterCopies<T>(s: seq<T>, x: T, i: nat, j: nat)
    requires i < j < |s| && s[i] == x && s[j] == x
    ensures x in RemoveFirst(s, x)
    ensures multiset(RemoveFirst(s, x))[x] == multiset(s)[x] - 1
  {
    assert s == s[..j] + [s[j]] + s[j + 1..];
    assert s[i] in s[..j];
    assert multiset(s)[x] >= 2;
  }

  /** Everything before the first occurrence keeps its place; the rest moves up by one. */
  lemma RemoveFirstShape<T>(s: seq<T>, x: T, k: nat)
    requires x in s
    requires k < |s| - 1
    ensures var i := FirstIndexOf(s, x).value;
            RemoveFirst(s, x)[k] == if k < i then s[k] else s[k + 1]
  {
  }
}
