/** The gallery's selection state machine: the fixed catalog, the lookup-with-fallback that a
    navigation click performs, the enablement guards of the two buttons, and the mutable
    selection cell that the click handler reassigns. */
module ArtworkGallery {
  import opened ArtworkDtos

  // Placeholder values for the R.drawable.* and R.string.* resource ids of the three artworks.
  // Only their role as opaque handles matters; no operation depends on their values.
  const TomorrowIMayBeFarAwayImage: ResourceHandle := 101
  const TomorrowIMayBeFarAwayTitle: ResourceHandle := 201
  const APoetReadingImage: ResourceHandle := 102
  const APoetReadingTitle: ResourceHandle := 202
  const FruitAndFlowersImage: ResourceHandle := 103
  const FruitAndFlowersTitle: ResourceHandle := 203

  /** The catalog, in navigation order. */
  const Artworks: seq<ArtworkDto> := [
    ArtworkDto(1, TomorrowIMayBeFarAwayImage, TomorrowIMayBeFarAwayTitle, "Romare Bearden", 1967),
    ArtworkDto(2, APoetReadingImage, APoetReadingTitle, "Master of the Playing Cards", 1430),
    ArtworkDto(3, FruitAndFlowersImage, FruitAndFlowersTitle, "Roger Fenton", 1860)
  ]

  // ---------------------------------------------------------------------------------------
  // Catalog shape

  /** The ids are 1..N in list order. */
  predicate DenseIds(catalog: seq<ArtworkDto>) {
    forall i :: 0 <= i < |catalog| ==> catalog[i].id == i + 1
  }

  /** No two records share an id. */
  predicate UniqueIds(catalog: seq<ArtworkDto>) {
    forall i, j :: 0 <= i < |catalog| && 0 <= j < |catalog| && catalog[i].id == catalog[j].id ==> i == j
  }

  /** Some record of the catalog carries the id `target`. */
  predicate HasId(catalog: seq<ArtworkDto>, target: int) {
    exists i :: 0 <= i < |catalog| && catalog[i].id == target
  }

  /** Index `i` holds the first record whose id is `target`. */
  predicate FirstWithId(catalog: seq<ArtworkDto>, target: int, i: int) {
    0 <= i < |catalog| && catalog[i].id == target &&
    forall j :: 0 <= j < i ==> catalog[j].id != target
  }

  lemma CatalogShape()
    ensures |Artworks| == 3
    ensures DenseIds(Artworks) && UniqueIds(Artworks)
    ensures Artworks[0].id == 1
  {
  }

  lemma DenseIdsAreUnique(catalog: seq<ArtworkDto>)
    requires DenseIds(catalog)
    ensures UniqueIds(catalog)
  {
  }

  // ---------------------------------------------------------------------------------------
  // Lookup

  /** `catalog.find { it.id == target }`: the first record whose id is `target`, or `None`. */
  function Find(catalog: seq<ArtworkDto>, target: int): (r: Option<ArtworkDto>)
    ensures r.None? <==> !HasId(catalog, target)
    ensures r.Some? ==> exists i :: FirstWithId(catalog, target, i) && catalog[i] == r.value
  {
    if |catalog| == 0 then None
    else if catalog[0].id == target then
      assert FirstWithId(catalog, target, 0);
      Some(catalog[0])
    else
      var rest := Find(catalog[1..], target);
      assert HasId(catalog, target) ==> HasId(catalog[1..], target) by {
        if HasId(catalog, target) {
          var i :| 0 <= i < |catalog| && catalog[i].id == target;
          assert catalog[1..][i - 1].id == target;
        }
      }
      if rest.Some? then
        var i :| FirstWithId(catalog[1..], target, i) && catalog[1..][i] == rest.value;
        assert FirstWithId(catalog, target, i + 1);
        rest
      else rest
  }

  /** The click handler's selection rule, `find { it.id == target } ?: catalog[0]`: the
      record with the requested id when there is one, the first record otherwise. */
  function Lookup(catalog: seq<ArtworkDto>, target: int): (r: ArtworkDto)
    requires |catalog| > 0
    ensures r in catalog
    ensures HasId(catalog, target) ==> exists i :: FirstWithId(catalog, target, i) && catalog[i] == r
    ensures !HasId(catalog, target) ==> r == catalog[0]
  {
    match Find(catalog, target)
    case Some(a) => a
    case None => catalog[0]
  }

  /** In a dense catalog every id in 1..N selects its own record. */
  lemma LookupInRange(catalog: seq<ArtworkDto>, target: int)
    requires DenseIds(catalog)
    requires 1 <= target <= |catalog|
    ensures Lookup(catalog, target) == catalog[target - 1]
    ensures Lookup(catalog, target).id == target
  {
  }

  /** In a dense catalog every id outside 1..N falls back to the first record. */
  lemma LookupOutOfRange(catalog: seq<ArtworkDto>, target: int)
    requires DenseIds(catalog) && |catalog| > 0
    requires target < 1 || target > |catalog|
    ensures Lookup(catalog, target) == catalog[0]
  {
  }

  /** The selection is always a record of the catalog, and so its id lies in 1..N. */
  lemma SelectionIdInRange(catalog: seq<ArtworkDto>, a: ArtworkDto)
    requires DenseIds(catalog)
    requires a in catalog
    ensures 1 <= a.id <= |catalog|
    ensures catalog[a.id - 1] == a
  {
  }

  // ---------------------------------------------------------------------------------------
  // Navigator: enablement and target ids of the two buttons

  /** "Previous" is enabled. */
  predicate CanPrev(currentArtworkId: int) {
    currentArtworkId > 1
  }

  /** "Next" is enabled. */
  predicate CanNext(currentArtworkId: int, artworksCount: int) {
    currentArtworkId < artworksCount
  }

  /** The id a "Previous" click requests. */
  function PrevTarget(currentArtworkId: int): int {
    currentArtworkId - 1
  }

  /** The id a "Next" click requests. */
  function NextTarget(currentArtworkId: int): int {
    currentArtworkId + 1
  }

  /** In a dense catalog "Previous" is disabled exactly at the first record and "Next"
      exactly at the last one. */
  lemma EnablementAtEnds(catalog: seq<ArtworkDto>, a: ArtworkDto)
    requires DenseIds(catalog)
    requires a in catalog
    ensures CanPrev(a.id) <==> a != catalog[0]
    ensures CanNext(a.id, |catalog|) <==> a != catalog[|catalog| - 1]
  {
  }

  /** An enabled click moves the selection by exactly one position, to the neighbouring
      record, and never reaches the fallback. */
  lemma EnabledClickMovesByOne(catalog: seq<ArtworkDto>, a: ArtworkDto)
    requires DenseIds(catalog)
    requires a in catalog
    ensures CanPrev(a.id) ==>
      HasId(catalog, PrevTarget(a.id)) &&
      Lookup(catalog, PrevTarget(a.id)) == catalog[a.id - 2] &&
      Lookup(catalog, PrevTarget(a.id)).id == a.id - 1
    ensures CanNext(a.id, |catalog|) ==>
      HasId(catalog, NextTarget(a.id)) &&
      Lookup(catalog, NextTarget(a.id)) == catalog[a.id] &&
      Lookup(catalog, NextTarget(a.id)).id == a.id + 1
  {
    SelectionIdInRange(catalog, a);
    if CanPrev(a.id) {
      LookupInRange(catalog, a.id - 1);
    }
    if CanNext(a.id, |catalog|) {
      LookupInRange(catalog, a.id + 1);
    }
  }

  /** "Next" followed by "Previous" returns to the original record, and the converse. */
  lemma NextThenPrevRoundTrip(catalog: seq<ArtworkDto>, a: ArtworkDto)
    requires DenseIds(catalog)
    requires a in catalog
    ensures CanNext(a.id, |catalog|) ==>
      var b := Lookup(catalog, NextTarget(a.id));
      CanPrev(b.id) && Lookup(catalog, PrevTarget(b.id)) == a
    ensures CanPrev(a.id) ==>
      var b := Lookup(catalog, PrevTarget(a.id));
      CanNext(b.id, |catalog|) && Lookup(catalog, NextTarget(b.id)) == a
  {
    SelectionIdInRange(catalog, a);
    EnabledClickMovesByOne(catalog, a);
    if CanNext(a.id, |catalog|) {
      var b := Lookup(catalog, NextTarget(a.id));
      EnabledClickMovesByOne(catalog, b);
    }
    if CanPrev(a.id) {
      var b := Lookup(catalog, PrevTarget(a.id));
      EnabledClickMovesByOne(catalog, b);
    }
  }

  /** The fallback quirk: a requested id just past either end does not clamp. Past the last
      record the selection jumps back to the first one instead of staying put. */
  lemma FallbackResetsToFirst(catalog: seq<ArtworkDto>)
    requires DenseIds(catalog) && |catalog| > 1
    ensures Lookup(catalog, PrevTarget(catalog[0].id)) == catalog[0]
    ensures Lookup(catalog, NextTarget(catalog[|catalog| - 1].id)) == catalog[0]
    ensures catalog[0] != catalog[|catalog| - 1]
  {
  }

  /** On the shipped catalog, the ids 0 and 4 that lie just outside 1..3 both select the
      first record, "Tomorrow I May Be Far Away". */
  lemma CatalogFallback()
    ensures Lookup(Artworks, 0) == Artworks[0]
    ensures Lookup(Artworks, |Artworks| + 1) == Artworks[0]
    ensures Artworks[0].artworkAuthor == "Romare Bearden"
  {
  }

  // ---------------------------------------------------------------------------------------
  // The selection cell

  /** The screen's session state: the currently displayed artwork. */
  class Gallery {
    var currentArtwork: ArtworkDto

    /** The selection is always one of the catalog's records. */
    ghost predicate Valid()
      reads this
    {
      currentArtwork in Artworks
    }

    /** A fresh session starts at the first record, the one with id 1. */
    constructor ()
      ensures Valid()
      ensures currentArtwork == Artworks[0] && currentArtwork.id == 1
    {
      currentArtwork := Artworks[0];
    }

    /** Whether the "Previous" button is enabled. */
    predicate PrevEnabled()
      reads this
    {
      CanPrev(currentArtwork.id)
    }

    /** Whether the "Next" button is enabled. */
    predicate NextEnabled()
      reads this
    {
      CanNext(currentArtwork.id, |Artworks|)
    }

    /** The navigation callback: select the record with id `targetId`, or the first record
        when there is none. */
    method OnNavigationClick(targetId: int)
      modifies this
      ensures Valid()
      ensures currentArtwork == Lookup(Artworks, targetId)
      ensures HasId(Artworks, targetId) ==> currentArtwork.id == targetId
      ensures !HasId(Artworks, targetId) ==> currentArtwork == Artworks[0]
    {
      var found := Find(Artworks, targetId);
      match found
      case Some(a) => currentArtwork := a;
      case None => currentArtwork := Artworks[0];
    }

    /** A click on "Previous". A disabled button ignores the click; an enabled one requests
        the id one below the current one. */
    method ClickPrev()
      requires Valid()
      modifies this
      ensures Valid()
      ensures old(PrevEnabled()) ==>
        currentArtwork == Lookup(Artworks, PrevTarget(old(currentArtwork.id))) &&
        currentArtwork.id == old(currentArtwork.id) - 1
      ensures !old(PrevEnabled()) ==> currentArtwork == old(currentArtwork)
    {
      if PrevEnabled() {
        EnabledClickMovesByOne(Artworks, currentArtwork);
        OnNavigationClick(PrevTarget(currentArtwork.id));
      }
    }

    /** A click on "Next". A disabled button ignores the click; an enabled one requests the
        id one above the current one. */
    method ClickNext()
      requires Valid()
      modifies this
      ensures Valid()
      ensures old(NextEnabled()) ==>
        currentArtwork == Lookup(Artworks, NextTarget(old(currentArtwork.id))) &&
        currentArtwork.id == old(currentArtwork.id) + 1
      ensures !old(NextEnabled()) ==> currentArtwork == old(currentArtwork)
    {
      if NextEnabled() {
        EnabledClickMovesByOne(Artworks, currentArtwork);
        OnNavigationClick(NextTarget(currentArtwork.id));
      }
    }
  }

  /** One session: start, Next, Next, Previous. Each entry of the trace is the displayed id
      and whether "Previous" and "Next" are enabled at that point. */
  method Walkthrough() returns (trace: seq<(int, bool, bool)>)
    ensures trace == [(1, false, true), (2, true, true), (3, true, false), (2, true, true)]
  {
    CatalogShape();
    var g := new Gallery();
    trace := [(g.currentArtwork.id, g.PrevEnabled(), g.NextEnabled())];
    g.ClickNext();
    trace := trace + [(g.currentArtwork.id, g.PrevEnabled(), g.NextEnabled())];
    g.ClickNext();
    trace := trace + [(g.currentArtwork.id, g.PrevEnabled(), g.NextEnabled())];
    g.ClickPrev();
    trace := trace + [(g.currentArtwork.id, g.PrevEnabled(), g.NextEnabled())];
  }
}
