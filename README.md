# Artwork gallery: selection state machine

This project models the one piece of behaviour in the single-screen artwork gallery app: how
the screen picks the artwork it shows. The app displays one record at a time from a fixed
catalog of three artworks whose ids are 1, 2, 3 in list order. The selection starts at the
first record. A "Previous" and a "Next" button request the id one below or one above the
current one. Each button is enabled only when its neighbouring id exists. The click handler
selects the first record whose id matches the request, and falls back to the first record of
the catalog when none matches.

Files:

- `artwork_dto.dfy` (module `ArtworkDtos`): the `ArtworkDto` record. Its image and title
  are opaque integer handles, its author is a string and its release date is reduced to the
  year. The module also holds `Option`, which stands for Kotlin's nullable result.
- `main_activity.dfy` (module `ArtworkGallery`): the catalog `Artworks` and the catalog
  predicates `DenseIds` and `UniqueIds`. `Find` models Kotlin's `find`, and `Lookup` adds
  the fallback. `CanPrev`, `CanNext`, `PrevTarget` and `NextTarget` model the navigator's
  guards and target ids. The `Gallery` class holds the mutable selection cell and its click
  methods. The lemmas state the navigation properties.

The pure parts of the source, the guards and the ±1 target arithmetic, are functions and
predicates. The selection is a class field, `Gallery.currentArtwork`, which the click
methods reassign in place. `Compose` does not deliver clicks to a disabled button.
`ClickPrev` and `ClickNext` model this: a click on a disabled button leaves the state
unchanged. `OnNavigationClick` is the handler itself and accepts any target id.

The code differs from a design where the lookup fails for an id outside 1..N and a step
does nothing at either end. The code never fails and never clamps. An id with no matching
record selects `artworks[0]` (`MainActivity.kt`, line 101). The model reproduces this.
`LookupOutOfRange`, `FallbackResetsToFirst` and `CatalogFallback` state the behaviour.
`EnabledClickMovesByOne` shows that enabled clicks never reach the fallback, so a user cannot
reach it through the buttons. For that reason it is not reported as a defect.

## Model

| member | source | states |
|---|---|---|
| `ArtworkGallery.CatalogShape` | app/src/main/java/com/example/artworkgallery/MainActivity.kt:50-72 | The catalog has three records. Their ids are 1..3 in list order, no two records share an id, and the first record has id 1. |
| `ArtworkGallery.DenseIdsAreUnique` | app/src/main/java/com/example/artworkgallery/MainActivity.kt:50-72 | A catalog whose ids are 1..N in list order has no duplicate ids. |
| `ArtworkGallery.Find` | app/src/main/java/com/example/artworkgallery/MainActivity.kt:101 | The search returns null exactly when no record has the requested id. Otherwise it returns the record at the first index whose id matches. |
| `ArtworkGallery.Lookup` | app/src/main/java/com/example/artworkgallery/MainActivity.kt:101 | The new selection is always a catalog element. It is the first record with the requested id when one exists, and `artworks[0]` when none does. |
| `ArtworkGallery.LookupInRange` | app/src/main/java/com/example/artworkgallery/MainActivity.kt:101 | In a catalog with ids 1..N, requesting any id t in 1..N selects the record at position t-1, and that record's id is t. |
| `ArtworkGallery.LookupOutOfRange` | app/src/main/java/com/example/artworkgallery/MainActivity.kt:101 | In a catalog with ids 1..N, requesting any id outside 1..N selects the first record. |
| `ArtworkGallery.SelectionIdInRange` | app/src/main/java/com/example/artworkgallery/MainActivity.kt:101-104 | Any selection drawn from a catalog with ids 1..N has an id in 1..N, and sits at position id-1. |
| `ArtworkGallery.EnablementAtEnds` | app/src/main/java/com/example/artworkgallery/MainActivity.kt:184-193 | "Previous" (`id > 1`) is enabled exactly when the selection is not the first record. "Next" (`id < artworks.size`) is enabled exactly when the selection is not the last record. |
| `ArtworkGallery.EnabledClickMovesByOne` | app/src/main/java/com/example/artworkgallery/MainActivity.kt:183-193 | An enabled "Previous" click requests `id - 1` and selects the preceding record. An enabled "Next" click requests `id + 1` and selects the following record. Neither reaches the fallback. |
| `ArtworkGallery.NextThenPrevRoundTrip` | app/src/main/java/com/example/artworkgallery/MainActivity.kt:101-104 | After an enabled "Next", "Previous" is enabled and returns to the original record. After an enabled "Previous", "Next" is enabled and returns to the original record. |
| `ArtworkGallery.FallbackResetsToFirst` | app/src/main/java/com/example/artworkgallery/MainActivity.kt:101 | The request one below the first id selects the first record. The request one above the last id also selects the first record, which differs from the last record whenever N > 1. The selection resets to the start rather than staying put. |
| `ArtworkGallery.CatalogFallback` | app/src/main/java/com/example/artworkgallery/MainActivity.kt:51-57 | On the shipped catalog, ids 0 and 4 both select the first record, the work by Romare Bearden. |
| `ArtworkGallery.Gallery.constructor` | app/src/main/java/com/example/artworkgallery/MainActivity.kt:88-90 | A new session selects `artworks[0]`, the record with id 1. |
| `ArtworkGallery.Gallery.OnNavigationClick` | app/src/main/java/com/example/artworkgallery/MainActivity.kt:100-102 | The handler reassigns the selection to the lookup result for the target id. That is the matching record if one exists, otherwise `artworks[0]`. The selection stays a catalog element. |
| `ArtworkGallery.Gallery.ClickPrev` | app/src/main/java/com/example/artworkgallery/MainActivity.kt:179-187 | When "Previous" is enabled, the selection becomes the record with id one lower. When it is disabled, the click changes nothing. The selection stays a catalog element. |
| `ArtworkGallery.Gallery.ClickNext` | app/src/main/java/com/example/artworkgallery/MainActivity.kt:188-196 | When "Next" is enabled, the selection becomes the record with id one higher. When it is disabled, the click changes nothing. The selection stays a catalog element. |
| `ArtworkGallery.Walkthrough` | app/src/main/java/com/example/artworkgallery/MainActivity.kt:88-105 | Walks one session: start, Next, Next, Previous. The selected ids are 1, 2, 3, 2. The button states at each step are (Previous off, Next on), (both on), (Previous on, Next off), (both on). |

## Left out

- Compose rendering: the `Artwork`, `ArtworkFrame` and `ArtworkDescription` composables, layout and styling modifiers, and `ArtworkGalleryAppPreview`. These are presentation with no stateable logic.
- Android lifecycle: `MainActivity.onCreate`, `enableEdgeToEdge` and `setContent`. These are framework plumbing.
- Resource resolution through `painterResource` and `stringResource`: the drawable and string resource ids are opaque integer handles, and their values in the catalog are placeholders.
- `java.time.LocalDate`: only the year of each release date is kept.
- `remember`/`mutableStateOf` recomposition: the selection is a plain mutable field, and there is no reactive re-render.
- Kotlin's 32-bit `Int`: ids and the ±1 arithmetic are unbounded integers. Wrap-around cannot arise, because the current id is always a catalog id in 1..3.
- `Lookup`: requires a non-empty catalog, because `artworks[0]` is only defined for a non-empty list. The shipped catalog has three records.
