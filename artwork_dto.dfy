/** The record shape of one gallery item, as declared by the `ArtworkDto` data class. */
module ArtworkDtos {

  /** An opaque handle into the platform's asset tables (a drawable or a string resource id).
      The model never interprets its value. */
  type ResourceHandle = int

  /** One artwork of the gallery. The release date is reduced to its year, the only part of
      the date the screen shows. */
  datatype ArtworkDto = ArtworkDto(
    id: int,
    artworkImage: ResourceHandle,
    artworkTitle: ResourceHandle,
    artworkAuthor: string,
    releaseYear: int)

  /** Kotlin's nullable result `T?`: `None` stands for `null`. */
  datatype Option<+T> = None | Some(value: T)
}
