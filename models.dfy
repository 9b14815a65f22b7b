/** Record shapes of the card-image service: the rows of the "card-images"
    table and the request and response bodies built from them. */
module Models {

  /** An optional value, as Python's Optional[int] query parameters. */
  datatype Option<T> = None | Some(value: T)

  /** One row of the image index: a hosted URL attached to a card. */
  datatype CardImage = CardImage(id: int, cardId: int, url: string)

  /** What a caller supplies to create a record; the index picks the id. */
  datatype CardImageNew = CardImageNew(cardId: int, url: string)

  /** Response body of a successful create. */
  datatype NewImageId = NewImageId(id: int)
}
