/**
 * The records the client keeps: a meme as the server sends it, the
 * create-form fields, and the create request built from them.
 */
module Memes {

  datatype Option<T> = None | Some(value: T)

  /** Identifiers are opaque; only equality (`===`) is used on them. */
  type MemeId = int
  type UserId = string

  /**
   * A meme record. The optional fields are those the client reads with a
   * fallback (`highest_bid || 0`) or that a record may lack.
   */
  datatype Meme = Meme(
    id: MemeId,
    title: string,
    imageUrl: string,
    tags: seq<string>,
    upvotes: int,
    highestBid: Option<int>,
    highestBidder: Option<UserId>,
    caption: Option<string>,
    vibe: Option<string>,
    ownerId: UserId)

  /** `meme.highest_bid || 0`: a missing bid reads as zero. */
  function BidOr0(m: Meme): (r: int)
    ensures m.highestBid == Some(r) || (m.highestBid == None && r == 0)
  {
    match m.highestBid
    case None => 0
    case Some(b) => b
  }

  /** The three text inputs of the create form. */
  datatype Field = Title | ImageUrl | Tags

  datatype FormData = FormData(title: string, imageUrl: string, tags: string)

  /** `{ title: '', image_url: '', tags: '' }` */
  const EmptyForm := FormData("", "", "")

  function FieldValue(form: FormData, field: Field): (value: string) {
    match field
    case Title => form.title
    case ImageUrl => form.imageUrl
    case Tags => form.tags
  }

  /** `{ ...form, [field]: value }`: sets one field and keeps the others. */
  function WithField(form: FormData, field: Field, value: string): (r: FormData)
    ensures FieldValue(r, field) == value
    ensures forall g | g != field :: FieldValue(r, g) == FieldValue(form, g)
  {
    match field
    case Title => form.(title := value)
    case ImageUrl => form.(imageUrl := value)
    case Tags => form.(tags := value)
  }

  /** The body of a create request: `{ title, image_url, tags }`. */
  datatype CreateRequest = CreateRequest(title: string, imageUrl: string, tags: seq<string>)
}
