/**
 * Book records: the catalogue's raw volume, the application's book record built
 * from it (src/Api/booksApi.js), and a favourite entry (a book plus the date it
 * was added, its notes and its tags).
 */
module Books {

  import opened Wrappers

  datatype ImageLinks = ImageLinks(thumbnail: Option<string>, smallThumbnail: Option<string>)

  /**
   * A volume's `volumeInfo` as the catalogue returns it.  Besides the thirteen
   * fields the application copies it has others; `subtitle` and `printType`
   * stand for those.  The average rating is a floating-point number in the
   * catalogue; it is carried as a real and never computed with.
   */
  datatype VolumeInfo = VolumeInfo(
    title: string,
    subtitle: Option<string>,
    authors: Option<seq<string>>,
    description: Option<string>,
    imageLinks: Option<ImageLinks>,
    publishedDate: Option<string>,
    publisher: Option<string>,
    pageCount: Option<int>,
    categories: Option<seq<string>>,
    averageRating: Option<real>,
    ratingsCount: Option<int>,
    language: Option<string>,
    previewLink: Option<string>,
    infoLink: Option<string>,
    printType: Option<string>)

  datatype Volume = Volume(id: string, volumeInfo: VolumeInfo)

  /** The application's book record. */
  datatype Book = Book(
    id: string,
    title: string,
    authors: Option<seq<string>>,
    description: Option<string>,
    imageLinks: Option<ImageLinks>,
    publishedDate: Option<string>,
    publisher: Option<string>,
    pageCount: Option<int>,
    categories: Option<seq<string>>,
    averageRating: Option<real>,
    ratingsCount: Option<int>,
    language: Option<string>,
    previewLink: Option<string>,
    infoLink: Option<string>)

  /**
   * A favourite: the book's fields spread into a new object together with
   * `dateAdded` (a timestamp), `notes` and `tags`.
   */
  datatype Entry = Entry(book: Book, dateAdded: int, notes: seq<string>, tags: seq<string>) {
    function Id(): string { book.id }
  }

  /** `transformGoogleBookToBook`: the id and thirteen `volumeInfo` fields. */
  function Transform(v: Volume): (b: Book)
    ensures b.id == v.id
  {
    var info := v.volumeInfo;
    Book(v.id, info.title, info.authors, info.description, info.imageLinks,
         info.publishedDate, info.publisher, info.pageCount, info.categories,
         info.averageRating, info.ratingsCount, info.language, info.previewLink,
         info.infoLink)
  }

  /** A volume carrying exactly the book's fields, plus given values for the
      fields the transform does not copy. */
  function ToVolume(b: Book, subtitle: Option<string>, printType: Option<string>): Volume {
    Volume(b.id, VolumeInfo(
      b.title, subtitle, b.authors, b.description, b.imageLinks, b.publishedDate,
      b.publisher, b.pageCount, b.categories, b.averageRating, b.ratingsCount,
      b.language, b.previewLink, b.infoLink, printType))
  }

  /** Every field of a book survives the transform unchanged: transforming the
      volume a book came from gives that book back. */
  lemma TransformRoundTrip(b: Book, subtitle: Option<string>, printType: Option<string>)
    ensures Transform(ToVolume(b, subtitle, printType)) == b
  {
  }

  /** The transform copies nothing else: volumes that differ only in the
      uncopied fields give the same book. */
  lemma TransformIgnoresOtherFields(v: Volume, subtitle: Option<string>, printType: Option<string>)
    ensures Transform(v.(volumeInfo := v.volumeInfo.(subtitle := subtitle, printType := printType))) == Transform(v)
  {
  }
}
