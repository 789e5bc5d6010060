/** The records exchanged with the structure service (`ChapterInfo` and
    `BookStructure` of the schema module), and the two copies of the
    pipeline's driver functions. */
module Models {

  /** `ClientCopy` is `gemini/client.py` (English messages); `ScriptCopy`
      is the earlier single-file `flashcards_from_pdf.py` (Italian
      messages). */
  datatype Copy = ClientCopy | ScriptCopy

  /** A chapter: its title and the logical page (as printed in the book)
      where it starts. The schema only asks for an integer, so nothing
      forces the start page to be positive. */
  datatype Chapter = Chapter(title: string, startPage: int)

  /** The chapters and the 1-based physical page of the book's first
      numbered page. */
  datatype BookStructure = BookStructure(chapters: seq<Chapter>, firstPhysicalPage: int)
}
