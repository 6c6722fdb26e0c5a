/** Records exchanged between the pages and the local store (types.ts). */
module Types {

  datatype Option<+T> = None | Some(value: T)

  /** A flashcard as the generator produces it: an IFlashcard without the
      `id` and `createdAt` that the store assigns when it is saved. */
  datatype Card = Card(noteId: int, front: string, back: string)

  /** A note as the scan page hands it to the store: an INote without the
      `id` the store assigns and the `createdAt` clock reading. */
  datatype Note = Note(title: string, content: string)
}
