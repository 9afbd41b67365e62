/** The snapshot stored in the undo history. */
module Mementos {
  import opened Dicts
  import opened Books

  /** A frozen value holding one field, a copy of the catalog's dictionary
      (ISBN to book, in the catalog's order). Being a value, it cannot be
      reached or changed through the catalog it was taken from. */
  datatype CatalogMemento = CatalogMemento(state: Dict<string, Book>)
}
