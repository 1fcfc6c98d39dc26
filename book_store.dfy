/** The document store behind the `Book` model, reduced to what the
    handlers observe of `save()` and `find()`: success or failure. A save
    validates first; a store fault (connection loss and the like) is a
    parameter. */
module BookStore {
  import opened Wrappers
  import opened Json
  import opened BookSchema

  datatype SaveResult = Saved | SaveRejected(error: JsValue)
  datatype FindResult = Found(books: seq<Book>) | FindFailed(error: JsValue)

  /** The error a failed validation rejects with, reduced to its name. */
  const ValidationError := JObj(map["name" := JStr("ValidationError")])

  /** The result of saving `b`: refused when it fails validation, else
      refused when the store reports `fault`, else saved. */
  function SaveVerdict(b: Book, schema: Schema, fault: Option<JsValue>): (r: SaveResult)
    ensures r.Saved? <==> ValidBook(b, schema) && fault.None?
    ensures !ValidBook(b, schema) ==> r == SaveRejected(ValidationError)
  {
    if !ValidBook(b, schema) then SaveRejected(ValidationError)
    else if fault.Some? then SaveRejected(fault.value)
    else Saved
  }

  /** The `books` collection, in insertion order. */
  class Store {
    const schema: Schema
    var books: seq<Book>

    /** Every stored book passed validation when it was saved. */
    ghost predicate Valid()
      reads this
    {
      forall i | 0 <= i < |books| :: ValidBook(books[i], schema)
    }

    constructor (schema: Schema)
      ensures this.schema == schema && books == [] && Valid()
    {
      this.schema := schema;
      books := [];
    }

    /** `save()`: appends the book when it is accepted, else changes nothing. */
    method Save(b: Book, fault: Option<JsValue>) returns (r: SaveResult)
      requires Valid()
      modifies this
      ensures Valid()
      ensures r == SaveVerdict(b, schema, fault)
      ensures books == if r.Saved? then old(books) + [b] else old(books)
    {
      r := SaveVerdict(b, schema, fault);
      if r.Saved? {
        books := books + [b];
      }
    }

    /** `find()` with no filter: every stored book, in store order. */
    method Find(fault: Option<JsValue>) returns (r: FindResult)
      ensures fault.Some? ==> r == FindFailed(fault.value)
      ensures fault.None? ==> r == Found(books)
    {
      if fault.Some? {
        r := FindFailed(fault.value);
      } else {
        r := Found(books);
      }
    }
  }
}
