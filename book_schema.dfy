/** The book schema of backend/models/Book.js: how the document library
    casts a plain record onto the schema's paths, and which cast records
    pass validation. */
module BookSchema {
  import opened Wrappers
  import opened Json
  import Decimal

  /** The value of one schema path after casting: absent (`undefined` or
      `null`), a value of the path's type, or a value that could not be
      cast (a cast error, which fails validation). */
  datatype Slot<T> = Missing | Given(value: T) | Unreadable

  /** One rating of the embedded `ratings` array. An entry of the array is an
      `Option<Rating>`: `None` is a `null` (or `undefined`) entry, which the
      document library keeps as it is and does not validate. */
  datatype Rating = Rating(userId: Slot<string>, grade: Slot<int>)

  datatype Book = Book(
    userId: Slot<string>,
    title: Slot<string>,
    author: Slot<string>,
    imageUrl: Slot<string>,
    year: Slot<int>,
    genre: Slot<string>,
    ratings: Slot<seq<Option<Rating>>>,
    averageRating: Slot<int>)

  /** The options of a `String` path. */
  datatype TextRule = TextRule(required: bool)

  /** The options of a `Number` path; `min` and `max` are inclusive bounds. */
  datatype NumberRule = NumberRule(required: bool, min: Option<int>, max: Option<int>)

  /** A schema of the shape declared in backend/models/Book.js. */
  datatype Schema = Schema(
    userId: TextRule,
    title: TextRule,
    author: TextRule,
    imageUrl: TextRule,
    year: NumberRule,
    genre: TextRule,
    ratingUserId: TextRule,
    grade: NumberRule,
    averageRating: NumberRule,
    averageRatingDefault: int)

  const EarliestYear := 1455
  const LowestGrade := 1
  const HighestGrade := 5
  const AverageRatingDefault := 0

  /** The schema as declared. Its upper year bound is `loadYear`, the year read
      once by `new Date().getFullYear()` when the module is loaded. */
  function BookSchemaAt(loadYear: int): Schema
  {
    Schema(
      userId := TextRule(true),
      title := TextRule(true),
      author := TextRule(true),
      imageUrl := TextRule(true),
      year := NumberRule(true, Some(EarliestYear), Some(loadYear)),
      genre := TextRule(true),
      ratingUserId := TextRule(true),
      grade := NumberRule(true, Some(LowestGrade), Some(HighestGrade)),
      averageRating := NumberRule(false, None, None),
      averageRatingDefault := AverageRatingDefault)
  }

  // ---------------------------------------------------------------------
  // Validation: the document library's validators, read off a rule.

  /** A `String` path passes: no cast error, and when required, a non-empty
      string (the library's required check refuses the empty string). */
  predicate TextOk(slot: Slot<string>, rule: TextRule)
  {
    !slot.Unreadable? && (rule.required ==> slot.Given? && slot.value != "")
  }

  /** A `Number` path passes: no cast error, present when required, and
      within the bounds when present (bounds are not checked on absent values). */
  predicate NumberOk(slot: Slot<int>, rule: NumberRule)
  {
    match slot
    case Unreadable => false
    case Missing => !rule.required
    case Given(n) =>
      (rule.min.Some? ==> rule.min.value <= n) && (rule.max.Some? ==> n <= rule.max.value)
  }

  predicate RatingOk(r: Rating, schema: Schema)
  {
    TextOk(r.userId, schema.ratingUserId) && NumberOk(r.grade, schema.grade)
  }

  /** The `ratings` path is not required; each rating is validated on its
      own, and `null` entries are skipped. */
  predicate RatingsOk(slot: Slot<seq<Option<Rating>>>, schema: Schema)
  {
    match slot
    case Unreadable => false
    case Missing => true
    case Given(rs) => forall i | 0 <= i < |rs| :: rs[i].Some? ==> RatingOk(rs[i].value, schema)
  }

  /** The record passes the schema's validation. */
  predicate ValidBook(b: Book, schema: Schema)
  {
    && TextOk(b.userId, schema.userId)
    && TextOk(b.title, schema.title)
    && TextOk(b.author, schema.author)
    && TextOk(b.imageUrl, schema.imageUrl)
    && NumberOk(b.year, schema.year)
    && TextOk(b.genre, schema.genre)
    && RatingsOk(b.ratings, schema)
    && NumberOk(b.averageRating, schema.averageRating)
  }

  /** A present, non-empty string. */
  predicate Filled(slot: Slot<string>)
  {
    slot.Given? && slot.value != ""
  }

  /** What the declared schema accepts, in plain terms: the six required
      fields are present, the year lies in [1455, loadYear], every rating has a
      rater and a grade in [1, 5], and the average can be read as a number. */
  lemma ValidBookMeaning(b: Book, loadYear: int)
    ensures ValidBook(b, BookSchemaAt(loadYear)) <==>
      && Filled(b.userId) && Filled(b.title) && Filled(b.author)
      && Filled(b.imageUrl) && Filled(b.genre)
      && b.year.Given? && EarliestYear <= b.year.value <= loadYear
      && !b.ratings.Unreadable?
      && (b.ratings.Given? ==>
            forall i | 0 <= i < |b.ratings.value| ::
              b.ratings.value[i].Some? ==>
                Filled(b.ratings.value[i].value.userId) && b.ratings.value[i].value.grade.Given?
                && LowestGrade <= b.ratings.value[i].value.grade.value <= HighestGrade)
      && !b.averageRating.Unreadable?
  {
  }

  /** The upper year bound is the load year, not the year of the request: a
      process loaded in `loadYear` keeps refusing books from any later year,
      although the same book dated `loadYear` would pass. */
  lemma LaterYearRefused(b: Book, loadYear: int)
    requires b.year.Given? && b.year.value > loadYear
    ensures !ValidBook(b, BookSchemaAt(loadYear))
    ensures EarliestYear <= loadYear && ValidBook(b, BookSchemaAt(b.year.value)) ==>
      ValidBook(b.(year := Given(loadYear)), BookSchemaAt(loadYear))
  {
  }

  /** `averageRating` has no bounds: any number is accepted in its place. */
  lemma AverageRatingUnbounded(b: Book, loadYear: int, n: int)
    ensures ValidBook(b.(averageRating := Given(n)), BookSchemaAt(loadYear))
        <==> ValidBook(b.(averageRating := Missing), BookSchemaAt(loadYear))
  {
  }

  /** Nothing makes rating raters unique: repeating an existing rating keeps
      a valid book valid, so one user can appear twice. */
  lemma RepeatedRaterAccepted(b: Book, schema: Schema, i: nat)
    requires ValidBook(b, schema)
    requires b.ratings.Given? && i < |b.ratings.value|
    ensures ValidBook(b.(ratings := Given(b.ratings.value + [b.ratings.value[i]])), schema)
  {
  }

  /** A `null` entry in `ratings` is kept and does not make a book invalid. */
  lemma NullRatingEntryAccepted(b: Book, schema: Schema)
    requires ValidBook(b, schema) && b.ratings.Given?
    ensures ValidBook(b.(ratings := Given(b.ratings.value + [None])), schema)
  {
  }

  // ---------------------------------------------------------------------
  // Casting: how `new Book(record)` reads each path of a plain record.

  /** Cast to a `String` path: strings as they are, numbers and booleans
      through their string form, `undefined`/`null` absent, arrays and plain
      objects a cast error. */
  function CastText(v: JsValue): (slot: Slot<string>)
    ensures slot.Missing? <==> v.JUndefined? || v.JNull?
    ensures slot.Unreadable? <==> v.JArr? || v.JObj?
    ensures v.JStr? ==> slot == Given(v.s)
    ensures v.JNum? ==> slot.Given? && Decimal.ParseInt(slot.value) == Some(v.n)
    ensures v.JBool? ==> slot == Given(if v.b then "true" else "false")
  {
    match v
    case JUndefined => Missing
    case JNull => Missing
    case JBool(b) => Given(if b then "true" else "false")
    case JNum(n) => Decimal.IntDecimalRoundTrip(n); Given(Decimal.IntToDecimal(n))
    case JStr(s) => Given(s)
    case JArr(_) => Unreadable
    case JObj(_) => Unreadable
  }

  /** Cast to a `Number` path: numbers as they are, booleans as 1 and 0,
      decimal literals read as numbers, `undefined`, `null` and `""` absent,
      anything else a cast error. */
  function CastNumber(v: JsValue): (slot: Slot<int>)
    ensures v.JNum? ==> slot == Given(v.n)
    ensures v.JBool? ==> slot == Given(if v.b then 1 else 0)
    ensures v.JArr? || v.JObj? ==> slot == Unreadable
    ensures slot.Missing? <==> v.JUndefined? || v.JNull? || v == JStr("")
    ensures v.JStr? && v.s != "" ==>
      slot == (if Decimal.ParseInt(v.s).Some? then Given(Decimal.ParseInt(v.s).value) else Unreadable)
  {
    match v
    case JUndefined => Missing
    case JNull => Missing
    case JBool(b) => Given(if b then 1 else 0)
    case JNum(n) => Given(n)
    case JStr(s) =>
      if s == "" then Missing
      else (match Decimal.ParseInt(s)
        case Some(n) => Given(n)
        case None => Unreadable)
    case JArr(_) => Unreadable
    case JObj(_) => Unreadable
  }

  /** Cast of one `ratings` entry: `null` and `undefined` are kept as a
      `null` entry, a plain object makes a rating, anything else is a cast error. */
  function CastRating(v: JsValue): (r: Slot<Option<Rating>>)
    ensures !r.Missing?
    ensures r == Given(None) <==> v.JUndefined? || v.JNull?
    ensures (r.Given? && r.value.Some?) <==> v.JObj?
    ensures v.JObj? ==>
      r.value.value == Rating(CastText(Get(v.fields, "userId")), CastNumber(Get(v.fields, "grade")))
  {
    match v
    case JUndefined => Given(None)
    case JNull => Given(None)
    case JObj(f) => Given(Some(Rating(CastText(Get(f, "userId")), CastNumber(Get(f, "grade")))))
    case _ => Unreadable
  }

  /** Cast of the `ratings` array: an absent array defaults to the empty one,
      `null` stays absent, an array is cast entry by entry. */
  function CastRatings(v: JsValue): (slot: Slot<seq<Option<Rating>>>)
    ensures v.JUndefined? ==> slot == Given([])
    ensures slot.Missing? <==> v.JNull?
    ensures v.JArr? ==> (slot.Given? <==> forall i | 0 <= i < |v.items| :: CastRating(v.items[i]).Given?)
    ensures !v.JUndefined? && !v.JNull? && !v.JArr? ==> slot == Unreadable
    ensures slot.Given? && v.JArr? ==>
      |slot.value| == |v.items| &&
      forall i | 0 <= i < |v.items| :: CastRating(v.items[i]) == Given(slot.value[i])
  {
    match v
    case JUndefined => Given([])
    case JNull => Missing
    case JArr(items) =>
      if forall i | 0 <= i < |items| :: CastRating(items[i]).Given?
      then Given(seq(|items|, i requires 0 <= i < |items| => CastRating(items[i]).value))
      else Unreadable
    case _ => Unreadable
  }

  /** The documented example `"ratings":[{"userId":"12345","grade":5}]` casts
      to one rating and passes validation. */
  lemma DocumentedRatingsAccepted(loadYear: int)
    ensures var slot := CastRatings(JArr([JObj(map["userId" := JStr("12345"), "grade" := JNum(5)])]));
      slot == Given([Some(Rating(Given("12345"), Given(5)))]) && RatingsOk(slot, BookSchemaAt(loadYear))
  {
    var entry := JObj(map["userId" := JStr("12345"), "grade" := JNum(5)]);
    assert Get(entry.fields, "userId") == JStr("12345");
    assert Get(entry.fields, "grade") == JNum(5);
    assert CastRating(entry) == Given(Some(Rating(Given("12345"), Given(5))));
    var slot := CastRatings(JArr([entry]));
    assert slot.value == [Some(Rating(Given("12345"), Given(5)))];
    assert RatingOk(Rating(Given("12345"), Given(5)), BookSchemaAt(loadYear));
  }

  /** `new Book(record)`: each schema path cast from the record's property of
      that name; properties the schema does not declare are dropped; an
      undefined `averageRating` takes the schema's default. */
  function ToBook(record: map<string, JsValue>, schema: Schema): (b: Book)
    ensures Get(record, "averageRating") == JUndefined ==> b.averageRating == Given(schema.averageRatingDefault)
    ensures Get(record, "averageRating") != JUndefined ==> b.averageRating == CastNumber(Get(record, "averageRating"))
  {
    var average := Get(record, "averageRating");
    Book(
      userId := CastText(Get(record, "userId")),
      title := CastText(Get(record, "title")),
      author := CastText(Get(record, "author")),
      imageUrl := CastText(Get(record, "imageUrl")),
      year := CastNumber(Get(record, "year")),
      genre := CastText(Get(record, "genre")),
      ratings := CastRatings(Get(record, "ratings")),
      averageRating := if average == JUndefined then Given(schema.averageRatingDefault) else CastNumber(average))
  }

  /** The declared default of `averageRating` is 0. */
  lemma AverageRatingDefaultsToZero(record: map<string, JsValue>, loadYear: int)
    requires "averageRating" !in record
    ensures ToBook(record, BookSchemaAt(loadYear)).averageRating == Given(0)
  {
  }

  /** Only the declared paths matter: records that agree on them make the same book. */
  lemma UndeclaredPropertiesIgnored(r1: map<string, JsValue>, r2: map<string, JsValue>, schema: Schema)
    requires forall k | k in {"userId", "title", "author", "imageUrl", "year", "genre", "ratings", "averageRating"} ::
      Get(r1, k) == Get(r2, k)
    ensures ToBook(r1, schema) == ToBook(r2, schema)
  {
  }

  // ---------------------------------------------------------------------
  // Serialisation: a stored book as the JSON a reply carries.

  /** No path, and no field of a rating, holds a cast error. */
  predicate Readable(b: Book)
  {
    && !b.userId.Unreadable? && !b.title.Unreadable? && !b.author.Unreadable?
    && !b.imageUrl.Unreadable? && !b.year.Unreadable? && !b.genre.Unreadable?
    && !b.ratings.Unreadable? && !b.averageRating.Unreadable?
    && (b.ratings.Given? ==>
          forall i | 0 <= i < |b.ratings.value| ::
            b.ratings.value[i].Some? ==>
              !b.ratings.value[i].value.userId.Unreadable? && !b.ratings.value[i].value.grade.Unreadable?)
  }

  /** A validated book has no cast errors. */
  lemma ValidIsReadable(b: Book, schema: Schema)
    requires ValidBook(b, schema)
    ensures Readable(b)
  {
  }

  /** The JSON form of a string path; `undefined` (left out) when absent. */
  function TextJson(slot: Slot<string>): JsValue
  {
    if slot.Given? then JStr(slot.value) else JUndefined
  }

  /** The JSON form of a number path; `undefined` (left out) when absent. */
  function NumberJson(slot: Slot<int>): JsValue
  {
    if slot.Given? then JNum(slot.value) else JUndefined
  }

  /** Keep only the properties that are not `undefined`, as `JSON.stringify` does. */
  function Defined(props: map<string, JsValue>): (fields: map<string, JsValue>)
    ensures forall k :: Get(fields, k) == Get(props, k)
  {
    map k | k in props && props[k] != JUndefined :: props[k]
  }

  function RatingJson(r: Rating): JsValue
  {
    JObj(Defined(map["userId" := TextJson(r.userId), "grade" := NumberJson(r.grade)]))
  }

  /** A `null` entry is written as `null`. */
  function EntryJson(e: Option<Rating>): JsValue
  {
    if e.Some? then RatingJson(e.value) else JNull
  }

  function RatingsJson(slot: Slot<seq<Option<Rating>>>): JsValue
  {
    if slot.Given?
    then JArr(seq(|slot.value|, i requires 0 <= i < |slot.value| => EntryJson(slot.value[i])))
    else JNull
  }

  /** The JSON form of a book: absent strings and year are left out, absent
      `ratings` and `averageRating` are written as `null`. */
  function BookJson(b: Book): JsValue
  {
    JObj(Defined(map[
      "userId" := TextJson(b.userId),
      "title" := TextJson(b.title),
      "author" := TextJson(b.author),
      "imageUrl" := TextJson(b.imageUrl),
      "year" := NumberJson(b.year),
      "genre" := TextJson(b.genre),
      "ratings" := RatingsJson(b.ratings),
      "averageRating" := if b.averageRating.Given? then JNum(b.averageRating.value) else JNull]))
  }

  lemma RatingJsonRoundTrip(r: Rating)
    requires !r.userId.Unreadable? && !r.grade.Unreadable?
    ensures CastRating(RatingJson(r)) == Given(Some(r))
  {
  }

  lemma RatingsJsonRoundTrip(slot: Slot<seq<Option<Rating>>>)
    requires !slot.Unreadable?
    requires slot.Given? ==>
      forall i | 0 <= i < |slot.value| :: slot.value[i].Some? ==>
        !slot.value[i].value.userId.Unreadable? && !slot.value[i].value.grade.Unreadable?
    ensures CastRatings(RatingsJson(slot)) == slot
  {
    if slot.Given? {
      var rs := slot.value;
      var items := RatingsJson(slot).items;
      forall i | 0 <= i < |rs|
        ensures CastRating(items[i]) == Given(rs[i])
      {
        if rs[i].Some? {
          RatingJsonRoundTrip(rs[i].value);
        }
      }
      var cast := seq(|items|, i requires 0 <= i < |items| => CastRating(items[i]).value);
      assert cast == rs;
    }
  }

  lemma BookJsonProperties(b: Book)
    ensures Get(BookJson(b).fields, "userId") == TextJson(b.userId)
    ensures Get(BookJson(b).fields, "title") == TextJson(b.title)
    ensures Get(BookJson(b).fields, "author") == TextJson(b.author)
    ensures Get(BookJson(b).fields, "imageUrl") == TextJson(b.imageUrl)
    ensures Get(BookJson(b).fields, "year") == NumberJson(b.year)
    ensures Get(BookJson(b).fields, "genre") == TextJson(b.genre)
    ensures Get(BookJson(b).fields, "ratings") == RatingsJson(b.ratings)
    ensures Get(BookJson(b).fields, "averageRating") ==
      if b.averageRating.Given? then JNum(b.averageRating.value) else JNull
  {
  }

  /** Reading the JSON form of a readable book back through the schema's
      casts gives the same book, whatever the schema's default. */
  lemma BookJsonRoundTrip(b: Book, schema: Schema)
    requires Readable(b)
    ensures ToBook(BookJson(b).fields, schema) == b
  {
    RatingsJsonRoundTrip(b.ratings);
    BookJsonProperties(b);
  }
}
