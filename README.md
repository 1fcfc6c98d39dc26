# Book catalogue backend: a Dafny model of its deterministic core

This project models the small deterministic pieces of a book-catalogue REST
backend written for Express and Mongoose. It covers:

- the `Book` schema: which records pass validation, and how a plain record
  is cast onto the schema's paths;
- the `addBook` and `getAllBooks` handlers: how a new book record is built
  from the client's JSON, and which status and body are sent back;
- `sanitizeData`: the trim-then-escape pass over an object's string fields;
- the stored-file-name computation of `resizeImage`;
- the bearer-token middleware;
- the error-reply middleware and the `HttpError` class.

All values are JavaScript values (`Json.JsValue`). Every handler's reply is a
status code with a JSON body (`Json.Reply`).

Modules, one per source file, plus four helpers:

| module | models |
|---|---|
| `BookSchema` (book_schema.dfy) | backend/models/Book.js |
| `BookStore`, `BooksController` (book_store.dfy, books_controller.dfy) | backend/controllers/books.js |
| `Sanitize` (sanitize.dfy) | backend/utils/sanitizeData.js |
| `ImageName` (image_name.dfy) | backend/utils/sharp.js |
| `AuthMiddleware` (auth_middleware.dfy) | backend/middleware/auth.js |
| `ErrorMiddleware` (error_middleware.dfy) | backend/middleware/error.middleware.js |
| `HttpErrors` (http_error.dfy) | backend/utils/HttpError.js |
| `Wrappers`, `Json`, `Strings`, `Decimal` | `Option`; JavaScript values; `split`/`join`; `String(n)`/`Number(s)` on integers |

Things outside the program become parameters:

- the current time (`now` in place of `Date.now()`);
- the year the schema module was loaded (`loadYear`);
- `NODE_ENV` and `TOKEN_SECRET` (`nodeEnv`, `secret`; `None` when unset);
- the token library's `verify`;
- the sanitiser library's `escape` and `trim`;
- the stack trace an error captures (`stack`);
- a store failure (`fault`).

The schema is written down as data (`BookSchemaAt(loadYear)`, mirroring the
declaration) and read by generic rule checkers (`TextOk`, `NumberOk`).
`ValidBookMeaning` then shows, in both directions, what the declared schema
accepts.

The store is a class whose invariant is that every stored book passed
validation. `addBook` and `getAllBooks` are methods over it.

`addBook` does not reset `ratings` or `averageRating`. It copies whatever the
client sends (backend/controllers/books.js:7-8); `CreatedBookFields` states
this.

## Model

| member | source | states |
|---|---|---|
| BookSchema.ValidBookMeaning | backend/models/Book.js:3-48 | A record passes exactly when userId, title, author, imageUrl and genre are non-empty strings, year is present with 1455 <= year <= loadYear, every rating that is not a null entry has a non-empty userId and a grade in [1, 5], and averageRating is absent or a number (both directions) |
| BookSchema.LaterYearRefused | backend/models/Book.js:24 | The upper bound is the load year. A book dated after it is refused, although the same book dated in the load year would pass |
| BookSchema.AverageRatingUnbounded | backend/models/Book.js:44-47 | Any number, or nothing, is accepted for averageRating |
| BookSchema.AverageRatingDefaultsToZero | backend/models/Book.js:44-47 | A record without averageRating gets the default 0 |
| BookSchema.RepeatedRaterAccepted | backend/models/Book.js:30-43 | Repeating an existing rating keeps a valid book valid, so raters need not be unique |
| BookSchema.NullRatingEntryAccepted | backend/models/Book.js:30-43 | Appending a null entry to the ratings of a valid book keeps it valid |
| BookSchema.ToBook | backend/models/Book.js:3-48 | An undefined averageRating takes the schema's default; otherwise the average is cast as a number |
| BookSchema.CastText | backend/models/Book.js:5 | Casting to a String path: undefined or null gives absent, arrays and objects fail, strings are kept, numbers become a string that reads back as the number, booleans become "true" or "false" |
| BookSchema.CastNumber | backend/models/Book.js:21 | Casting to a Number path: numbers are kept; true and false become 1 and 0; undefined, null and "" give absent; other strings are read as decimal literals or fail; arrays and objects fail |
| BookSchema.CastRating | backend/models/Book.js:31-42 | A null or undefined entry is kept as a null entry. An object makes a rating whose userId and grade are cast from its properties. In this model any other entry is a cast error |
| BookSchema.CastRatings | backend/models/Book.js:30-43 | An undefined ratings array becomes []. null stays absent. An array casts exactly when every entry casts, and then entry by entry, keeping length and order; null entries are kept. Any other value is a cast error |
| BookSchema.DocumentedRatingsAccepted | backend/routes/books.js:82 | The documented example ratings array [{"userId":"12345","grade":5}] casts to one rating and passes validation |
| BookSchema.UndeclaredPropertiesIgnored | backend/models/Book.js:3-48 | Records that agree on the eight declared paths give the same book |
| BookSchema.ValidIsReadable | backend/models/Book.js:3-48 | A validated book holds no cast error |
| BookSchema.BookJsonRoundTrip | backend/controllers/books.js:28 | The JSON form of a readable book casts back to the same book |
| BookStore.SaveVerdict | backend/controllers/books.js:15-16 | A save succeeds exactly when the book validates and the store reports no fault. An invalid book is refused with a ValidationError |
| BookStore.Store.Save | backend/controllers/books.js:15-16 | The store keeps its invariant that all stored books are valid. It appends the book exactly when saved and otherwise changes nothing |
| BookStore.Store.Find | backend/controllers/books.js:26 | With no fault, find returns all stored books in store order; with a fault, it returns the failure |
| BooksController.BookRecord | backend/controllers/books.js:4-13 | The record's keys are the client's keys plus userId and imageUrl. userId is the authenticated id. imageUrl is protocol + "://" + host + "/images/" + filename. Every other client property is copied unchanged |
| BooksController.ClientUserIdIgnored | backend/controllers/books.js:5-9 | Client objects that differ only in userId give the same record (no spoofing) |
| BooksController.CreatedBookFields | backend/controllers/books.js:7-13 | The cast book's owner is the cast authenticated id, its imageUrl is the built URL, and the client's ratings and averageRating are kept |
| BooksController.OwnerRequired | backend/controllers/books.js:9 | Without a non-empty authenticated id, no book can pass validation, whatever the client sends |
| BooksController.AddBookReply | backend/controllers/books.js:15-22 | Status 201 with "Livre ajouté avec succès !" exactly when saved, otherwise 400 with {error}. No other status |
| BooksController.AddBook | backend/controllers/books.js:3-23 | The reply is the reply for the save verdict of the built record. The store grows by that book exactly on 201 and keeps its invariant |
| BooksController.InvalidNeverCreated | backend/controllers/books.js:20-22 | A record failing the schema always gets 400 with the validation error, never 201 |
| BooksController.IndexKeysRefused | backend/controllers/books.js:4-8 | A parsed object whose keys are all indices has no title. This is what spreading a number, boolean, string or array gives. It gets 400 with the validation error |
| BooksController.BooksJson | backend/controllers/books.js:28 | The JSON array has one entry per stored book, in order |
| BooksController.GetAllBooksReply | backend/controllers/books.js:27-32 | 200 with the books exactly when found, else 400 with {error} |
| BooksController.GetAllBooks | backend/controllers/books.js:25-33 | 200 with every stored book in store order, or 400 with the store's error |
| BooksController.ListedBooksReadBack | backend/controllers/books.js:26-28 | Each listed entry casts back to the stored book |
| Sanitize.Sanitized | backend/utils/sanitizeData.js:3-13 | Same key set as the input. A string value v becomes escape(trim(v)); every other value is unchanged |
| Sanitize.FieldsIndependent | backend/utils/sanitizeData.js:6-10 | A key's result depends only on that key's input value |
| Sanitize.TrimBeforeEscape | backend/utils/sanitizeData.js:8 | Trim is applied before escape. The result differs from trim(escape(v)) whenever those differ |
| Sanitize.SanitizeData | backend/utils/sanitizeData.js:3-13 | Returns a fresh object holding the sanitised fields; the input object is left as it was |
| ImageName.StemMeaning | backend/utils/sharp.js:7 | The stem has no space and no dot. It is the underscored name up to its first dot, or the whole name. It may be empty |
| ImageName.FilenameShape | backend/utils/sharp.js:5-10 | The stored name splits on "." into exactly [stem + decimal(now), "webp"]. It has no space and ends with ".webp" |
| ImageName.ResizeImage | backend/utils/sharp.js:11-17 | The returned value is the stored name stem + decimal(now) + ".webp", and the file is written to images/ + that name |
| ImageName.NamesCanCollide | backend/utils/sharp.js:6-10 | Different names stored at different times can get the same stored name |
| Strings.Split | backend/middleware/auth.js:12 | split gives at least one piece, and no piece contains the separator |
| Strings.SplitHasSecondPiece | backend/middleware/auth.js:12 | Field 1 of split exists exactly when the string contains the separator |
| Strings.SplitJoinReplaces | backend/utils/sharp.js:7 | split(" ").join("_") replaces every space by "_" |
| Strings.FirstPiece | backend/utils/sharp.js:7 | split(".")[0] is the prefix before the first "." (or the whole string) |
| Strings.JoinSplit | backend/utils/sharp.js:7 | Joining the pieces with the separator restores the string |
| Strings.SplitJoin | backend/utils/sharp.js:7 | Splitting the join of separator-free pieces restores the pieces |
| Strings.Replace | backend/utils/sharp.js:7 | Position by position, each from becomes to and all other characters are kept |
| Decimal.NatToDecimal | backend/utils/sharp.js:8 | The decimal form of a timestamp is a non-empty string of digits with no leading zero |
| Decimal.NatDecimalRoundTrip | backend/utils/sharp.js:8 | Reading the decimal form back gives the timestamp |
| Decimal.IntDecimalRoundTrip | backend/models/Book.js:21 | Writing an integer in decimal and reading it back as a Number gives the integer |
| AuthMiddleware.TokenField | backend/middleware/auth.js:12 | Field 1 exists exactly when the header has a space, and it contains no space |
| AuthMiddleware.Decide | backend/middleware/auth.js:5-24 | Every refusal is a 401. A missing or empty header gives "Token d'authentification manquant". The request proceeds exactly when the header is non-empty, field 1 is non-empty and verify decodes it; then req.auth.userId is the decoded userId |
| AuthMiddleware.TokenAfterAnyScheme | backend/middleware/auth.js:12 | The token is the second word whatever the first word is; the scheme is never checked |
| AuthMiddleware.EmptyTokenRefused | backend/middleware/auth.js:12-15 | "Bearer " and a doubled space give "Token invalide" |
| AuthMiddleware.NoSpaceRefused | backend/middleware/auth.js:12-15 | A header without a space gives "Token invalide" |
| AuthMiddleware.VerifyOnlyWithToken | backend/middleware/auth.js:6-18 | Before a non-empty token is found, the verdict does not depend on verify (verify is not called) |
| AuthMiddleware.VerifyFailureReported | backend/middleware/auth.js:21-23 | A verify failure gives 401 with the library error's message and name |
| AuthMiddleware.RefusalReply | backend/middleware/auth.js:8-10 | If error.middleware.js were mounted, every refusal would reach the client as 401. Outside development, a missing header would read {error: "Token d'authentification manquant"} |
| AuthMiddleware.Authenticate | backend/middleware/auth.js:17-23 | next is called once. On success it gets no error and req.auth is set to the decoded id. On refusal it gets the error and req.auth is untouched |
| HttpErrors.NewHttpError | backend/utils/HttpError.js:2-7 | statusCode and message are the arguments. name is the given name when non-empty, else "HttpError" |
| ErrorMiddleware.StatusFor | backend/middleware/error.middleware.js:4 | The status is err.statusCode when non-zero, otherwise 500 |
| ErrorMiddleware.HandleError | backend/middleware/error.middleware.js:3-19 | The status is StatusFor(err). The body is {error: ...} and holds a "stack" key and a "name" key, at any depth, exactly when NODE_ENV is "development" |
| ErrorMiddleware.DevelopmentExposesDiagnostics | backend/middleware/error.middleware.js:6-14 | In development, error is {name, message, stack} taken from err |
| ErrorMiddleware.ProductionShowsMessageOnly | backend/middleware/error.middleware.js:16-18 | Outside development, error is the message, or "Une erreur interne est survenue." when the message is empty |

## Left out

- Numbers are integers. JavaScript numbers are doubles. Fractional years, grades and averages, NaN and infinities are not modelled.
- BookSchema.CastNumber: only plain decimal literals are read. `Number()` also accepts surrounding whitespace, a leading `+`, fractions, exponents and hexadecimal; the model treats all of these as cast errors.
- BookSchema.CastText: an object with a string `_id` is not read as that id. Numbers of 10^21 and above are not written in exponent form.
- BookSchema.CastRatings: a single non-array value is treated as a cast error. The library would wrap it in a one-element array.
- BookSchema.CastRatings: only `null` and `undefined` entries are kept unvalidated. Other falsy entries (`false`, `0`, `""`) are treated as cast errors. The library may keep and skip those too.
- The `_id` and `__v` properties the document store adds are not modelled. Neither is their place in the JSON of a listed book.
- BookStore.ValidationError: the store's validation error is reduced to its name. The per-path details it carries are not modelled.
- The store is a sequence in insertion order. Connection handling, asynchronous completion and concurrent writers are not modelled. A store failure is the `fault` parameter.
- `JSON.parse(req.body.book)` is given already parsed, as an object (`parsed`). A parse failure throws before any reply and is not modelled. So does a parsed `null`, because `delete` on it fails (backend/controllers/books.js:4-5). A number, boolean, string or array is spread into an object whose keys are all indices; `IndexKeysRefused` covers that case.
- A missing upload (`req.file` undefined) throws before the save and is not modelled: `filename` is a plain parameter.
- `req.get("host")` is a string. An absent Host header, which would read as "undefined", is not modelled.
- `escape` and `trim` are arbitrary functions. The validator library's actual character rules are not modelled.
- Sanitize.SanitizeData: values are immutable here. The aliasing of nested objects that a shallow copy implies is not captured. The order of an object's keys is not modelled either; the source keeps it.
- `jwt.verify` is an arbitrary function of the token and the secret (`None` when `TOKEN_SECRET` is unset). Signing, expiry and what an absent secret does all fall inside it.
- The sharp pipeline (resize to 700 px width, webp quality 80, file write) is not modelled. `path.join`'s normalisation of repeated slashes is not modelled either: OutputPath is plain concatenation.
- Stack traces are inputs (`stack`), not computed.
- Values thrown that are not `Error`s are not modelled; an error's name, message and stack are always strings.
- app.js mounts no error handler (backend/app.js:9-37). `ErrorMiddleware.HandleError` and `AuthMiddleware.RefusalReply` describe the reply only as it would be if error.middleware.js were mounted.
- backend/controllers/auth.js is not part of this model (signup and login).
- The routes file, app.js, swaggerConfig.js and deleteImage.js are not part of this model: they are routing, server wiring, configuration and file deletion.
- backend/controllers/books.js defines only `addBook` and `getAllBooks`. The rating, update, delete and best-rating handlers that the routes file names are not part of this model.
