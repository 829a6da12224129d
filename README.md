# Reading-log backend: payload validation and list ordering

This project models the request-ingestion path of a social reading-log
service's backend, and proves properties of the model in Dafny. Two POST routes
are modelled:

- **Personal book list** (`app/api/v1/mybook/route.ts`). A signed-in user adds
  a book to a private, ordered list. An entry is either a published book given
  by a 13-character ISBN, or the user's own book given by a title of 1 to 50
  characters. Both kinds carry a reading status: `NOT_STARTED`, `IN_PROGRESS`
  or `COMPLETED`. The new entry's `order` is one more than the user's current
  largest `order`, or 1 for the user's first entry.
- **Reading record** (`app/api/v1/record/route.ts`). A signed-in user logs a
  reading session. A record holds the minutes read (an integer from 1 to
  1440), an optional comment, a UTC timestamp and a local timestamp. It also
  has a book reference of one of three kinds: none (`NO_BOOK`), a published
  book by ISBN (`PUBLISHED_BOOK`), or one of the user's own books by id
  (`ORIGINAL_BOOK`). The id arrives as text and is converted with JavaScript's
  `BigInt`.

Both handlers do the same four steps. They check the session and answer 401 if
there is none. They read the body as JSON. They validate it against a tagged
union of schemas and answer 400 if that fails. Only then do they write to the
store, answering 201, or 500 if the store call fails.

Modules, one per file:

| file | module | what it holds |
|---|---|---|
| json.dfy | `Json` | the parsed body: an object of field values, or a non-object |
| bigint.dfy | `BigIntText` | `BigInt(text)` on decimal text, and decimal printing |
| iso.dfy | `IsoDateTime` | the date-time format the timestamp schema accepts |
| zod.dfy | `Zod` | the field schemas used by both routes, issues and `safeParse` outcomes |
| http.dfy | `Http` | the user id, the request body and the status codes |
| mybook.dfy | `MyBookRoute` | the list-entry schema, the `myBook` table as class `Shelf`, the order assignment |
| record.dfy | `RecordRoute` | the record schema, the `record` table as class `Log` |

Each validator is a pure function, `Validate(body): Outcome<T>`. The outcome is
`Parsed(value)`, `Rejected(issues)`, or `Threw` (an exception escaped
`safeParse`). The parsed value is a Dafny datatype with one constructor per
tag. Each store is a class that holds a sequence of rows. Its `Post` method
takes the session's user id (or none), the request body, and whether the store
is reachable. It returns the reply and appends at most one row.

Where the service's intended design and the code differ, the model follows the
code:

- **Extra fields.** The schemas are plain `z.object` schemas, so unknown fields
  are stripped rather than refused. `RecordRoute.IgnoresOtherFields` proves
  that a field outside the schema has no effect on the outcome. This includes
  a `userId` in the body.
- **Unconvertible ids.** When `originalBookId` is a string that `BigInt`
  cannot convert, the conversion throws inside the schema's transform. Zod does
  not catch exceptions thrown by transforms, and the parse runs outside the
  handler's `try`. So the handler does not answer 400: the exception leaves the
  handler, and the framework answers 500. The model has `Threw`, then
  `ServerError`, and nothing is written. The model's conversion rejects
  every text that is not an optionally signed decimal literal, so it also
  throws on the `0x`/`0o`/`0b` forms that `BigInt` accepts (see Left out).
- **Malformed JSON.** Text that does not parse as JSON is not a separate error.
  The `catch` handler returns a `Response` object, and that object is validated
  in place of the body. Its `type` property reads `"default"`, so the tagged
  union refuses it with 400 (`InvalidJsonRejected` in both routes).
- **The issue list.** Zod collects one or more issues for every failing field.
  The handler only logs the list. The client gets a fixed "Invalid request
  body" text.
- **Book references.** The record route does not check that `originalBookId`
  names an existing book of the user's. The model makes no such claim.
- **Order numbers.** The `order` read-then-insert is not atomic. The model
  treats calls as sequential.

## Model

| member | source | states |
|---|---|---|
| `BigIntText.Decimal` | app/api/v1/record/route.ts:24-26 | the decimal text of n is non-empty, all digits, has no leading zero, and denotes n |
| `BigIntText.TrimStart` | app/api/v1/record/route.ts:24-26 | `BigInt` drops leading white space: the result is a suffix of the text, everything cut off is white space, and the rest does not start with white space |
| `BigIntText.TrimEnd` | app/api/v1/record/route.ts:24-26 | `BigInt` drops trailing white space: the result is a prefix of the text, everything cut off is white space, and the rest does not end with white space |
| `BigIntText.ToBigInt` | app/api/v1/record/route.ts:24-26 | `BigInt(text)` on decimal text: white space alone converts to 0. The lemmas below state the rest: `SignedDigitsConvert` and `ConvertsOnlyLiterals` together say that text converts exactly when it is white space around nothing or around an optionally signed run of digits, and give the value |
| `BigIntText.SignedDigitsConvert` | app/api/v1/record/route.ts:24-26 | an optionally signed run of digits with any white space around it converts to the value of the digits, negated after `-`; `" 12\n"`, `"+7"` and `"-012"` convert |
| `BigIntText.ConvertsOnlyLiterals` | app/api/v1/record/route.ts:24-26 | a conversion succeeds only for text that is white space around nothing or around an optionally signed run of digits, so `"1 2"`, `"1-2"`, `"--1"` and `"5+"` throw |
| `BigIntText.ConvertsOnlyDigitsAndSigns` | app/api/v1/record/route.ts:24-26 | a conversion succeeds only when every character is white space, a digit or a sign; any other character makes `BigInt` throw |
| `BigIntText.DigitsConvert` | app/api/v1/record/route.ts:24-26 | `BigInt` of a non-empty run of decimal digits is the number the digits denote |
| `BigIntText.NoDigitsThrows` | app/api/v1/record/route.ts:24-26 | `BigInt` throws on non-empty text with no digit and no white space |
| `BigIntText.IntTextRoundTrip` | app/api/v1/record/route.ts:24-26 | `BigInt(String(n)) == n` for every integer n, negative ones included |
| `IsoDateTime.OffsetRefused` | app/api/v1/record/route.ts:13-14 | a timestamp ending in a numeric offset `+HH:MM` or `-HH:MM` is refused, whatever precedes it (offsets are off by default) |
| `IsoDateTime.LocalRefused` | app/api/v1/record/route.ts:13-14 | a date and a time with no `Z` are refused (the local form is off by default) |
| `IsoDateTime.ToIsoStringAccepted` | app/api/v1/record/route.ts:13-14 | every `toISOString` text for a real calendar day in years 0 to 9999 is accepted |
| `Zod.StringOfLength` | app/api/v1/mybook/route.ts:10-18 | passes exactly the strings whose length is within the bounds, with the string as the value; otherwise issues at that field only |
| `Zod.AnyString` | app/api/v1/record/route.ts:24 | passes exactly the strings; otherwise issues at that field only |
| `Zod.OptionalString` | app/api/v1/record/route.ts:12 | passes an absent field (as no comment) or a string (as that comment); anything else, `null` included, fails at that field |
| `Zod.IntInRange` | app/api/v1/record/route.ts:7-11 | passes exactly the integral numbers n with lo <= n <= hi; fractions, strings and absence fail at that field |
| `Zod.Enum` | app/api/v1/mybook/route.ts:6-8 | passes exactly the strings among the options |
| `Zod.DateTime` | app/api/v1/record/route.ts:13-14 | passes exactly the strings in the ISO 8601 UTC form |
| `Http.Received` | app/api/v1/mybook/route.ts:29-31 | JSON text that parses is validated as it is; text that does not parse is replaced by the `Response` the `catch` handler builds, an object whose `type` reads "default" (the record route does the same at app/api/v1/record/route.ts:42-44) |
| `MyBookRoute.Validate` | app/api/v1/mybook/route.ts:6-39 | a parsed entry has the body's exact tag (one of the two literals), a status among the three names, and a 13-character ISBN or a title of 1 to 50 characters, all equal to the body's fields; a refusal carries at least one issue; it never throws |
| `MyBookRoute.ParseOption` | app/api/v1/mybook/route.ts:10-18 | the parsed entry is of the variant the tag selected |
| `MyBookRoute.Complete` | app/api/v1/mybook/route.ts:6-18 | every body whose schema fields spell a well-formed entry validates to exactly that entry, whatever its other fields hold |
| `MyBookRoute.RoundTrip` | app/api/v1/mybook/route.ts:6-18 | a well-formed entry, sent as JSON, validates back to itself |
| `MyBookRoute.UnknownTagRejected` | app/api/v1/mybook/route.ts:33-39 | an object whose `type` is neither literal is refused with a single issue at `type` |
| `MyBookRoute.InvalidJsonRejected` | app/api/v1/mybook/route.ts:29-39 | a body that is not JSON is refused |
| `MyBookRoute.RejectionNamesFailingFields` | app/api/v1/mybook/route.ts:33-39 | with a known tag, the body is refused exactly when some field breaks its bound, and the issues name exactly those fields |
| `MyBookRoute.EntriesOf` | app/api/v1/mybook/route.ts:42-45 | the rows selected for a user all belong to that user and come from the store |
| `MyBookRoute.EntriesOfComplete` | app/api/v1/mybook/route.ts:42-45 | every row of the user in the store is selected |
| `MyBookRoute.EntriesOfConcat` | app/api/v1/mybook/route.ts:42-45 | the selection keeps store order: selecting from two consecutive parts of the store joins the two selections |
| `MyBookRoute.EntriesOfOne` | app/api/v1/mybook/route.ts:42-45 | a single row is selected exactly when it belongs to the user |
| `MyBookRoute.MaxOf` | app/api/v1/mybook/route.ts:42-45 | the maximum is absent (null) exactly for no numbers, and otherwise is one of them and at least every one |
| `MyBookRoute.NextOrder` | app/api/v1/mybook/route.ts:42-54 | the new order exceeds the order of every row of the user in the store; it is 1 when the user has none, and otherwise is just above the user's largest order |
| `MyBookRoute.Append` | app/api/v1/mybook/route.ts:51-57 | an add puts one row for the user, with the next order, after the user's rows; every other user's rows are unchanged |
| `MyBookRoute.DenseNext` | app/api/v1/mybook/route.ts:42-54 | when each user's orders are 1..N, the next order of a user is that user's count plus one |
| `MyBookRoute.DensePreserved` | app/api/v1/mybook/route.ts:42-57 | an add keeps every user's orders exactly 1..N |
| `MyBookRoute.SequentialAdds` | app/api/v1/mybook/route.ts:42-57 | N adds in a row by one user extend that user's orders by the next N numbers; other users' rows are untouched |
| `MyBookRoute.FromEmpty` | app/api/v1/mybook/route.ts:42-57 | from an empty table, N adds by one user give that user the orders 1..N, with no gaps or repeats |
| `MyBookRoute.Shelf.MaxOrder` | app/api/v1/mybook/route.ts:42-45 | the aggregate returns the largest order among the user's rows, or null when there are none |
| `MyBookRoute.Shelf.Post` | app/api/v1/mybook/route.ts:20-67 | no session gives 401; a refused body gives 400; a store failure gives 500; in all three the table is unchanged. Otherwise 201, and the table is the old table plus the entry for the session's user with the next order. Each user's orders stay 1..N |
| `RecordRoute.Validate` | app/api/v1/record/route.ts:6-52 | a parsed record has the body's exact tag (one of the three literals), 1 to 1440 minutes, the body's comment or none when absent, two accepted timestamps, a 13-character ISBN for a published book, and for an original book the integer `BigInt` gives for the id text. It throws exactly when an original book's id is text the model's conversion rejects (the `0x`/`0o`/`0b` forms included, see Left out). A refusal carries at least one issue |
| `RecordRoute.ParseOption` | app/api/v1/record/route.ts:17-31 | the parsed record is of the variant the tag selected; the id transform throws whatever the other fields hold |
| `RecordRoute.Complete` | app/api/v1/record/route.ts:6-31 | every body whose schema fields spell a well-formed record validates to exactly that record |
| `RecordRoute.RoundTrip` | app/api/v1/record/route.ts:6-31 | a well-formed record, sent as JSON with its id in decimal, validates back to itself |
| `RecordRoute.UnknownTagRejected` | app/api/v1/record/route.ts:46-52 | an object whose `type` is none of the three literals is refused with a single issue at `type` |
| `RecordRoute.InvalidJsonRejected` | app/api/v1/record/route.ts:42-52 | a body that is not JSON is refused |
| `RecordRoute.BaseIssuesNameFailingFields` | app/api/v1/record/route.ts:6-15 | the shared fields report issues exactly for those of them that break their bounds |
| `RecordRoute.RejectionNamesFailingFields` | app/api/v1/record/route.ts:46-52 | with a known tag and no exception, the body is refused exactly when some field breaks its bound, and the issues name exactly those fields |
| `RecordRoute.OriginalIdDenoted` | app/api/v1/record/route.ts:22-27 | an original book's id given as decimal digits is stored as the number those digits denote |
| `RecordRoute.IgnoresOtherFields` | app/api/v1/record/route.ts:55-58 | a field outside the schemas, such as a `userId` in the body, does not change the outcome, so the stored owner can only come from the session |
| `RecordRoute.Log.Post` | app/api/v1/record/route.ts:33-70 | no session gives 401; a refused body gives 400; an exception or a store failure gives 500; in all these the table is unchanged. Otherwise 201, and the table is the old table plus the validated record owned by the session's user |

## Left out

- `lib/auth.ts` and `lib/email.ts` are not part of this model. The identity provider is reduced to an optional user id passed to `Post`, and email delivery is pure I/O.
- Prisma, `console.error` logging and the construction of `Response` objects are left out. Replies are the four status codes, and a table is a sequence of rows without the generated `id` column.
- Store failures are a boolean parameter of `Post`. The model assumes a failed `aggregate` or `create` writes nothing.
- The exception that escapes the record handler is assumed to be answered with 500, the framework's default. That answer comes from code outside this repository.
- Concurrency: two adds for the same user can read the same maximum and store the same `order`, because the source reads and then inserts without a transaction. The model runs calls one at a time.
- Column widths: `order` and `amount` are 32-bit and `originalBookId` is 64-bit in the store. Values outside those ranges fail at the store, which the model does not capture. The model's integers are unbounded.
- Timestamps are stored as the validated text. The store's conversion to its own date-time type is not modelled.
- `BigIntText.ToBigInt`: the `0x`, `0o` and `0b` forms, which `BigInt` accepts, are treated as text that makes it throw. The model covers white-space trimming, the empty text (0), a sign, and decimal digits.
- `Zod.StringOfLength`: lengths are counted in Unicode characters, whereas JavaScript counts UTF-16 code units. So a character outside the Basic Multilingual Plane counts once here and twice in the source.
- `Zod.IntInRange`: a failing number yields one issue here. Zod can report two for the same field, for example for an integer beyond the safe range such as `1e300`, which breaks both the safe-integer bound and the maximum. The model states which fields are named, not how many issues each has.
- The follow graph, the feed and its pagination, and record deletion are not part of this model.
