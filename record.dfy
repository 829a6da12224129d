/** The reading-record POST route: the payload schema of one record (minutes
    read, an optional comment, two timestamps, and a book reference of one of
    three kinds) and the handler that stores a validated record under the
    signed-in user. */
module RecordRoute {
  import opened Json
  import opened Zod
  import opened Http
  import opened BigIntText
  import IsoDateTime

  const PublishedTag: string := "PUBLISHED_BOOK"
  const OriginalTag: string := "ORIGINAL_BOOK"
  const NoBookTag: string := "NO_BOOK"
  const MinMinutes: int := 1
  const MaxMinutes: int := 60 * 24
  const IsbnLength: nat := 13

  /** A validated record, one constructor per tag. */
  datatype Record =
    | PublishedBook(amount: int, comment: Option<string>, dateUTC: string, dateLocal: string, isbn: string)
    | OriginalBook(amount: int, comment: Option<string>, dateUTC: string, dateLocal: string, originalBookId: int)
    | NoBook(amount: int, comment: Option<string>, dateUTC: string, dateLocal: string)

  datatype Variant = Published | Original | WithoutBook

  function Tag(rec: Record): string
  {
    match rec
    case PublishedBook(_, _, _, _, _) => PublishedTag
    case OriginalBook(_, _, _, _, _) => OriginalTag
    case NoBook(_, _, _, _) => NoBookTag
  }

  /** The field bounds of the schema: 1 to 1440 minutes, two ISO 8601 UTC
      timestamps, and a 13-character ISBN for a published book. */
  predicate WellFormed(rec: Record)
  {
    MinMinutes <= rec.amount <= MaxMinutes &&
    IsoDateTime.IsDateTime(rec.dateUTC) && IsoDateTime.IsDateTime(rec.dateLocal) &&
    (rec.PublishedBook? ==> |rec.isbn| == IsbnLength)
  }

  /** The JSON body a client sends for `rec`, the id written in decimal. */
  function Encode(rec: Record): Json
  {
    var base := map["type" := JString(Tag(rec)), "amount" := JInt(rec.amount),
                     "dateUTC" := JString(rec.dateUTC), "dateLocal" := JString(rec.dateLocal)];
    var withComment := match rec.comment
      case None => base
      case Some(c) => base["comment" := JString(c)];
    match rec
    case PublishedBook(_, _, _, _, isbn) => Object(withComment["isbn" := JString(isbn)])
    case OriginalBook(_, _, _, _, id) => Object(withComment["originalBookId" := JString(IntText(id))])
    case NoBook(_, _, _, _) => Object(withComment)
  }

  /** The fields the schemas read; every other field of the body is stripped. */
  datatype View = View(tag: Option<Value>, amount: Option<Value>, comment: Option<Value>,
                       dateUTC: Option<Value>, dateLocal: Option<Value>,
                       isbn: Option<Value>, originalBookId: Option<Value>)

  function ViewOf(body: Json): View
  {
    View(Get(body, "type"), Get(body, "amount"), Get(body, "comment"), Get(body, "dateUTC"),
         Get(body, "dateLocal"), Get(body, "isbn"), Get(body, "originalBookId"))
  }

  /** The schema fields in `view` spell out the well-formed record `rec`:
      the comment field is absent exactly when `rec` has none, and for an
      original book the id field is text that BigInt converts to the id. */
  predicate Matches(view: View, rec: Record)
  {
    WellFormed(rec) &&
    view.amount == Some(JInt(rec.amount)) &&
    view.comment == (match rec.comment case None => None case Some(c) => Some(JString(c))) &&
    view.dateUTC == Some(JString(rec.dateUTC)) &&
    view.dateLocal == Some(JString(rec.dateLocal)) &&
    match rec
    case PublishedBook(_, _, _, _, isbn) => view.isbn == Some(JString(isbn))
    case OriginalBook(_, _, _, _, id) =>
      view.originalBookId.Some? && view.originalBookId.value.JString? &&
      ToBigInt(view.originalBookId.value.s) == Some(id)
    case NoBook(_, _, _, _) => true
  }

  /** `body` is an object tagged with `rec`'s tag whose schema fields spell
      out `rec`; other fields may hold anything, as the schema strips them. */
  predicate Admits(body: Json, rec: Record)
  {
    Get(body, "type") == Some(JString(Tag(rec))) && Matches(ViewOf(body), rec)
  }

  /** The original-book id field holds text the modelled conversion rejects
      (the hexadecimal, octal and binary forms included). */
  predicate UnconvertibleId(view: View)
  {
    view.originalBookId.Some? && view.originalBookId.value.JString? &&
    ToBigInt(view.originalBookId.value.s).None?
  }

  /** `z.discriminatedUnion("type", [PublishedBook, OriginalBook, NoBook]).safeParse(body)`. */
  function Validate(body: Json): (r: Outcome<Record>)
    ensures r.Parsed? ==> Admits(body, r.value)
    ensures r.Rejected? ==> r.issues != []
    ensures r.Threw? <==> body.Object? && Get(body, "type") == Some(JString(OriginalTag)) && UnconvertibleId(ViewOf(body))
  {
    var view := ViewOf(body);
    if !body.Object? then Rejected([Issue("", InvalidType)])
    else if view.tag == Some(JString(PublishedTag)) then ParseOption(view, Published)
    else if view.tag == Some(JString(OriginalTag)) then ParseOption(view, Original)
    else if view.tag == Some(JString(NoBookTag)) then ParseOption(view, WithoutBook)
    else Rejected([Issue("type", InvalidUnion)])
  }

  function AmountCheck(view: View): Check<int>
  {
    IntInRange(view.amount, "amount", MinMinutes, MaxMinutes)
  }

  function CommentCheck(view: View): Check<Option<string>>
  {
    OptionalString(view.comment, "comment")
  }

  function DateUTCCheck(view: View): Check<string>
  {
    DateTime(view.dateUTC, "dateUTC")
  }

  function DateLocalCheck(view: View): Check<string>
  {
    DateTime(view.dateLocal, "dateLocal")
  }

  function IsbnCheck(view: View): Check<string>
  {
    StringOfLength(view.isbn, "isbn", IsbnLength, IsbnLength)
  }

  function IdTextCheck(view: View): Check<string>
  {
    AnyString(view.originalBookId, "originalBookId")
  }

  /** The issues of the fields every variant shares, in schema order. */
  function BaseIssues(view: View): seq<Issue>
  {
    IssuesOf(AmountCheck(view)) + IssuesOf(CommentCheck(view)) +
    IssuesOf(DateUTCCheck(view)) + IssuesOf(DateLocalCheck(view))
  }

  /** The option schema the tag selected, field by field in schema order. The
      id transform runs as soon as its own field is a string, whatever the
      other fields hold, and its exception ends the parse. */
  function ParseOption(view: View, variant: Variant): (r: Outcome<Record>)
    ensures r.Threw? <==> variant == Original && UnconvertibleId(view)
    ensures r.Parsed? ==> r.value.PublishedBook? == (variant == Published)
    ensures r.Parsed? ==> r.value.OriginalBook? == (variant == Original)
    ensures r.Parsed? ==> Matches(view, r.value)
  {
    var amount, comment := AmountCheck(view), CommentCheck(view);
    var dateUTC, dateLocal := DateUTCCheck(view), DateLocalCheck(view);
    var base := BaseIssues(view);
    match variant
    case WithoutBook =>
      if base != [] then Rejected(base)
      else Parsed(NoBook(amount.value, comment.value, dateUTC.value, dateLocal.value))
    case Published =>
      var isbn := IsbnCheck(view);
      var issues := base + IssuesOf(isbn);
      if issues != [] then Rejected(issues)
      else Parsed(PublishedBook(amount.value, comment.value, dateUTC.value, dateLocal.value, isbn.value))
    case Original =>
      var idText := IdTextCheck(view);
      if idText.Pass? && ToBigInt(idText.value).None? then Threw
      else
        var issues := base + IssuesOf(idText);
        if issues != [] then Rejected(issues)
        else Parsed(OriginalBook(amount.value, comment.value, dateUTC.value, dateLocal.value, ToBigInt(idText.value).value))
  }

  /** The shared fields of `view` that break the schema. */
  function BaseFailing(view: View): set<string>
  {
    var amount, comment, dateUTC, dateLocal := view.amount, view.comment, view.dateUTC, view.dateLocal;
    (if amount.Some? && amount.value.JInt? && MinMinutes <= amount.value.n <= MaxMinutes then {} else {"amount"}) +
    (if comment.None? || comment.value.JString? then {} else {"comment"}) +
    (if dateUTC.Some? && dateUTC.value.JString? && IsoDateTime.IsDateTime(dateUTC.value.s) then {} else {"dateUTC"}) +
    (if dateLocal.Some? && dateLocal.value.JString? && IsoDateTime.IsDateTime(dateLocal.value.s) then {} else {"dateLocal"})
  }

  /** The fields of `body` that break the schema of the variant its tag selects. */
  function FailingFields(body: Json, variant: Variant): set<string>
  {
    var view := ViewOf(body);
    BaseFailing(view) +
    match variant
    case WithoutBook => {}
    case Published =>
      var isbn := view.isbn;
      if isbn.Some? && isbn.value.JString? && |isbn.value.s| == IsbnLength then {} else {"isbn"}
    case Original =>
      var id := view.originalBookId;
      if id.Some? && id.value.JString? then {} else {"originalBookId"}
  }

  function TagOf(variant: Variant): string
  {
    match variant
    case Published => PublishedTag
    case Original => OriginalTag
    case WithoutBook => NoBookTag
  }

  /** Validation succeeds on every body that admits a record, with that
      record; with Validate's own contract, Validate(body) == Parsed(rec)
      exactly when Admits(body, rec). */
  lemma Complete(body: Json, rec: Record)
    requires Admits(body, rec)
    ensures Validate(body) == Parsed(rec)
  {
    var view := ViewOf(body);
    SharedFieldsPass(view, rec);
    match rec
    case NoBook(_, _, _, _) =>
      assert Validate(body) == ParseOption(view, WithoutBook);
    case PublishedBook(_, _, _, _, isbn) =>
      assert IsbnCheck(view) == Pass(isbn);
      assert Validate(body) == ParseOption(view, Published);
    case OriginalBook(_, _, _, _, _) =>
      assert IdTextCheck(view) == Pass(view.originalBookId.value.s);
      assert Validate(body) == ParseOption(view, Original);
  }

  lemma SharedFieldsPass(view: View, rec: Record)
    requires Matches(view, rec)
    ensures AmountCheck(view) == Pass(rec.amount) && CommentCheck(view) == Pass(rec.comment)
    ensures DateUTCCheck(view) == Pass(rec.dateUTC) && DateLocalCheck(view) == Pass(rec.dateLocal)
    ensures BaseIssues(view) == []
  {
    assert view.amount == Some(JInt(rec.amount));
    assert AmountCheck(view) == Pass(rec.amount);
    match rec.comment {
      case None => assert view.comment == None;
      case Some(c) => assert view.comment == Some(JString(c));
    }
    assert CommentCheck(view) == Pass(rec.comment);
    assert view.dateUTC == Some(JString(rec.dateUTC)) && view.dateLocal == Some(JString(rec.dateLocal));
    assert DateUTCCheck(view) == Pass(rec.dateUTC);
    assert DateLocalCheck(view) == Pass(rec.dateLocal);
  }

  /** The encoding of a well-formed record admits it. */
  lemma EncodeAdmits(rec: Record)
    requires WellFormed(rec)
    ensures Admits(Encode(rec), rec)
  {
    var fields := Encode(rec).fields;
    assert "type" in fields && fields["type"] == JString(Tag(rec));
    assert "amount" in fields && fields["amount"] == JInt(rec.amount);
    assert "dateUTC" in fields && fields["dateUTC"] == JString(rec.dateUTC);
    assert "dateLocal" in fields && fields["dateLocal"] == JString(rec.dateLocal);
    match rec.comment {
      case None => assert "comment" !in fields;
      case Some(c) => assert "comment" in fields && fields["comment"] == JString(c);
    }
    match rec {
      case PublishedBook(_, _, _, _, isbn) =>
        assert "isbn" in fields && fields["isbn"] == JString(isbn);
      case OriginalBook(_, _, _, _, id) =>
        IntTextRoundTrip(id);
        assert "originalBookId" in fields && fields["originalBookId"] == JString(IntText(id));
      case NoBook(_, _, _, _) =>
    }
  }

  /** A well-formed record survives encoding and validation unchanged. */
  lemma RoundTrip(rec: Record)
    requires WellFormed(rec)
    ensures Validate(Encode(rec)) == Parsed(rec)
  {
    EncodeAdmits(rec);
    Complete(Encode(rec), rec);
  }

  /** A tag other than the three literals, or none, is refused with one issue at `type`. */
  lemma UnknownTagRejected(body: Json)
    requires body.Object?
    requires Get(body, "type") !in {Some(JString(PublishedTag)), Some(JString(OriginalTag)), Some(JString(NoBookTag))}
    ensures Validate(body) == Rejected([Issue("type", InvalidUnion)])
  {
  }

  /** Text that is not JSON ends as a refused body too. */
  lemma InvalidJsonRejected()
    ensures Validate(Received(InvalidJson)).Rejected?
  {
    UnknownTagRejected(CaughtResponse);
  }

  /** The shared fields contribute their own names, exactly when they fail. */
  lemma {:induction false} BaseIssuesNameFailingFields(view: View)
    ensures Paths(BaseIssues(view)) == BaseFailing(view)
    ensures BaseIssues(view) == [] <==> BaseFailing(view) == {}
  {
    var amount, comment := IssuesOf(AmountCheck(view)), IssuesOf(CommentCheck(view));
    var dateUTC, dateLocal := IssuesOf(DateUTCCheck(view)), IssuesOf(DateLocalCheck(view));
    PathsOfCheck(AmountCheck(view), "amount");
    PathsOfCheck(CommentCheck(view), "comment");
    PathsOfCheck(DateUTCCheck(view), "dateUTC");
    PathsOfCheck(DateLocalCheck(view), "dateLocal");
    PathsAppend(amount, comment);
    PathsAppend(amount + comment, dateUTC);
    PathsAppend(amount + comment + dateUTC, dateLocal);
  }

  /** A refused body with a known tag names exactly the failing fields. */
  lemma {:induction false} RejectionNamesFailingFields(body: Json, variant: Variant)
    requires body.Object? && Get(body, "type") == Some(JString(TagOf(variant)))
    requires !Validate(body).Threw?
    ensures Validate(body).Rejected? <==> FailingFields(body, variant) != {}
    ensures Validate(body).Rejected? ==> Paths(Validate(body).issues) == FailingFields(body, variant)
  {
    var view := ViewOf(body);
    BaseIssuesNameFailingFields(view);
    assert Validate(body) == ParseOption(view, variant);
    match variant
    case WithoutBook =>
    case Published =>
      PathsOfCheck(IsbnCheck(view), "isbn");
      PathsAppend(BaseIssues(view), IssuesOf(IsbnCheck(view)));
    case Original =>
      PathsOfCheck(IdTextCheck(view), "originalBookId");
      PathsAppend(BaseIssues(view), IssuesOf(IdTextCheck(view)));
  }

  /** For an original book given as a run of decimal digits, the stored id is
      the number those digits denote. */
  lemma OriginalIdDenoted(body: Json)
    requires Validate(body).Parsed? && Validate(body).value.OriginalBook?
    requires Get(body, "originalBookId").Some? && Get(body, "originalBookId").value.JString?
    requires var text := Get(body, "originalBookId").value.s; text != [] && AllDigits(text)
    ensures Validate(body).value.originalBookId == DecimalValue(Get(body, "originalBookId").value.s)
  {
    DigitsConvert(Get(body, "originalBookId").value.s);
  }

  /** The fields the record schemas read. */
  const SchemaKeys: set<string> := {"type", "amount", "comment", "dateUTC", "dateLocal", "isbn", "originalBookId"}

  /** A field outside the schemas, such as a `userId` sent in the body, has no
      effect on the outcome. */
  lemma IgnoresOtherFields(fields: map<string, Value>, key: string, v: Value)
    requires key !in SchemaKeys
    ensures Validate(Object(fields[key := v])) == Validate(Object(fields))
  {
    assert ViewOf(Object(fields[key := v])) == ViewOf(Object(fields));
  }

  // ---------------------------------------------------------------------
  // The store of records

  /** A stored row: the owner and the validated record. */
  datatype Stored = Stored(userId: UserId, record: Record)

  /** The `record` table. */
  class Log {
    var records: seq<Stored>

    constructor ()
      ensures records == []
    {
      records := [];
    }

    /** POST: authenticate, validate, then store the record under the
        session's user. Every refusal returns before the store is touched,
        and so does an exception thrown while validating. */
    method Post(session: Option<UserId>, body: RequestBody, storeAvailable: bool) returns (reply: Reply)
      modifies this
      ensures session.None? ==> reply == Unauthorized
      ensures session.Some? && Validate(Received(body)).Rejected? ==> reply == BadRequest
      ensures session.Some? && Validate(Received(body)).Threw? ==> reply == ServerError
      ensures session.Some? && Validate(Received(body)).Parsed? ==>
                reply == if storeAvailable then Created else ServerError
      ensures reply == Created ==>
                session.Some? && Validate(Received(body)).Parsed? &&
                records == old(records) + [Stored(session.value, Validate(Received(body)).value)]
      ensures reply != Created ==> records == old(records)
    {
      if session.None? {
        return Unauthorized;
      }
      var parsedBody := Validate(Received(body));
      if parsedBody.Threw? {
        return ServerError;
      }
      if parsedBody.Rejected? {
        return BadRequest;
      }
      if !storeAvailable {
        return ServerError;
      }
      records := records + [Stored(session.value, parsedBody.value)];
      reply := Created;
    }
  }
}
