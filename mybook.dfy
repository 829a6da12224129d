/** The personal book list's POST route: the payload schema of one list
    entry (a published book by ISBN or a user's own book by title, each with
    a reading status) and the handler that appends a validated entry at the
    end of the signed-in user's list. */
module MyBookRoute {
  import opened Json
  import opened Zod
  import opened Http

  const PublishedTag: string := "PUBLISHED_BOOK"
  const OriginalTag: string := "ORIGINAL_BOOK"
  const IsbnLength: nat := 13
  const MaxTitleLength: nat := 50
  const StatusNames: seq<string> := ["NOT_STARTED", "IN_PROGRESS", "COMPLETED"]

  datatype ReadingStatus = NotStarted | InProgress | Completed

  function StatusName(st: ReadingStatus): (name: string)
    ensures name in StatusNames
  {
    match st
    case NotStarted => "NOT_STARTED"
    case InProgress => "IN_PROGRESS"
    case Completed => "COMPLETED"
  }

  function StatusNamed(name: string): (st: ReadingStatus)
    requires name in StatusNames
    ensures StatusName(st) == name
  {
    if name == "NOT_STARTED" then NotStarted
    else if name == "IN_PROGRESS" then InProgress
    else Completed
  }

  /** A validated list entry, one constructor per tag. */
  datatype Entry =
    | PublishedBook(status: ReadingStatus, isbn: string)
    | OriginalBook(status: ReadingStatus, title: string)

  datatype Variant = Published | Original

  function Tag(e: Entry): string
  {
    if e.PublishedBook? then PublishedTag else OriginalTag
  }

  /** The field bounds of the schema: a 13-character ISBN, a title of 1 to 50 characters. */
  predicate WellFormed(e: Entry)
  {
    match e
    case PublishedBook(_, isbn) => |isbn| == IsbnLength
    case OriginalBook(_, title) => 1 <= |title| <= MaxTitleLength
  }

  /** `body` is an object whose schema fields spell out the well-formed entry
      `e`; other fields may hold anything, as the schema strips them. */
  predicate Admits(body: Json, e: Entry)
  {
    WellFormed(e) &&
    Get(body, "type") == Some(JString(Tag(e))) &&
    Get(body, "status") == Some(JString(StatusName(e.status))) &&
    match e
    case PublishedBook(_, isbn) => Get(body, "isbn") == Some(JString(isbn))
    case OriginalBook(_, title) => Get(body, "title") == Some(JString(title))
  }

  /** The JSON body a client sends for `e`. */
  function Encode(e: Entry): Json
  {
    var fields := map["type" := JString(Tag(e)), "status" := JString(StatusName(e.status))];
    match e
    case PublishedBook(_, isbn) => Object(fields["isbn" := JString(isbn)])
    case OriginalBook(_, title) => Object(fields["title" := JString(title)])
  }

  /** `z.discriminatedUnion("type", [PublishedBook, OriginalBook]).safeParse(body)`. */
  function Validate(body: Json): (r: Outcome<Entry>)
    ensures r.Parsed? ==> Admits(body, r.value)
    ensures r.Rejected? ==> r.issues != []
    ensures !r.Threw?
  {
    if !body.Object? then Rejected([Issue("", InvalidType)])
    else if Get(body, "type") == Some(JString(PublishedTag)) then ParseOption(body, Published)
    else if Get(body, "type") == Some(JString(OriginalTag)) then ParseOption(body, Original)
    else Rejected([Issue("type", InvalidUnion)])
  }

  /** The option schema the tag selected, field by field in schema order. */
  function ParseOption(body: Json, variant: Variant): (r: Outcome<Entry>)
    ensures r.Parsed? ==> r.value.PublishedBook? == (variant == Published)
  {
    var status := Enum(Get(body, "status"), "status", StatusNames);
    var book := match variant
      case Published => StringOfLength(Get(body, "isbn"), "isbn", IsbnLength, IsbnLength)
      case Original => StringOfLength(Get(body, "title"), "title", 1, MaxTitleLength);
    var issues := IssuesOf(status) + IssuesOf(book);
    if issues != [] then Rejected(issues)
    else
      var st := StatusNamed(status.value);
      match variant
      case Published => Parsed(PublishedBook(st, book.value))
      case Original => Parsed(OriginalBook(st, book.value))
  }

  /** The fields of `body` that break the schema of the variant its tag selects. */
  function FailingFields(body: Json, variant: Variant): set<string>
  {
    var status := Get(body, "status");
    var statusOk := status.Some? && status.value.JString? && status.value.s in StatusNames;
    var bookOk := match variant
      case Published => var isbn := Get(body, "isbn"); isbn.Some? && isbn.value.JString? && |isbn.value.s| == IsbnLength
      case Original => var title := Get(body, "title"); title.Some? && title.value.JString? && 1 <= |title.value.s| <= MaxTitleLength;
    var bookField := if variant == Published then "isbn" else "title";
    (if statusOk then {} else {"status"}) + (if bookOk then {} else {bookField})
  }

  /** Validation succeeds on every body that admits an entry, with that entry;
      with Validate's own contract, Validate(body) == Parsed(e) exactly when
      Admits(body, e). */
  lemma Complete(body: Json, e: Entry)
    requires Admits(body, e)
    ensures Validate(body) == Parsed(e)
  {
    assert StatusNamed(StatusName(e.status)) == e.status;
  }

  /** A well-formed entry survives encoding and validation unchanged. */
  lemma RoundTrip(e: Entry)
    requires WellFormed(e)
    ensures Validate(Encode(e)) == Parsed(e)
  {
    assert Admits(Encode(e), e);
    Complete(Encode(e), e);
  }

  /** A tag other than the two literals, or none, is refused with one issue at `type`. */
  lemma UnknownTagRejected(body: Json)
    requires body.Object?
    requires Get(body, "type") != Some(JString(PublishedTag)) && Get(body, "type") != Some(JString(OriginalTag))
    ensures Validate(body) == Rejected([Issue("type", InvalidUnion)])
  {
  }

  /** Text that is not JSON ends as a refused body too. */
  lemma InvalidJsonRejected()
    ensures Validate(Received(InvalidJson)).Rejected?
  {
    UnknownTagRejected(CaughtResponse);
  }

  /** A refused body with a known tag names exactly the failing fields. */
  lemma RejectionNamesFailingFields(body: Json, variant: Variant)
    requires body.Object?
    requires Get(body, "type") == Some(JString(if variant == Published then PublishedTag else OriginalTag))
    ensures Validate(body).Rejected? <==> FailingFields(body, variant) != {}
    ensures Validate(body).Rejected? ==> Paths(Validate(body).issues) == FailingFields(body, variant)
  {
    var status := Enum(Get(body, "status"), "status", StatusNames);
    var book := match variant
      case Published => StringOfLength(Get(body, "isbn"), "isbn", IsbnLength, IsbnLength)
      case Original => StringOfLength(Get(body, "title"), "title", 1, MaxTitleLength);
    PathsAppend(IssuesOf(status), IssuesOf(book));
    PathsOfCheck(status, "status");
    PathsOfCheck(book, if variant == Published then "isbn" else "title");
    assert Validate(body) == ParseOption(body, variant);
  }

  // ---------------------------------------------------------------------
  // The store of list entries and the order assigned to a new entry

  /** A stored row: the owner, the position in the owner's list and the entry. */
  datatype Stored = Stored(userId: UserId, order: int, entry: Entry)

  /** The rows of user `u`, in store order. */
  function EntriesOf(s: seq<Stored>, u: UserId): (r: seq<Stored>)
    ensures |r| <= |s|
    ensures forall i :: 0 <= i < |r| ==> r[i].userId == u && r[i] in s
    decreases |s|
  {
    if s == [] then []
    else
      var init, last := s[..|s| - 1], s[|s| - 1];
      assert s == init + [last];
      EntriesOf(init, u) + (if last.userId == u then [last] else [])
  }

  /** The selection keeps store order: selecting from two consecutive parts
      of the store is selecting from each and joining the results. With the
      one-row case this determines `EntriesOf` completely. */
  lemma {:induction false} EntriesOfConcat(a: seq<Stored>, b: seq<Stored>, u: UserId)
    ensures EntriesOf(a + b, u) == EntriesOf(a, u) + EntriesOf(b, u)
    decreases |b|
  {
    if b != [] {
      var ab := a + b;
      var b', last := b[..|b| - 1], b[|b| - 1];
      assert ab[..|ab| - 1] == a + b' && ab[|ab| - 1] == last;
      assert b[..|b| - 1] == b';
      EntriesOfConcat(a, b', u);
    } else {
      assert a + b == a;
    }
  }

  /** No row of `u` is left out of the selection. */
  lemma {:induction false} EntriesOfComplete(s: seq<Stored>, u: UserId)
    ensures forall i :: 0 <= i < |s| && s[i].userId == u ==> s[i] in EntriesOf(s, u)
    decreases |s|
  {
    if s != [] {
      var init := s[..|s| - 1];
      EntriesOfComplete(init, u);
      forall i | 0 <= i < |s| && s[i].userId == u ensures s[i] in EntriesOf(s, u) {
        if i < |s| - 1 {
          assert s[i] == init[i];
        }
      }
    }
  }

  /** One row is selected exactly when it is `u`'s. */
  lemma EntriesOfOne(x: Stored, u: UserId)
    ensures EntriesOf([x], u) == if x.userId == u then [x] else []
  {
    assert [x][..0] == [];
  }

  function Orders(rows: seq<Stored>): seq<int>
  {
    seq(|rows|, i requires 0 <= i < |rows| => rows[i].order)
  }

  /** Every row's order appears in the order column. */
  lemma OrdersListed(rows: seq<Stored>)
    ensures forall x :: x in rows ==> x.order in Orders(rows)
  {
    forall x | x in rows ensures x.order in Orders(rows) {
      var j :| 0 <= j < |rows| && rows[j] == x;
      assert Orders(rows)[j] == x.order;
    }
  }

  /** The largest number of `xs`, None for no numbers. */
  function MaxOf(xs: seq<int>): (m: Option<int>)
    ensures m.None? <==> xs == []
    ensures m.Some? ==> m.value in xs && forall x :: x in xs ==> x <= m.value
    decreases |xs|
  {
    if xs == [] then None
    else
      var init, last := xs[..|xs| - 1], xs[|xs| - 1];
      assert xs == init + [last];
      Larger(MaxOf(init), last)
  }

  /** The larger of a running maximum and one more number. */
  function Larger(m: Option<int>, x: int): Option<int>
  {
    match m
    case None => Some(x)
    case Some(y) => Some(if x > y then x else y)
  }

  /** The store's `_max.order` over user `u`'s rows: None (null) when `u` has none. */
  function UserMax(s: seq<Stored>, u: UserId): Option<int>
  {
    MaxOf(Orders(EntriesOf(s, u)))
  }

  /** The running maximum after one more row. */
  lemma UserMaxAppend(s: seq<Stored>, row: Stored, u: UserId)
    ensures UserMax(s + [row], u) == if row.userId == u then Larger(UserMax(s, u), row.order) else UserMax(s, u)
  {
    var t := s + [row];
    assert t[..|t| - 1] == s;
    OrdersAppend(EntriesOf(s, u), row);
    if row.userId == u {
      var xs := Orders(EntriesOf(t, u));
      assert EntriesOf(t, u) == EntriesOf(s, u) + [row];
      assert xs == Orders(EntriesOf(s, u)) + [row.order];
      assert xs[..|xs| - 1] == Orders(EntriesOf(s, u)) && xs[|xs| - 1] == row.order;
      assert MaxOf(xs) == Larger(MaxOf(Orders(EntriesOf(s, u))), row.order);
    } else {
      assert EntriesOf(t, u) == EntriesOf(s, u);
    }
  }

  /** The order a new entry of `u` gets: one above all of `u`'s orders and
      just above the largest of them, or 1 when `u` has no entry yet. */
  function NextOrder(s: seq<Stored>, u: UserId): (n: int)
    ensures forall x :: x in Orders(EntriesOf(s, u)) ==> x < n
    ensures EntriesOf(s, u) == [] ==> n == 1
    ensures EntriesOf(s, u) != [] ==> n - 1 in Orders(EntriesOf(s, u))
    ensures forall i :: 0 <= i < |s| && s[i].userId == u ==> s[i].order < n
  {
    EntriesOfComplete(s, u);
    OrdersListed(EntriesOf(s, u));
    match UserMax(s, u)
    case None => 1
    case Some(m) => m + 1
  }

  /** The store after a successful add of `e` for `u`. */
  function Append(s: seq<Stored>, u: UserId, e: Entry): (t: seq<Stored>)
    ensures EntriesOf(t, u) == EntriesOf(s, u) + [Stored(u, NextOrder(s, u), e)]
    ensures forall v :: v != u ==> EntriesOf(t, v) == EntriesOf(s, v)
  {
    var t := s + [Stored(u, NextOrder(s, u), e)];
    assert t[..|t| - 1] == s;
    t
  }

  function Iota(n: nat): seq<int>
  {
    seq(n, i => i + 1)
  }

  /** Every user's orders, in store order, are exactly 1, 2, ..., N. */
  ghost predicate Dense(s: seq<Stored>)
  {
    forall u :: Orders(EntriesOf(s, u)) == Iota(|EntriesOf(s, u)|)
  }

  lemma OrdersAppend(rows: seq<Stored>, row: Stored)
    ensures Orders(rows + [row]) == Orders(rows) + [row.order]
  {
  }

  /** In a dense store the next order of `u` is one more than the number of `u`'s entries. */
  lemma DenseNext(s: seq<Stored>, u: UserId)
    requires Dense(s)
    ensures NextOrder(s, u) == |EntriesOf(s, u)| + 1
  {
    var n := |EntriesOf(s, u)|;
    var xs := Orders(EntriesOf(s, u));
    assert xs == Iota(n);
    if n > 0 {
      assert xs[n - 1] == n;
      assert n in xs;
      var k :| 0 <= k < n && xs[k] == NextOrder(s, u) - 1;
    }
  }

  /** A successful add keeps every user's orders exactly 1..N. */
  lemma {:induction false} DensePreserved(s: seq<Stored>, u: UserId, e: Entry)
    requires Dense(s)
    ensures Dense(Append(s, u, e))
  {
    var t := Append(s, u, e);
    var n := |EntriesOf(s, u)|;
    DenseNext(s, u);
    var row := Stored(u, n + 1, e);
    assert EntriesOf(t, u) == EntriesOf(s, u) + [row];
    OrdersAppend(EntriesOf(s, u), row);
    assert Iota(n) + [n + 1] == Iota(n + 1);
    assert Orders(EntriesOf(t, u)) == Iota(|EntriesOf(t, u)|);
    forall v ensures Orders(EntriesOf(t, v)) == Iota(|EntriesOf(t, v)|) {
      if v != u {
        assert EntriesOf(t, v) == EntriesOf(s, v);
      }
    }
  }

  /** The store after `u` adds `es` one after the other. */
  function AddAll(s: seq<Stored>, u: UserId, es: seq<Entry>): seq<Stored>
    decreases |es|
  {
    if es == [] then s else Append(AddAll(s, u, es[..|es| - 1]), u, es[|es| - 1])
  }

  /** N sequential adds by one user extend that user's orders by
      |before|+1 .. |before|+N and leave every other user's rows alone. */
  lemma {:induction false} SequentialAdds(s: seq<Stored>, u: UserId, es: seq<Entry>)
    requires Dense(s)
    ensures Dense(AddAll(s, u, es))
    ensures |EntriesOf(AddAll(s, u, es), u)| == |EntriesOf(s, u)| + |es|
    ensures Orders(EntriesOf(AddAll(s, u, es), u)) == Iota(|EntriesOf(s, u)| + |es|)
    ensures forall v :: v != u ==> EntriesOf(AddAll(s, u, es), v) == EntriesOf(s, v)
    decreases |es|
  {
    if es != [] {
      var init := es[..|es| - 1];
      SequentialAdds(s, u, init);
      DensePreserved(AddAll(s, u, init), u, es[|es| - 1]);
    }
  }

  /** From an empty store, N adds by one user give that user the orders 1..N. */
  lemma FromEmpty(u: UserId, es: seq<Entry>)
    ensures Orders(EntriesOf(AddAll([], u, es), u)) == Iota(|es|)
  {
    SequentialAdds([], u, es);
  }

  /** The `myBook` table. */
  class Shelf {
    var entries: seq<Stored>

    constructor ()
      ensures entries == []
    {
      entries := [];
    }

    /** `prisma.myBook.aggregate({ _max: { order: true }, where: { userId } })`. */
    method MaxOrder(userId: UserId) returns (max: Option<int>)
      ensures max == UserMax(entries, userId)
    {
      max := None;
      var i := 0;
      while i < |entries|
        invariant 0 <= i <= |entries|
        invariant max == UserMax(entries[..i], userId)
      {
        var row := entries[i];
        assert entries[..i + 1] == entries[..i] + [row];
        UserMaxAppend(entries[..i], row, userId);
        if row.userId == userId && (max.None? || row.order > max.value) {
          max := Some(row.order);
        }
        i := i + 1;
      }
      assert entries[..i] == entries;
    }

    /** POST: authenticate, validate, then give the entry the next order and
        store it. Every refusal returns before the store is touched. */
    method Post(session: Option<UserId>, body: RequestBody, storeAvailable: bool) returns (reply: Reply)
      modifies this
      ensures session.None? ==> reply == Unauthorized
      ensures session.Some? && !Validate(Received(body)).Parsed? ==> reply == BadRequest
      ensures session.Some? && Validate(Received(body)).Parsed? ==>
                reply == if storeAvailable then Created else ServerError
      ensures reply == Created ==>
                session.Some? && Validate(Received(body)).Parsed? &&
                entries == Append(old(entries), session.value, Validate(Received(body)).value)
      ensures reply != Created ==> entries == old(entries)
      ensures Dense(old(entries)) ==> Dense(entries)
    {
      if session.None? {
        return Unauthorized;
      }
      var userId := session.value;
      var parsedBody := Validate(Received(body));
      if !parsedBody.Parsed? {
        return BadRequest;
      }
      if !storeAvailable {
        return ServerError;
      }
      var maxOrder := MaxOrder(userId);
      if maxOrder.None? {
        maxOrder := Some(0);
      }
      entries := entries + [Stored(userId, maxOrder.value + 1, parsedBody.value)];
      if Dense(old(entries)) {
        DensePreserved(old(entries), userId, parsedBody.value);
      }
      reply := Created;
    }
  }
}
