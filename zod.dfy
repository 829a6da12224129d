/** The schema primitives the two routes build their payload schemas from,
    with the outcome `safeParse` reports. A field schema either passes with
    the parsed value or fails with issues located at that field; an object
    schema collects the issues of all its fields. */
module Zod {
  import opened Json
  import IsoDateTime

  datatype Code = InvalidType | InvalidValue | InvalidUnion | TooSmall | TooBig | InvalidFormat

  /** One violated constraint: the field it concerns ("" for the body itself) and why. */
  datatype Issue = Issue(path: string, code: Code)

  /** The outcome of one field schema. */
  datatype Check<T> = Pass(value: T) | Fail(issues: seq<Issue>)

  /** The outcome of `safeParse` on a whole body: the parsed value, the list
      of issues, or an exception thrown by a transform, which `safeParse`
      does not catch. */
  datatype Outcome<T> = Parsed(value: T) | Rejected(issues: seq<Issue>) | Threw

  function IssuesOf<T>(c: Check<T>): seq<Issue>
  {
    if c.Pass? then [] else c.issues
  }

  /** Every issue of a failing field is located at that field, and there is one at least. */
  predicate Located(issues: seq<Issue>, path: string)
  {
    issues != [] && forall i :: 0 <= i < |issues| ==> issues[i].path == path
  }

  /** The fields a list of issues names. */
  function Paths(issues: seq<Issue>): set<string>
  {
    set i | 0 <= i < |issues| :: issues[i].path
  }

  /** `z.string().min(lo).max(hi)`, and `z.string().length(n)` as lo == hi == n. */
  function StringOfLength(v: Option<Value>, path: string, lo: nat, hi: nat): (r: Check<string>)
    ensures r.Pass? <==> v.Some? && v.value.JString? && lo <= |v.value.s| <= hi
    ensures r.Pass? ==> v == Some(JString(r.value))
    ensures r.Fail? ==> Located(r.issues, path)
  {
    match v
    case Some(JString(s)) =>
      if |s| < lo then Fail([Issue(path, TooSmall)])
      else if |s| > hi then Fail([Issue(path, TooBig)])
      else Pass(s)
    case _ => Fail([Issue(path, InvalidType)])
  }

  /** `z.string()`: any string. */
  function AnyString(v: Option<Value>, path: string): (r: Check<string>)
    ensures r.Pass? <==> v.Some? && v.value.JString?
    ensures r.Pass? ==> v == Some(JString(r.value))
    ensures r.Fail? ==> Located(r.issues, path)
  {
    match v
    case Some(JString(s)) => Pass(s)
    case _ => Fail([Issue(path, InvalidType)])
  }

  /** `z.optional(z.string())`: an absent field or a string. */
  function OptionalString(v: Option<Value>, path: string): (r: Check<Option<string>>)
    ensures r.Pass? <==> v.None? || v.value.JString?
    ensures r.Pass? ==> r.value.None? == v.None?
    ensures r.Pass? && r.value.Some? ==> v == Some(JString(r.value.value))
    ensures r.Fail? ==> Located(r.issues, path)
  {
    match v
    case None => Pass(None)
    case Some(JString(s)) => Pass(Some(s))
    case _ => Fail([Issue(path, InvalidType)])
  }

  /** `z.number().int().min(lo).max(hi)`: an integral number in [lo, hi]. */
  function IntInRange(v: Option<Value>, path: string, lo: int, hi: int): (r: Check<int>)
    ensures r.Pass? <==> v.Some? && v.value.JInt? && lo <= v.value.n <= hi
    ensures r.Pass? ==> v == Some(JInt(r.value))
    ensures r.Fail? ==> Located(r.issues, path)
  {
    match v
    case Some(JInt(n)) =>
      if n < lo then Fail([Issue(path, TooSmall)])
      else if n > hi then Fail([Issue(path, TooBig)])
      else Pass(n)
    case _ => Fail([Issue(path, InvalidType)])
  }

  /** `z.enum(options)`: a string among the options. */
  function Enum(v: Option<Value>, path: string, options: seq<string>): (r: Check<string>)
    ensures r.Pass? <==> v.Some? && v.value.JString? && v.value.s in options
    ensures r.Pass? ==> v == Some(JString(r.value)) && r.value in options
    ensures r.Fail? ==> Located(r.issues, path)
  {
    match v
    case Some(JString(s)) => if s in options then Pass(s) else Fail([Issue(path, InvalidValue)])
    case _ => Fail([Issue(path, InvalidValue)])
  }

  /** `z.iso.datetime()`: a string in the ISO 8601 UTC form. */
  function DateTime(v: Option<Value>, path: string): (r: Check<string>)
    ensures r.Pass? <==> v.Some? && v.value.JString? && IsoDateTime.IsDateTime(v.value.s)
    ensures r.Pass? ==> v == Some(JString(r.value))
    ensures r.Fail? ==> Located(r.issues, path)
  {
    match v
    case Some(JString(s)) => if IsoDateTime.IsDateTime(s) then Pass(s) else Fail([Issue(path, InvalidFormat)])
    case _ => Fail([Issue(path, InvalidType)])
  }

  /** The fields named by concatenated issue lists. */
  lemma PathsAppend(a: seq<Issue>, b: seq<Issue>)
    ensures Paths(a + b) == Paths(a) + Paths(b)
  {
    var ab := a + b;
    forall p | p in Paths(ab) ensures p in Paths(a) + Paths(b) {
      var i :| 0 <= i < |ab| && ab[i].path == p;
      if i < |a| { assert a[i] == ab[i]; } else { assert b[i - |a|] == ab[i]; }
    }
    forall p | p in Paths(a) + Paths(b) ensures p in Paths(ab) {
      if p in Paths(a) {
        var i :| 0 <= i < |a| && a[i].path == p;
        assert ab[i] == a[i];
      } else {
        var i :| 0 <= i < |b| && b[i].path == p;
        assert ab[|a| + i] == b[i];
      }
    }
  }

  /** A field contributes its own name to the issue list exactly when it fails. */
  lemma PathsOfCheck<T>(c: Check<T>, path: string)
    requires c.Fail? ==> Located(c.issues, path)
    ensures Paths(IssuesOf(c)) == if c.Pass? then {} else {path}
  {
    if c.Fail? {
      assert c.issues[0].path == path;
    }
  }
}
