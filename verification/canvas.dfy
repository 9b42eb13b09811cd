/**
 * The item shaping of `canvas.py`: the key an item is tracked under, the checksum
 * over its payload, the due-date window, the submission test, the `Link` header
 * walk of paginated requests, and the assembly of `upcoming_items`. Requests are
 * replaced by their responses (`fetch`, the assignment and event lists), the
 * ISO-8601 parser by `parse` (microseconds since the epoch, or none when the
 * text does not parse) and SHA-256 over the JSON text by `digest`.
 */
module Canvas {

  import opened Wrappers
  import opened Py
  import opened Text
  import opened Json

  // ---------------------------------------------------------------------------
  // Item keys

  datatype ItemType = Assignment | Event

  function TypeName(t: ItemType): string {
    match t
    case Assignment => "assignment"
    case Event => "event"
  }

  /** `CanvasItem.key`: type, course id and item id joined by ':'. */
  function Key(t: ItemType, courseId: int, itemId: int): (k: string)
    ensures Split(k, ':') == [TypeName(t), IntToString(courseId), IntToString(itemId)]
  {
    var parts := [TypeName(t), IntToString(courseId), IntToString(itemId)];
    IntToStringNoColon(courseId);
    IntToStringNoColon(itemId);
    SplitJoin(parts, ':');
    JoinThree(TypeName(t), IntToString(courseId), IntToString(itemId), ':');
    TypeName(t) + ":" + IntToString(courseId) + ":" + IntToString(itemId)
  }

  lemma JoinThree(a: string, b: string, c: string, sep: char)
    ensures Join([a, b, c], sep) == a + [sep] + b + [sep] + c
  {
    assert [a, b, c][1..] == [b, c];
    assert [b, c][1..] == [c];
    assert Join([c], sep) == c;
    assert Join([b, c], sep) == b + [sep] + c;
    assert Join([a, b, c], sep) == a + [sep] + (b + [sep] + c);
  }

  lemma IntToStringNoColon(n: int)
    ensures ':' !in IntToString(n)
  {
    var d := NatToString(if n < 0 then -n else n);
    assert forall i :: 0 <= i < |d| ==> IsDigit(d[i]);
    if n < 0 {
      assert IntToString(n) == "-" + d;
    }
  }

  /** Reading a key back into its three parts. */
  function ParseKey(k: string): Option<(ItemType, int, int)> {
    var parts := Split(k, ':');
    if |parts| != 3 then None
    else
      var t := if parts[0] == "assignment" then Some(Assignment) else if parts[0] == "event" then Some(Event) else None;
      var c := ParseInt(parts[1]);
      var i := ParseInt(parts[2]);
      if t.Some? && c.Some? && i.Some? then Some((t.value, c.value, i.value)) else None
  }

  /** Every key reads back as the triple it was made from. */
  lemma KeyRoundTrip(t: ItemType, courseId: int, itemId: int)
    ensures ParseKey(Key(t, courseId, itemId)) == Some((t, courseId, itemId))
  {
    IntToStringRoundTrip(courseId);
    IntToStringRoundTrip(itemId);
  }

  /** Distinct (type, course, item) triples get distinct keys. */
  lemma KeyInjective(t1: ItemType, c1: int, i1: int, t2: ItemType, c2: int, i2: int)
    requires Key(t1, c1, i1) == Key(t2, c2, i2)
    ensures t1 == t2 && c1 == c2 && i1 == i2
  {
    KeyRoundTrip(t1, c1, i1);
    KeyRoundTrip(t2, c2, i2);
  }

  // ---------------------------------------------------------------------------
  // Checksums

  /** `checksum_payload`: the digest of the payload serialised with its keys sorted. */
  function Checksum(payload: seq<Member>, digest: seq<Member> -> string): string
    requires DistinctKeys(payload)
  {
    digest(Serialized(payload))
  }

  /** The checksum depends on which members the payload holds, not on the order they were inserted in. */
  lemma ChecksumOrderInsensitive(a: seq<Member>, b: seq<Member>, digest: seq<Member> -> string)
    requires DistinctKeys(a) && DistinctKeys(b)
    requires multiset(a) == multiset(b)
    ensures Checksum(a, digest) == Checksum(b, digest)
  {
    SerializedOrderInsensitive(a, b);
  }

  /** A payload dict built from the named fields of a Canvas object, in that order. */
  function PayloadOf(fields: seq<string>, obj: map<string, Value>): (p: seq<Member>)
    ensures |p| == |fields|
    ensures forall i :: 0 <= i < |p| ==> p[i].0 == fields[i] && p[i].1 == Get(obj, fields[i])
  {
    seq(|fields|, i requires 0 <= i < |fields| => (fields[i], Get(obj, fields[i])))
  }

  const AssignmentPayloadFields: seq<string> :=
    ["name", "due_at", "html_url", "points_possible", "unlock_at", "lock_at", "submission_types", "description"]

  const EventPayloadFields: seq<string> := ["title", "start_at", "html_url", "location_name", "description"]

  lemma PayloadFieldsDistinct()
    ensures DistinctKeys(PayloadOf(AssignmentPayloadFields, map[]))
    ensures DistinctKeys(PayloadOf(EventPayloadFields, map[]))
  {
  }

  lemma PayloadDistinct(fields: seq<string>, obj: map<string, Value>)
    requires fields == AssignmentPayloadFields || fields == EventPayloadFields
    ensures DistinctKeys(PayloadOf(fields, obj))
  {
    PayloadFieldsDistinct();
    assert forall i :: 0 <= i < |fields| ==> PayloadOf(fields, obj)[i].0 == PayloadOf(fields, map[])[i].0;
  }

  function AssignmentChecksum(a: map<string, Value>, digest: seq<Member> -> string): string {
    PayloadDistinct(AssignmentPayloadFields, a);
    Checksum(PayloadOf(AssignmentPayloadFields, a), digest)
  }

  function EventChecksum(e: map<string, Value>, digest: seq<Member> -> string): string {
    PayloadDistinct(EventPayloadFields, e);
    Checksum(PayloadOf(EventPayloadFields, e), digest)
  }

  /** The submission is not part of the assignment checksum: changing it alone leaves the checksum unchanged. */
  lemma ChecksumIgnoresSubmission(a: map<string, Value>, submission: Value, digest: seq<Member> -> string)
    ensures AssignmentChecksum(a["submission" := submission], digest) == AssignmentChecksum(a, digest)
  {
    assert PayloadOf(AssignmentPayloadFields, a["submission" := submission]) == PayloadOf(AssignmentPayloadFields, a);
  }

  // ---------------------------------------------------------------------------
  // Dates and submissions

  datatype CanvasError =
    | UnparsableDate(text: Value)
    | SubmissionNotAnObject(submission: Value)
    | BadItemId(id: Value)

  /** `within_window`: false for an absent date, `start <= t <= end` for a parsed one, an error when it does not parse. */
  function WithinWindow(v: Value, start: int, end: int, parse: string -> Option<int>): (r: Result<bool, CanvasError>)
    ensures !Truthy(v) ==> r == Success(false)
    ensures v.Str? && v.s != "" && parse(v.s).Some? ==> r == Success(start <= parse(v.s).value <= end)
    ensures r == Success(true) ==> v.Str? && parse(v.s).Some? && start <= parse(v.s).value <= end
    ensures r.Failure? <==> Truthy(v) && !(v.Str? && parse(v.s).Some?)
  {
    if !Truthy(v) then Success(false)
    else if v.Str? && parse(v.s).Some? then Success(start <= parse(v.s).value <= end)
    else Failure(UnparsableDate(v))
  }

  /** The normalised workflow state: `str(state or "").strip().lower()`. */
  function SubmissionState(submission: map<string, Value>): string {
    Lower(Strip(TextField(Get(submission, "workflow_state"))))
  }

  /** The submission rule: a submission or grading time, or a workflow state of "submitted" or "graded". */
  predicate IsSubmitted(submission: map<string, Value>) {
    || Truthy(Get(submission, "submitted_at"))
    || Truthy(Get(submission, "graded_at"))
    || SubmissionState(submission) in {"submitted", "graded"}
  }

  /** The workflow state is compared after trimming and lowercasing, so " Graded\n" counts as graded. */
  lemma PaddedStateCounts(submission: map<string, Value>, before: string, state: string, after: string)
    requires AllSpace(before) && AllSpace(after)
    requires state != [] && !IsSpace(state[0]) && !IsSpace(state[|state| - 1])
    requires Lower(state) in {"submitted", "graded"}
    requires Get(submission, "workflow_state") == Str(before + state + after)
    ensures IsSubmitted(submission)
  {
    StripPadded(before, state, after);
  }

  /** Without times, only the two workflow states count as submitted. */
  lemma UnsubmittedState(submission: map<string, Value>)
    requires !Truthy(Get(submission, "submitted_at")) && !Truthy(Get(submission, "graded_at"))
    requires Get(submission, "workflow_state") == Str("unsubmitted")
    ensures !IsSubmitted(submission)
  {
    StripTrimmed("unsubmitted");
  }

  // ---------------------------------------------------------------------------
  // Items

  /** The part of an item's details the model keeps: the submission state of an assignment. */
  datatype Details = AssignmentDetails(submissionState: string, isSubmitted: bool) | EventDetails

  datatype CanvasItem = CanvasItem(
    itemType: ItemType,
    courseId: int,
    itemId: int,
    title: Value,
    due: int,
    url: Value,
    checksum: string,
    details: Details)

  /** `int(obj["id"])` on the values Canvas can send. */
  function ItemId(v: Value): (r: Result<int, CanvasError>)
    ensures v.Int? ==> r == Success(v.i)
    ensures v.Str? ==> (r.Success? <==> ParseInt(v.s).Some?)
  {
    match v
    case Int(i) => Success(i)
    case Bool(b) => Success(if b then 1 else 0)
    case Str(s) => if ParseInt(s).Some? then Success(ParseInt(s).value) else Failure(BadItemId(v))
    case _ => Failure(BadItemId(v))
  }

  /** One assignment: skipped outside the window, otherwise shaped into an item. */
  function AssignmentItem(courseId: int, a: map<string, Value>, start: int, end: int,
                          parse: string -> Option<int>, digest: seq<Member> -> string): Result<Option<CanvasItem>, CanvasError>
  {
    var dueAt := Get(a, "due_at");
    var inWindow :- WithinWindow(dueAt, start, end, parse);
    if !inWindow then Success(None)
    else
      var submission := SubmissionOf(a);
      if !submission.Object? then Failure(SubmissionNotAnObject(submission))
      else
        var id :- ItemId(Get(a, "id"));
        Success(Some(CanvasItem(
          Assignment, courseId, id,
          Or(Get(a, "name"), Str("Untitled assignment")),
          parse(dueAt.s).value,
          Or(Get(a, "html_url"), Str("")),
          AssignmentChecksum(a, digest),
          AssignmentDetails(SubmissionState(submission.fields), IsSubmitted(submission.fields)))))
  }

  /** One calendar event: skipped outside the window, otherwise shaped into an item. */
  function EventItem(courseId: int, e: map<string, Value>, start: int, end: int,
                     parse: string -> Option<int>, digest: seq<Member> -> string): Result<Option<CanvasItem>, CanvasError>
  {
    var startAt := Get(e, "start_at");
    var inWindow :- WithinWindow(startAt, start, end, parse);
    if !inWindow then Success(None)
    else
      var id :- ItemId(Get(e, "id"));
      Success(Some(CanvasItem(
        Event, courseId, id,
        Or(Get(e, "title"), Str("Untitled event")),
        parse(startAt.s).value,
        Or(Get(e, "html_url"), Str("")),
        EventChecksum(e, digest),
        EventDetails)))
  }

  /** The date field that places an object of the given type in the window. */
  function DateField(t: ItemType): string {
    match t
    case Assignment => "due_at"
    case Event => "start_at"
  }

  // ---------------------------------------------------------------------------
  // Running over a list of objects

  /** Run `f` over `xs` in order, keeping the present results; the first failure ends the run. */
  function Collect<X, Y, E>(xs: seq<X>, f: X -> Result<Option<Y>, E>): Result<seq<Y>, E> {
    if xs == [] then Success([])
    else
      var x := f(xs[0]);
      if x.Failure? then Failure(x.error)
      else
        var rest := Collect(xs[1..], f);
        if rest.Failure? then Failure(rest.error)
        else Success((if x.value.Some? then [x.value.value] else []) + rest.value)
  }

  function CountWhere<X>(xs: seq<X>, p: X -> bool): nat {
    if xs == [] then 0 else (if p(xs[0]) then 1 else 0) + CountWhere(xs[1..], p)
  }

  /** The run succeeds exactly when every element succeeds. */
  lemma {:induction false} CollectSucceeds<X, Y, E>(xs: seq<X>, f: X -> Result<Option<Y>, E>)
    ensures Collect(xs, f).Success? <==> forall i :: 0 <= i < |xs| ==> f(xs[i]).Success?
  {
    if xs != [] {
      CollectSucceeds(xs[1..], f);
      assert forall i :: 1 <= i < |xs| ==> xs[i] == xs[1..][i - 1];
    }
  }

  lemma CollectSingle<X, Y, E>(x: X, f: X -> Result<Option<Y>, E>)
    ensures Collect([x], f) == if f(x).Failure? then Failure(f(x).error) else if f(x).value.None? then Success([]) else Success([f(x).value.value])
  {
    var xs := [x];
    assert xs[0] == x && xs[1..] == [];
    assert Collect(xs[1..], f) == Success([]);
    var y := f(x);
    if y.Success? {
      var head: seq<Y> := if y.value.Some? then [y.value.value] else [];
      assert head + [] == head;
      assert Collect(xs, f) == Success(head + []);
    }
  }

  /** Every present result is kept, and every kept value is the present result of some element. */
  lemma {:induction false} CollectMembers<X, Y, E>(xs: seq<X>, f: X -> Result<Option<Y>, E>)
    ensures Collect(xs, f).Success? ==>
      forall i :: 0 <= i < |xs| && f(xs[i]).Success? && f(xs[i]).value.Some? ==> f(xs[i]).value.value in Collect(xs, f).value
    ensures Collect(xs, f).Success? ==>
      forall y :: y in Collect(xs, f).value ==> exists i :: 0 <= i < |xs| && f(xs[i]) == Success(Some(y))
  {
    if xs != [] && Collect(xs, f).Success? {
      var tail := xs[1..];
      CollectMembers(tail, f);
      var rest := Collect(tail, f).value;
      forall i | 0 <= i < |xs| && f(xs[i]).Success? && f(xs[i]).value.Some?
        ensures f(xs[i]).value.value in Collect(xs, f).value
      {
        if i > 0 { assert xs[i] == tail[i - 1]; }
      }
      forall y | y in Collect(xs, f).value ensures exists i :: 0 <= i < |xs| && f(xs[i]) == Success(Some(y)) {
        if y !in rest {
          assert f(xs[0]) == Success(Some(y));
        } else {
          var i :| 0 <= i < |tail| && f(tail[i]) == Success(Some(y));
          assert xs[i + 1] == tail[i];
        }
      }
    }
  }

  /** Running over two lists one after the other gives the results of the first, then those of the second. */
  lemma {:induction false} CollectAppend<X, Y, E>(a: seq<X>, b: seq<X>, f: X -> Result<Option<Y>, E>)
    ensures Collect(a + b, f)
      == if Collect(a, f).Failure? then Collect(a, f)
         else if Collect(b, f).Failure? then Collect(b, f)
         else Success(Collect(a, f).value + Collect(b, f).value)
  {
    if a == [] {
      assert a + b == b;
      if Collect(b, f).Success? {
        assert [] + Collect(b, f).value == Collect(b, f).value;
      }
    } else {
      assert (a + b)[0] == a[0] && (a + b)[1..] == a[1..] + b;
      CollectAppend(a[1..], b, f);
      if f(a[0]).Success? && Collect(a[1..], f).Success? && Collect(b, f).Success? {
        var here := if f(a[0]).value.Some? then [f(a[0]).value.value] else [];
        assert here + (Collect(a[1..], f).value + Collect(b, f).value)
            == (here + Collect(a[1..], f).value) + Collect(b, f).value;
      }
    }
  }

  /** A run keeps one value for each element whose result is present. */
  lemma {:induction false} CollectCount<X, Y, E>(xs: seq<X>, f: X -> Result<Option<Y>, E>, p: X -> bool)
    requires forall i :: 0 <= i < |xs| && f(xs[i]).Success? ==> (f(xs[i]).value.Some? <==> p(xs[i]))
    ensures Collect(xs, f).Success? ==> |Collect(xs, f).value| == CountWhere(xs, p)
  {
    if xs != [] {
      assert forall i :: 0 <= i < |xs[1..]| ==> xs[1..][i] == xs[i + 1];
      CollectCount(xs[1..], f, p);
    }
  }

  /** A property every present result has is had by every kept value. */
  lemma {:induction false} CollectAll<X, Y, E>(xs: seq<X>, f: X -> Result<Option<Y>, E>, q: Y -> bool)
    requires forall i :: 0 <= i < |xs| && f(xs[i]).Success? && f(xs[i]).value.Some? ==> q(f(xs[i]).value.value)
    ensures Collect(xs, f).Success? ==> forall k :: 0 <= k < |Collect(xs, f).value| ==> q(Collect(xs, f).value[k])
  {
    if xs != [] {
      assert forall i :: 0 <= i < |xs[1..]| ==> xs[1..][i] == xs[i + 1];
      CollectAll(xs[1..], f, q);
    }
  }

  // ---------------------------------------------------------------------------
  // The items of one course

  /** An object's date lies in the window. */
  function WindowTest(t: ItemType, start: int, end: int, parse: string -> Option<int>): (p: map<string, Value> -> bool)
    ensures forall o :: p(o) == (WithinWindow(Get(o, DateField(t)), start, end, parse) == Success(true))
  {
    o => WithinWindow(Get(o, DateField(t)), start, end, parse) == Success(true)
  }

  /** How many of the objects fall in the window. */
  function InWindow(t: ItemType, objs: seq<map<string, Value>>, start: int, end: int, parse: string -> Option<int>): nat {
    CountWhere(objs, WindowTest(t, start, end, parse))
  }

  /** An item of the given type about the given course, dated inside the window, with a title. */
  predicate Emitted(x: CanvasItem, t: ItemType, courseId: int, start: int, end: int) {
    x.itemType == t && x.courseId == courseId && start <= x.due <= end && Truthy(x.title)
  }

  /** `ItemOf` for fixed type, course, window and parameters, as a function of the object. */
  function ItemFn(t: ItemType, courseId: int, start: int, end: int, parse: string -> Option<int>,
                  digest: seq<Member> -> string): (f: map<string, Value> -> Result<Option<CanvasItem>, CanvasError>)
    ensures forall o :: f(o) == ItemOf(t, courseId, o, start, end, parse, digest)
  {
    o => ItemOf(t, courseId, o, start, end, parse, digest)
  }

  /** The items of a list of objects of one type, in list order; the first failing object ends the run. */
  function ItemsOf(t: ItemType, courseId: int, objs: seq<map<string, Value>>, start: int, end: int,
                   parse: string -> Option<int>, digest: seq<Member> -> string): (r: Result<seq<CanvasItem>, CanvasError>)
    ensures r.Success? ==> |r.value| == InWindow(t, objs, start, end, parse)
    ensures r.Success? ==> forall k :: 0 <= k < |r.value| ==> Emitted(r.value[k], t, courseId, start, end)
  {
    var f := ItemFn(t, courseId, start, end, parse, digest);
    CollectCount(objs, f, WindowTest(t, start, end, parse));
    CollectAll(objs, f, x => Emitted(x, t, courseId, start, end));
    Collect(objs, f)
  }

  /** The field an item takes its title from, and the title it gets when that field is falsy. */
  function TitleField(t: ItemType): string {
    match t
    case Assignment => "name"
    case Event => "title"
  }

  function DefaultTitle(t: ItemType): string {
    match t
    case Assignment => "Untitled assignment"
    case Event => "Untitled event"
  }

  /** `a.get("submission") or {}`. */
  function SubmissionOf(a: map<string, Value>): Value {
    Or(Get(a, "submission"), Object(map[]))
  }

  function ItemChecksum(t: ItemType, obj: map<string, Value>, digest: seq<Member> -> string): string {
    match t
    case Assignment => AssignmentChecksum(obj, digest)
    case Event => EventChecksum(obj, digest)
  }

  /** Every field of `x` is read off the Canvas object `obj` of type `t` the way `upcoming_items` reads it. */
  predicate ShapedFrom(x: CanvasItem, t: ItemType, courseId: int, obj: map<string, Value>,
                       parse: string -> Option<int>, digest: seq<Member> -> string)
  {
    && x.itemType == t && x.courseId == courseId
    && ItemId(Get(obj, "id")) == Success(x.itemId)
    && Get(obj, DateField(t)).Str? && parse(Get(obj, DateField(t)).s) == Some(x.due)
    && x.title == Or(Get(obj, TitleField(t)), Str(DefaultTitle(t)))
    && x.url == Or(Get(obj, "html_url"), Str(""))
    && x.checksum == ItemChecksum(t, obj, digest)
    && (t == Event ==> x.details == EventDetails)
    && (t == Assignment ==> SubmissionOf(obj).Object? && x.details == AssignmentDetails(
          SubmissionState(SubmissionOf(obj).fields), IsSubmitted(SubmissionOf(obj).fields)))
  }

  /**
   * One object of the given type. A date that does not parse is an error; outside the
   * window the object is skipped; inside it the object becomes an item unless its id
   * is not an integer or (for an assignment) its submission is not an object.
   */
  function ItemOf(t: ItemType, courseId: int, obj: map<string, Value>, start: int, end: int,
                  parse: string -> Option<int>, digest: seq<Member> -> string): (r: Result<Option<CanvasItem>, CanvasError>)
    ensures var w := WithinWindow(Get(obj, DateField(t)), start, end, parse);
      && (w.Failure? ==> r == Failure(w.error))
      && (w == Success(false) ==> r == Success(None))
      && (w == Success(true) ==> (r.Success? <==> ItemId(Get(obj, "id")).Success? && (t == Assignment ==> SubmissionOf(obj).Object?)))
      && (r.Success? ==> (r.value.Some? <==> w == Success(true)))
    ensures r.Success? && r.value.Some? ==> ShapedFrom(r.value.value, t, courseId, obj, parse, digest)
    ensures r.Success? && r.value.Some? ==> Emitted(r.value.value, t, courseId, start, end)
  {
    if t == Assignment then AssignmentItem(courseId, obj, start, end, parse, digest)
    else EventItem(courseId, obj, start, end, parse, digest)
  }

  /** No object of the list makes the run fail. */
  predicate AllSucceed(t: ItemType, courseId: int, objs: seq<map<string, Value>>, start: int, end: int,
                       parse: string -> Option<int>, digest: seq<Member> -> string)
  {
    forall j :: 0 <= j < |objs| ==> ItemOf(t, courseId, objs[j], start, end, parse, digest).Success?
  }

  /** `x` is the item of one of the objects. */
  predicate ItemFrom(x: CanvasItem, t: ItemType, courseId: int, objs: seq<map<string, Value>>, start: int, end: int,
                     parse: string -> Option<int>, digest: seq<Member> -> string)
  {
    exists j :: 0 <= j < |objs| && ItemOf(t, courseId, objs[j], start, end, parse, digest) == Success(Some(x))
  }

  /**
   * The run succeeds exactly when every object succeeds; then each object in the window
   * contributes its item, and every item comes from one of the objects.
   */
  lemma ItemsOfCorrespond(t: ItemType, courseId: int, objs: seq<map<string, Value>>, start: int, end: int,
                          parse: string -> Option<int>, digest: seq<Member> -> string)
    ensures ItemsOf(t, courseId, objs, start, end, parse, digest).Success?
      <==> AllSucceed(t, courseId, objs, start, end, parse, digest)
    ensures var r := ItemsOf(t, courseId, objs, start, end, parse, digest);
      r.Success? ==> forall j :: 0 <= j < |objs| && ItemOf(t, courseId, objs[j], start, end, parse, digest) != Success(None) ==>
        ItemOf(t, courseId, objs[j], start, end, parse, digest).value.value in r.value
    ensures var r := ItemsOf(t, courseId, objs, start, end, parse, digest);
      r.Success? ==> forall x :: x in r.value ==> ItemFrom(x, t, courseId, objs, start, end, parse, digest)
  {
    var f := ItemFn(t, courseId, start, end, parse, digest);
    CollectSucceeds(objs, f);
    CollectMembers(objs, f);
  }

  /** The run succeeds exactly when no object makes it fail. */
  lemma ItemsOfSucceeds(t: ItemType, courseId: int, objs: seq<map<string, Value>>, start: int, end: int,
                        parse: string -> Option<int>, digest: seq<Member> -> string)
    ensures ItemsOf(t, courseId, objs, start, end, parse, digest).Success?
      <==> AllSucceed(t, courseId, objs, start, end, parse, digest)
  {
    CollectSucceeds(objs, ItemFn(t, courseId, start, end, parse, digest));
  }

  /** One object gives its item, nothing when it is skipped, or its error; with `ItemsOfAppend` this fixes the result in object order. */
  lemma ItemsOfSingle(t: ItemType, courseId: int, obj: map<string, Value>, start: int, end: int,
                      parse: string -> Option<int>, digest: seq<Member> -> string)
    ensures var x := ItemOf(t, courseId, obj, start, end, parse, digest);
      ItemsOf(t, courseId, [obj], start, end, parse, digest)
        == if x.Failure? then Failure(x.error) else if x.value.None? then Success([]) else Success([x.value.value])
  {
    CollectSingle(obj, ItemFn(t, courseId, start, end, parse, digest));
  }

  /** The items of two lists one after the other are the items of the first, then those of the second. */
  lemma ItemsOfAppend(t: ItemType, courseId: int, a: seq<map<string, Value>>, b: seq<map<string, Value>>,
                      start: int, end: int, parse: string -> Option<int>, digest: seq<Member> -> string)
    ensures var ra := ItemsOf(t, courseId, a, start, end, parse, digest);
      var rb := ItemsOf(t, courseId, b, start, end, parse, digest);
      ItemsOf(t, courseId, a + b, start, end, parse, digest)
        == if ra.Failure? then ra else if rb.Failure? then rb else Success(ra.value + rb.value)
  {
    CollectAppend(a, b, ItemFn(t, courseId, start, end, parse, digest));
  }

  const MicrosecondsPerDay: int := 86400 * 1000000

  /** `now + timedelta(days=due_within_days)`: the end of the window. */
  function WindowEnd(now: int, withinDays: int): int {
    now + withinDays * MicrosecondsPerDay
  }

  /** `upcoming_items`: the assignments, then the events, of one course due within `withinDays` days of `now`. */
  function UpcomingItems(courseId: int, assignments: seq<map<string, Value>>, events: seq<map<string, Value>>,
                         now: int, withinDays: int, parse: string -> Option<int>,
                         digest: seq<Member> -> string): (r: Result<seq<CanvasItem>, CanvasError>)
    ensures r.Success? ==> |r.value| == InWindow(Assignment, assignments, now, WindowEnd(now, withinDays), parse)
                                       + InWindow(Event, events, now, WindowEnd(now, withinDays), parse)
    ensures r.Success? ==> CourseAgenda(r.value, courseId, now, WindowEnd(now, withinDays))
  {
    var end := WindowEnd(now, withinDays);
    var xs :- ItemsOf(Assignment, courseId, assignments, now, end, parse, digest);
    var ys :- ItemsOf(Event, courseId, events, now, end, parse, digest);
    JoinEmitted(xs, ys, courseId, now, end);
    Success(xs + ys)
  }

  /**
   * Items of one course, each titled and dated within `[start, end]`, with every event
   * after every assignment.
   */
  predicate CourseAgenda(items: seq<CanvasItem>, courseId: int, start: int, end: int) {
    forall k :: 0 <= k < |items| ==>
      && start <= items[k].due <= end && items[k].courseId == courseId && Truthy(items[k].title)
      && (items[k].itemType == Event ==> forall j :: k < j < |items| ==> items[j].itemType == Event)
  }

  /** Assignment items followed by event items form the course's agenda. */
  lemma JoinEmitted(xs: seq<CanvasItem>, ys: seq<CanvasItem>, courseId: int, start: int, end: int)
    requires forall k :: 0 <= k < |xs| ==> Emitted(xs[k], Assignment, courseId, start, end)
    requires forall k :: 0 <= k < |ys| ==> Emitted(ys[k], Event, courseId, start, end)
    ensures CourseAgenda(xs + ys, courseId, start, end)
  {
    forall k | 0 <= k < |xs + ys|
      ensures (xs + ys)[k].itemType == Event ==> forall j :: k < j < |xs + ys| ==> (xs + ys)[j].itemType == Event
    {
      if k < |xs| {
        assert (xs + ys)[k] == xs[k];
      }
    }
  }

  /** The run over a course succeeds exactly when every assignment and every event does. */
  lemma UpcomingItemsSucceed(courseId: int, assignments: seq<map<string, Value>>, events: seq<map<string, Value>>,
                             now: int, withinDays: int, parse: string -> Option<int>, digest: seq<Member> -> string)
    ensures var end := WindowEnd(now, withinDays);
      UpcomingItems(courseId, assignments, events, now, withinDays, parse, digest).Success? <==>
        AllSucceed(Assignment, courseId, assignments, now, end, parse, digest) && AllSucceed(Event, courseId, events, now, end, parse, digest)
  {
    var end := WindowEnd(now, withinDays);
    UpcomingItemsJoin(courseId, assignments, events, now, withinDays, parse, digest);
    ItemsOfSucceeds(Assignment, courseId, assignments, now, end, parse, digest);
    ItemsOfSucceeds(Event, courseId, events, now, end, parse, digest);
  }

  /** The items of a successful run over a course are exactly the items of its in-window assignments and events. */
  lemma UpcomingItemsFromObjects(courseId: int, assignments: seq<map<string, Value>>, events: seq<map<string, Value>>,
                                 now: int, withinDays: int, parse: string -> Option<int>, digest: seq<Member> -> string)
    ensures var end := WindowEnd(now, withinDays);
      var r := UpcomingItems(courseId, assignments, events, now, withinDays, parse, digest);
      r.Success? ==> forall x :: x in r.value <==>
        ItemFrom(x, Assignment, courseId, assignments, now, end, parse, digest) || ItemFrom(x, Event, courseId, events, now, end, parse, digest)
  {
    var end := WindowEnd(now, withinDays);
    var xs := ItemsOf(Assignment, courseId, assignments, now, end, parse, digest);
    var ys := ItemsOf(Event, courseId, events, now, end, parse, digest);
    UpcomingItemsJoin(courseId, assignments, events, now, withinDays, parse, digest);
    if xs.Success? && ys.Success? {
      ItemsOfCorrespond(Assignment, courseId, assignments, now, end, parse, digest);
      ItemsOfCorrespond(Event, courseId, events, now, end, parse, digest);
      ItemsFromBoth(xs.value, ys.value, courseId, assignments, events, now, end, parse, digest);
    }
  }

  lemma ItemsFromBoth(xs: seq<CanvasItem>, ys: seq<CanvasItem>, courseId: int, assignments: seq<map<string, Value>>,
                      events: seq<map<string, Value>>, start: int, end: int, parse: string -> Option<int>, digest: seq<Member> -> string)
    requires forall x :: x in xs <==> ItemFrom(x, Assignment, courseId, assignments, start, end, parse, digest)
    requires forall x :: x in ys <==> ItemFrom(x, Event, courseId, events, start, end, parse, digest)
    ensures forall x :: x in xs + ys <==>
      ItemFrom(x, Assignment, courseId, assignments, start, end, parse, digest) || ItemFrom(x, Event, courseId, events, start, end, parse, digest)
  {
  }

  /** The assignments' items, then the events' items; an assignment failure is reported before the events are read. */
  lemma UpcomingItemsJoin(courseId: int, assignments: seq<map<string, Value>>, events: seq<map<string, Value>>,
                          now: int, withinDays: int, parse: string -> Option<int>, digest: seq<Member> -> string)
    ensures var end := WindowEnd(now, withinDays);
      var xs := ItemsOf(Assignment, courseId, assignments, now, end, parse, digest);
      var ys := ItemsOf(Event, courseId, events, now, end, parse, digest);
      UpcomingItems(courseId, assignments, events, now, withinDays, parse, digest)
        == if xs.Failure? then xs else if ys.Failure? then ys else Success(xs.value + ys.value)
  {
  }

  /** An untitled event in the window is emitted as "Untitled event" with an empty URL when it has none. */
  lemma UntitledEvent(courseId: int, e: map<string, Value>, start: int, end: int,
                      parse: string -> Option<int>, digest: seq<Member> -> string)
    requires !Truthy(Get(e, "title")) && !Truthy(Get(e, "html_url"))
    ensures var r := ItemOf(Event, courseId, e, start, end, parse, digest);
      r.Success? && r.value.Some? ==> r.value.value.title == Str("Untitled event") && r.value.value.url == Str("")
  {
  }

  /** An untitled assignment in the window is emitted as "Untitled assignment" with an empty URL when it has none. */
  lemma UntitledAssignment(courseId: int, a: map<string, Value>, start: int, end: int,
                           parse: string -> Option<int>, digest: seq<Member> -> string)
    requires !Truthy(Get(a, "name")) && !Truthy(Get(a, "html_url"))
    ensures var r := AssignmentItem(courseId, a, start, end, parse, digest);
      r.Success? && r.value.Some? ==> r.value.value.title == Str("Untitled assignment") && r.value.value.url == Str("")
  {
  }

  /** An assignment whose submission changes keeps its checksum. */
  lemma ItemChecksumIgnoresSubmission(courseId: int, a: map<string, Value>, submission: Value, start: int, end: int,
                                      parse: string -> Option<int>, digest: seq<Member> -> string)
    ensures var before := AssignmentItem(courseId, a, start, end, parse, digest);
      var after := AssignmentItem(courseId, a["submission" := submission], start, end, parse, digest);
      before.Success? && before.value.Some? && after.Success? ==>
        after.value.Some? && after.value.value.checksum == before.value.value.checksum
  {
    var b := a["submission" := submission];
    if AssignmentItem(courseId, a, start, end, parse, digest).Success? && AssignmentItem(courseId, b, start, end, parse, digest).Success? {
      assert Get(b, "due_at") == Get(a, "due_at");
      AssignmentItemChecksum(courseId, a, start, end, parse, digest);
      AssignmentItemChecksum(courseId, b, start, end, parse, digest);
      ChecksumIgnoresSubmission(a, submission, digest);
    }
  }

  /** A successful assignment is an item exactly when its due date lies in the window, and it carries the assignment checksum. */
  lemma AssignmentItemChecksum(courseId: int, a: map<string, Value>, start: int, end: int,
                               parse: string -> Option<int>, digest: seq<Member> -> string)
    requires AssignmentItem(courseId, a, start, end, parse, digest).Success?
    ensures var r := AssignmentItem(courseId, a, start, end, parse, digest);
      && (r.value.Some? <==> WithinWindow(Get(a, "due_at"), start, end, parse) == Success(true))
      && (r.value.Some? ==> r.value.value.checksum == AssignmentChecksum(a, digest))
  {
  }

  // ---------------------------------------------------------------------------
  // Pagination

  /** The target of the first part of a `Link` header marked `rel="next"` that has a well-formed `<...>`. */
  function NextLink(link: string): (r: Option<string>)
    ensures r.Some? ==> r.value != [] && ',' !in r.value && '>' !in r.value
  {
    if link == "" then None else NextInParts(Split(link, ','))
  }

  /** The target of one part: the text between its first `<` and first `>` when it mentions `rel="next"`. */
  function PartTarget(part: string): (r: Option<string>)
    requires ',' !in part
    ensures r.Some? ==> r.value != [] && ',' !in r.value && '>' !in r.value
  {
    var p := Strip(part);
    assert ',' !in p;
    if Contains(p, "rel=\"next\"") then Bracketed(p) else None
  }

  /** The text between the first `<` and the first `>` of a stripped part, when both exist in that order with text between. */
  function Bracketed(p: string): (r: Option<string>)
    requires ',' !in p
    ensures r.Some? ==> r.value != [] && ',' !in r.value && '>' !in r.value
  {
    var start := Find(p, '<') + 1;
    var end := Find(p, '>');
    if start > 0 && end > start then
      assert forall i :: start <= i < end ==> p[i] != '>' by {
        forall i | start <= i < end ensures p[i] != '>' {
          assert p[i] == p[..end][i];
        }
      }
      Some(p[start..end])
    else None
  }

  function NextInParts(parts: seq<string>): (r: Option<string>)
    requires forall i :: 0 <= i < |parts| ==> ',' !in parts[i]
    ensures r.Some? ==> r.value != [] && ',' !in r.value && '>' !in r.value
  {
    if parts == [] then None
    else if PartTarget(parts[0]).Some? then PartTarget(parts[0])
    else NextInParts(parts[1..])
  }

  lemma {:induction false} ContainsSuffix(x: string, sub: string)
    ensures Contains(x + sub, sub)
    decreases |x|
  {
    if x == [] {
      assert x + sub == sub;
    } else {
      assert (x + sub)[1..] == x[1..] + sub;
      ContainsSuffix(x[1..], sub);
    }
  }

  /** The header Canvas sends for a next page: `<url>; rel="next"`. */
  function NextHeader(url: string): string {
    "<" + url + ">; rel=\"next\""
  }

  /** `Find` gives the first occurrence. */
  lemma FindFirst(s: string, c: char, i: int)
    requires 0 <= i < |s| && s[i] == c && c !in s[..i]
    ensures Find(s, c) == i
  {
  }

  /** The header is one comma-free, already trimmed part that mentions `rel="next"`. */
  lemma HeaderShape(url: string)
    requires ',' !in url
    ensures ',' !in NextHeader(url)
    ensures Strip(NextHeader(url)) == NextHeader(url)
    ensures Contains(NextHeader(url), "rel=\"next\"")
  {
    var tail := ">; rel=\"next\"";
    var h := NextHeader(url);
    assert h == "<" + url + tail;
    assert ',' !in h by {
      forall i | 0 <= i < |h| ensures h[i] != ',' {
        if 1 <= i <= |url| { assert h[i] == url[i - 1]; }
        else if i > |url| { assert h[i] == tail[i - |url| - 1]; }
      }
    }
    StripTrimmed(h);
    assert h == ("<" + url + ">; ") + "rel=\"next\"";
    ContainsSuffix("<" + url + ">; ", "rel=\"next\"");
  }

  /** The brackets of the header sit at 0 and just after the URL. */
  lemma HeaderBrackets(url: string)
    requires '>' !in url
    ensures Find(NextHeader(url), '<') == 0
    ensures Find(NextHeader(url), '>') == |url| + 1
    ensures NextHeader(url)[1..|url| + 1] == url
  {
    var h := NextHeader(url);
    FindFirst(h, '<', 0);
    assert h[..|url| + 1] == "<" + url;
    FindFirst(h, '>', |url| + 1);
  }

  /** A `rel="next"` header yields its URL. */
  lemma NextLinkOfHeader(url: string)
    requires url != [] && ',' !in url && '>' !in url
    ensures NextLink(NextHeader(url)) == Some(url)
  {
    var h := NextHeader(url);
    HeaderShape(url);
    HeaderBrackets(url);
    SplitNoSeparator(h, ',');
    assert [h][0] == h;
    PartTargetOfTrimmed(h);
    NextInPartsHead([h]);
  }

  /** The first part with a target decides; a part without one is passed over. */
  lemma NextInPartsHead(parts: seq<string>)
    requires parts != [] && forall i :: 0 <= i < |parts| ==> ',' !in parts[i]
    ensures PartTarget(parts[0]).Some? ==> NextInParts(parts) == PartTarget(parts[0])
    ensures PartTarget(parts[0]).None? ==> NextInParts(parts) == NextInParts(parts[1..])
  {
  }

  /** A trimmed part mentioning `rel="next"` with a non-empty `<...>` yields what lies between the brackets. */
  lemma PartTargetOfTrimmed(p: string)
    requires ',' !in p && Strip(p) == p && Contains(p, "rel=\"next\"")
    requires 0 < Find(p, '<') + 1 < Find(p, '>')
    ensures PartTarget(p) == Some(p[Find(p, '<') + 1..Find(p, '>')])
  {
    PartTargetOfStripped(p);
    BracketedBetween(p);
  }

  lemma PartTargetOfStripped(p: string)
    requires ',' !in p && Strip(p) == p && Contains(p, "rel=\"next\"")
    ensures PartTarget(p) == Bracketed(p)
  {
  }

  lemma BracketedBetween(p: string)
    requires ',' !in p && 0 < Find(p, '<') + 1 < Find(p, '>')
    ensures Bracketed(p) == Some(p[Find(p, '<') + 1..Find(p, '>')])
  {
  }

  /** Parts without `rel="next"` are passed over: a previous-page part in front changes nothing. */
  lemma NextLinkSkipsOtherParts(part: string, rest: string)
    requires ',' !in part && !Contains(Strip(part), "rel=\"next\"")
    requires rest != ""
    ensures NextLink(part + "," + rest) == NextLink(rest)
  {
    SplitAfterPart(part, ',', rest);
  }

  /** One response: its items and its `Link` header ("" when absent). */
  datatype Page = Page(items: seq<Value>, link: string)

  function Then(out: seq<Value>, rest: Option<seq<Value>>): Option<seq<Value>> {
    if rest.Some? then Some(out + rest.value) else None
  }

  /** The URL the walk continues with after a page: the next link, or "" to stop. */
  function NextUrl(link: string): string {
    NextLink(link).GetOr("")
  }

  /**
   * The request walk from `url` with at most `fuel` requests, where `nextOf` reads
   * the URL to continue with from a `Link` header: the items of every page in
   * request order, or none when the walk needs more requests. `fetch(u, true)` is
   * the first request, sent with the caller's parameters; later requests carry none.
   */
  function Walk(url: string, first: bool, fetch: (string, bool) -> Page, nextOf: string -> string, fuel: nat): Option<seq<Value>>
    decreases fuel
  {
    if url == "" then Some([])
    else if fuel == 0 then None
    else
      var page := fetch(url, first);
      Then(page.items, Walk(nextOf(page.link), false, fetch, nextOf, fuel - 1))
  }

  /** What `_get_paginated(url)` returns when its walk ends within `fuel` requests. */
  function Pages(url: string, fetch: (string, bool) -> Page, fuel: nat): Option<seq<Value>> {
    Walk(url, true, fetch, NextUrl, fuel)
  }

  /** A walk that completes within some fuel gives the same pages with any more fuel: the bound only cuts off. */
  lemma {:induction false} WalkFuelMonotone(url: string, first: bool, fetch: (string, bool) -> Page,
                                            nextOf: string -> string, fuel: nat, more: nat)
    requires Walk(url, first, fetch, nextOf, fuel).Some? && fuel <= more
    ensures Walk(url, first, fetch, nextOf, more) == Walk(url, first, fetch, nextOf, fuel)
    decreases fuel
  {
    if url != "" {
      var page := fetch(url, first);
      WalkFuelMonotone(nextOf(page.link), false, fetch, nextOf, fuel - 1, more - 1);
    }
  }

  lemma PagesFuelMonotone(url: string, fetch: (string, bool) -> Page, fuel: nat, more: nat)
    requires Pages(url, fetch, fuel).Some? && fuel <= more
    ensures Pages(url, fetch, more) == Pages(url, fetch, fuel)
  {
    WalkFuelMonotone(url, true, fetch, NextUrl, fuel, more);
  }

  /** A first page without a next link is the whole result. */
  lemma SinglePage(url: string, fetch: (string, bool) -> Page, fuel: nat)
    requires url != "" && fuel >= 1 && NextLink(fetch(url, true).link).None?
    ensures Pages(url, fetch, fuel) == Some(fetch(url, true).items)
  {
    var page := fetch(url, true);
    assert NextUrl(page.link) == "";
    assert Walk("", false, fetch, NextUrl, fuel - 1) == Some([]);
    assert page.items + [] == page.items;
  }

  /** Pages arrive in request order: the first page's items come first, then the walk from its next link. */
  lemma PagesInOrder(url: string, fetch: (string, bool) -> Page, fuel: nat, next: string, rest: seq<Value>)
    requires url != "" && fuel >= 1
    requires NextLink(fetch(url, true).link) == Some(next)
    requires Walk(next, false, fetch, NextUrl, fuel - 1) == Some(rest)
    ensures Pages(url, fetch, fuel) == Some(fetch(url, true).items + rest)
  {
    assert NextUrl(fetch(url, true).link) == next;
  }

  /** The request loop of `_get_paginated`, for any reading of the `Link` header, stopping after `fuel` requests. */
  method WalkLoop(url: string, fetch: (string, bool) -> Page, nextOf: string -> string, fuel: nat)
    returns (out: seq<Value>, complete: bool)
    ensures complete <==> Walk(url, true, fetch, nextOf, fuel).Some?
    ensures complete ==> Walk(url, true, fetch, nextOf, fuel) == Some(out)
  {
    out := [];
    var nextUrl := url;
    var first := true;
    var left := fuel;
    var whole := Walk(url, true, fetch, nextOf, fuel);
    if whole.Some? {
      assert [] + whole.value == whole.value;
    }
    while nextUrl != ""
      invariant Walk(url, true, fetch, nextOf, fuel) == Then(out, Walk(nextUrl, first, fetch, nextOf, left))
      decreases left
    {
      if left == 0 {
        return out, false;
      }
      var page := fetch(nextUrl, first);
      var rest := Walk(nextOf(page.link), false, fetch, nextOf, left - 1);
      if rest.Some? {
        assert (out + page.items) + rest.value == out + (page.items + rest.value);
      }
      out := out + page.items;
      nextUrl := nextOf(page.link);
      first := false;
      left := left - 1;
    }
    assert out + [] == out;
    complete := true;
  }

  /** `_get_paginated`: the pages reached by following `rel="next"` links, within `fuel` requests. */
  method GetPaginated(url: string, fetch: (string, bool) -> Page, fuel: nat) returns (out: seq<Value>, complete: bool)
    ensures complete <==> Pages(url, fetch, fuel).Some?
    ensures complete ==> Pages(url, fetch, fuel) == Some(out)
  {
    out, complete := WalkLoop(url, fetch, NextUrl, fuel);
  }
}
