/**
 * The `--wipe-board` branch of `run_one` in `cli.py`, together with the poll
 * interval arithmetic and the term id that `--list-courses` suggests.
 *
 * The wipe branch is modelled as one function from its inputs to its outcome:
 * the `--wipe-board-confirm` string, the resolved board id, the parsed state file, the board
 * as `wipe_managed` reads it, and the order in which the state's dicts enumerate
 * their keys (JSON objects keep the order of the file; a Dafny map does not, and
 * the order decides which of two records for the same card id wins).
 */
module Cli {

  import opened Wrappers
  import opened Py
  import opened State
  import opened Index
  import opened Wipe

  // ---------------------------------------------------------------------------
  // Poll interval

  /** `max(60, int(interval_minutes * 60))` for a whole number of minutes. */
  function IntervalSeconds(minutes: int): (r: int)
    ensures r >= 60 && r >= minutes * 60
    ensures r == 60 || r == minutes * 60
  {
    if minutes * 60 > 60 then minutes * 60 else 60
  }

  /** `max(1, interval_seconds - int(elapsed))` for an elapsed time in microseconds. */
  function SleepSeconds(intervalSeconds: int, elapsedUs: int): (r: int)
    ensures r >= 1
    ensures r >= intervalSeconds - Seconds(elapsedUs)
    ensures r == 1 || r == intervalSeconds - Seconds(elapsedUs)
  {
    var left := intervalSeconds - Seconds(elapsedUs);
    if left > 1 then left else 1
  }

  /** A run shorter than the interval is followed by a sleep that starts the next run on schedule, at most a second late. */
  lemma NextRunOnSchedule(intervalSeconds: int, elapsedUs: int)
    requires 0 <= elapsedUs < intervalSeconds * 1000000
    ensures intervalSeconds * 1000000 <= elapsedUs + SleepSeconds(intervalSeconds, elapsedUs) * 1000000
    ensures elapsedUs + SleepSeconds(intervalSeconds, elapsedUs) * 1000000 < intervalSeconds * 1000000 + 1000000
  {
    var q := Seconds(elapsedUs);
    assert q * 1000000 <= elapsedUs < q * 1000000 + 1000000;
    assert q < intervalSeconds;
    assert SleepSeconds(intervalSeconds, elapsedUs) == intervalSeconds - q;
    assert (intervalSeconds - q) * 1000000 == intervalSeconds * 1000000 - q * 1000000;
  }

  /** A run that took the whole interval or longer is followed by the one-second minimum sleep. */
  lemma OverrunSleepsOneSecond(intervalSeconds: int, elapsedUs: int)
    requires elapsedUs >= intervalSeconds * 1000000 && elapsedUs >= 0
    ensures SleepSeconds(intervalSeconds, elapsedUs) == 1
  {
    var q := Seconds(elapsedUs);
    assert elapsedUs < q * 1000000 + 1000000;
    assert intervalSeconds * 1000000 < (q + 1) * 1000000;
  }

  /** When the clock steps back during a run, `int()` rounds the negative elapsed time up, so the sleep is at least the interval. */
  lemma ClockStepBackSleepsFullInterval(intervalSeconds: int, elapsedUs: int)
    requires elapsedUs < 0 && intervalSeconds >= 1
    ensures SleepSeconds(intervalSeconds, elapsedUs) >= intervalSeconds
  {
    var q := Seconds(elapsedUs);
    assert q * 1000000 <= 0;
  }

  // ---------------------------------------------------------------------------
  // Suggested term id

  /** A course whose `enrollment_term_id` is present and spelled with digits only. */
  predicate HasTermId(course: map<string, Value>) {
    Get(course, "enrollment_term_id") != Null && IsDigits(PyStr(Get(course, "enrollment_term_id")))
  }

  /** `int(c["enrollment_term_id"])` for such a course. */
  function TermId(course: map<string, Value>): nat
    requires HasTermId(course)
  {
    DigitsValue(PyStr(Get(course, "enrollment_term_id")))
  }

  /** The term id a course contributes, if any. */
  function TermOf(course: map<string, Value>): Option<nat> {
    if HasTermId(course) then Some(TermId(course)) else None
  }

  /** The maximum of the present values, or none when no value is present. */
  method MaxPresent<T>(xs: seq<T>, value: T -> Option<nat>) returns (r: Option<nat>)
    ensures r.None? <==> forall i :: 0 <= i < |xs| ==> value(xs[i]).None?
    ensures r.Some? ==> exists i :: 0 <= i < |xs| && value(xs[i]) == r
    ensures r.Some? ==> forall i :: 0 <= i < |xs| && value(xs[i]).Some? ==> value(xs[i]).value <= r.value
  {
    r := None;
    var k := 0;
    while k < |xs|
      invariant 0 <= k <= |xs|
      invariant r.None? <==> forall i :: 0 <= i < k ==> value(xs[i]).None?
      invariant r.Some? ==> exists i :: 0 <= i < k && value(xs[i]) == r
      invariant r.Some? ==> forall i :: 0 <= i < k && value(xs[i]).Some? ==> value(xs[i]).value <= r.value
    {
      var t := value(xs[k]);
      if t.Some? && (r.None? || t.value > r.value) {
        r := t;
      }
      k := k + 1;
    }
  }

  /** The maximum term id over the courses that have one, or none when no course has one. */
  method SuggestedTermId(courses: seq<map<string, Value>>) returns (r: Option<nat>)
    ensures r.None? <==> forall i :: 0 <= i < |courses| ==> !HasTermId(courses[i])
    ensures r.Some? ==> exists i :: 0 <= i < |courses| && HasTermId(courses[i]) && TermId(courses[i]) == r.value
    ensures r.Some? ==> forall i :: 0 <= i < |courses| && HasTermId(courses[i]) ==> TermId(courses[i]) <= r.value
  {
    r := MaxPresent(courses, TermOf);
    assert forall i :: 0 <= i < |courses| ==> (TermOf(courses[i]).None? <==> !HasTermId(courses[i]));
  }

  /** A non-negative integer term id counts with its own value. */
  lemma TermIdOfInteger(course: map<string, Value>, t: nat)
    requires Get(course, "enrollment_term_id") == Int(t)
    ensures HasTermId(course) && TermId(course) == t
  {
    NatToStringRoundTrip(t);
  }

  /** A negative term id is not spelled with digits only, so it is skipped. */
  lemma NegativeTermIdSkipped(course: map<string, Value>, t: int)
    requires Get(course, "enrollment_term_id") == Int(t) && t < 0
    ensures !HasTermId(course)
  {
    assert PyStr(Int(t))[0] == '-';
  }

  // ---------------------------------------------------------------------------
  // The managed-card list handed to `wipe_managed`

  /** The order in which the state's dicts enumerate their keys. */
  datatype Orders = Orders(items: seq<string>, courses: seq<string>, lists: seq<string>)

  /** `order` lists the keys of `m`, each once, which is what iterating a dict does. */
  predicate Enumerates<V>(order: seq<string>, m: map<string, V>) {
    && (forall k :: k in m ==> k in order)
    && (forall i :: 0 <= i < |order| ==> order[i] in m)
    && (forall i, j :: 0 <= i < j < |order| ==> order[i] != order[j])
  }

  predicate OrdersFit(orders: Orders, s: SyncState) {
    && Enumerates(orders.items, s.itemToCard)
    && Enumerates(orders.courses, s.courseInfoCard)
    && Enumerates(orders.lists, s.managedListIds)
  }

  /** An `item_to_card` value that enters the list: a dict with a truthy `card_id`. */
  predicate IsManagedItem(v: Value) {
    v.Object? && Truthy(Get(v.fields, "card_id"))
  }

  /** The records of `item_to_card` that enter the list, in dict order. */
  function ItemRecords(items: map<string, Value>, order: seq<string>): (r: seq<Value>)
    ensures forall v :: v in r <==> IsManagedItem(v) && exists k :: k in order && k in items && items[k] == v
  {
    if order == [] then []
    else
      var rest := ItemRecords(items, order[1..]);
      var k := order[0];
      assert forall j :: j in order <==> j == k || j in order[1..];
      if k in items && IsManagedItem(items[k]) then [items[k]] + rest else rest
  }

  /** The record the program synthesises for a card it manages without an item record. */
  function Synthetic(cardId: string, origin: string): (r: Value)
    ensures r.Object? && IsManagedItem(r) == (cardId != "")
    ensures CardIdOf(r) == cardId
    ensures RecordOf(r) == CardRecord(cardId, Active, false, origin, "", "", "")
  {
    Object(map["card_id" := Str(cardId), "status" := Str("active"), "locked" := Bool(false), "origin_list_id" := Str(origin)])
  }

  /** `str(state.course_to_list.get(course_id, ""))`: the list a course-info card was created in. */
  function CourseOrigin(s: SyncState, courseId: string): string {
    PyStr(GetOr(s.courseToList, courseId, Str("")))
  }

  /** The record for the course-info card of a course. */
  function CourseInfoRecord(s: SyncState, courseId: string): Value
    requires courseId in s.courseInfoCard
  {
    Synthetic(PyStr(s.courseInfoCard[courseId]), CourseOrigin(s, courseId))
  }

  /** One record per course-info card, in dict order. */
  function CourseInfoRecords(s: SyncState, order: seq<string>): (r: seq<Value>)
    ensures forall v :: v in r <==> exists cid :: cid in order && cid in s.courseInfoCard && v == CourseInfoRecord(s, cid)
  {
    if order == [] then []
    else
      var rest := CourseInfoRecords(s, order[1..]);
      var cid := order[0];
      assert forall j :: j in order <==> j == cid || j in order[1..];
      if cid in s.courseInfoCard then [CourseInfoRecord(s, cid)] + rest else rest
  }

  function TokenListId(meta: map<string, Value>): string {
    TextField(Get(meta, "token_list_id"))
  }

  function TokenCardId(meta: map<string, Value>): string {
    TextField(Get(meta, "token_card_id"))
  }

  function LastSyncCardId(meta: map<string, Value>): string {
    TextField(Get(meta, "last_sync_card_id"))
  }

  /** Records for the token card and the last-sync card, each added when its id is set, both created in the token list. */
  function TokenRecords(meta: map<string, Value>): (r: seq<Value>)
    ensures forall v :: v in r <==>
      || (TokenCardId(meta) != "" && v == Synthetic(TokenCardId(meta), TokenListId(meta)))
      || (LastSyncCardId(meta) != "" && v == Synthetic(LastSyncCardId(meta), TokenListId(meta)))
    ensures LastSyncCardId(meta) != "" ==> r != [] && r[|r| - 1] == Synthetic(LastSyncCardId(meta), TokenListId(meta))
  {
    var origin := TokenListId(meta);
    (if TokenCardId(meta) != "" then [Synthetic(TokenCardId(meta), origin)] else [])
    + (if LastSyncCardId(meta) != "" then [Synthetic(LastSyncCardId(meta), origin)] else [])
  }

  /** `managed_cards`: item records, then course-info cards, then the token and last-sync cards. */
  function ManagedCards(s: SyncState, orders: Orders): (r: seq<Value>)
    ensures forall v :: v in r <==>
      (v in ItemRecords(s.itemToCard, orders.items) || v in CourseInfoRecords(s, orders.courses) || v in TokenRecords(s.meta))
  {
    ItemRecords(s.itemToCard, orders.items) + CourseInfoRecords(s, orders.courses) + TokenRecords(s.meta)
  }

  /** The card ids the state names: item records that are dicts, course-info cards, and the token and last-sync cards. */
  predicate ManagesCard(s: SyncState, id: string) {
    || (exists k :: k in s.itemToCard && s.itemToCard[k].Object? && CardIdOf(s.itemToCard[k]) == id)
    || (exists cid :: cid in s.courseInfoCard && PyStr(s.courseInfoCard[cid]) == id)
    || id == TokenCardId(s.meta) || id == LastSyncCardId(s.meta)
  }

  /** Some record of the list carries the card id. */
  predicate Carries(managed: seq<Value>, id: string) {
    exists v :: v in managed && CardIdOf(v) == id
  }

  lemma CarriesIndex(managed: seq<Value>, id: string)
    ensures Carries(managed, id) <==> exists i :: 0 <= i < |managed| && CardIdOf(managed[i]) == id
  {
    if Carries(managed, id) {
      var v :| v in managed && CardIdOf(v) == id;
      var i :| 0 <= i < |managed| && managed[i] == v;
    }
  }

  lemma CarriesConcat(a: seq<Value>, b: seq<Value>, id: string)
    ensures Carries(a + b, id) <==> Carries(a, id) || Carries(b, id)
  {
    if Carries(a + b, id) {
      var v :| v in a + b && CardIdOf(v) == id;
    }
  }

  lemma ItemRecordsCarry(items: map<string, Value>, order: seq<string>, id: string)
    requires id != "" && forall k :: k in items ==> k in order
    ensures Carries(ItemRecords(items, order), id) <==>
      exists k :: k in items && items[k].Object? && CardIdOf(items[k]) == id
  {
    var r := ItemRecords(items, order);
    if exists k :: k in items && items[k].Object? && CardIdOf(items[k]) == id {
      var k :| k in items && items[k].Object? && CardIdOf(items[k]) == id;
      assert items[k] in r;
    }
  }

  lemma CourseInfoRecordsCarry(s: SyncState, order: seq<string>, id: string)
    requires forall cid :: cid in s.courseInfoCard ==> cid in order
    ensures Carries(CourseInfoRecords(s, order), id) <==>
      exists cid :: cid in s.courseInfoCard && PyStr(s.courseInfoCard[cid]) == id
  {
    var r := CourseInfoRecords(s, order);
    if exists cid :: cid in s.courseInfoCard && PyStr(s.courseInfoCard[cid]) == id {
      var cid :| cid in s.courseInfoCard && PyStr(s.courseInfoCard[cid]) == id;
      assert CourseInfoRecord(s, cid) in r;
    }
    if Carries(r, id) {
      var v :| v in r && CardIdOf(v) == id;
      var cid :| cid in order && cid in s.courseInfoCard && v == CourseInfoRecord(s, cid);
    }
  }

  lemma TokenRecordsCarry(meta: map<string, Value>, id: string)
    requires id != ""
    ensures Carries(TokenRecords(meta), id) <==> id == TokenCardId(meta) || id == LastSyncCardId(meta)
  {
    if id == TokenCardId(meta) || id == LastSyncCardId(meta) {
      assert Synthetic(id, TokenListId(meta)) in TokenRecords(meta);
    }
  }

  /**
   * The card ids `wipe_managed` may archive: card ids of the item records that are
   * dicts, the course-info cards, and the token and last-sync cards when set.
   */
  lemma EligibleCardIds(s: SyncState, orders: Orders, id: string)
    requires OrdersFit(orders, s)
    ensures id in EligibleIndex(ManagedCards(s, orders)) <==> (id != "" && ManagesCard(s, id))
  {
    var items := ItemRecords(s.itemToCard, orders.items);
    var courses := CourseInfoRecords(s, orders.courses);
    var tokens := TokenRecords(s.meta);
    var m := ManagedCards(s, orders);
    assert m == items + courses + tokens;
    LastWinsKeys(m, CardIdOf, RecordOf, id);
    CarriesIndex(m, id);
    if id != "" {
      CarriesConcat(items + courses, tokens, id);
      CarriesConcat(items, courses, id);
      ItemRecordsCarry(s.itemToCard, orders.items, id);
      CourseInfoRecordsCarry(s, orders.courses, id);
      TokenRecordsCarry(s.meta, id);
    }
  }

  /**
   * The last-sync card comes last, so its synthetic record decides: it is archived
   * exactly when it is open in the token list, or anywhere when no token list is recorded.
   */
  lemma LastSyncCardArchived(s: SyncState, orders: Orders, open: seq<OpenCard>, live: map<string, LiveCard>,
                             parse: string -> Option<int>)
    requires LastSyncCardId(s.meta) != ""
    ensures LastSyncCardId(s.meta) in ArchivedCards(open, EligibleIndex(ManagedCards(s, orders)), live, parse)
      <==> exists c :: c in open && c.id == LastSyncCardId(s.meta) && (TokenListId(s.meta) == "" || c.listId == TokenListId(s.meta))
  {
    var m := ManagedCards(s, orders);
    var id := LastSyncCardId(s.meta);
    var tokens := TokenRecords(s.meta);
    assert m[|m| - 1] == tokens[|tokens| - 1];
    LastWinsValue(m, CardIdOf, RecordOf, |m| - 1);
    ArchivedCardsExactly(open, EligibleIndex(m), live, parse, id);
  }

  // ---------------------------------------------------------------------------
  // Lists handed to `wipe_managed`

  /** `state.meta.get("protected_list_ids", [])`, replaced by `[]` when it is not a list. */
  function ProtectedIds(meta: map<string, Value>): (r: seq<Value>)
    ensures GetOr(meta, "protected_list_ids", List([])).List? ==> r == GetOr(meta, "protected_list_ids", List([])).items
    ensures !GetOr(meta, "protected_list_ids", List([])).List? ==> r == []
  {
    var p := GetOr(meta, "protected_list_ids", List([]));
    if p.List? then p.items else []
  }

  /** `managed_list_ids`: the flagged lists whose id string is not itself in the protected list, in dict order. */
  function ManagedLists(flags: map<string, Value>, order: seq<string>, protected: seq<Value>): (r: seq<Value>)
    ensures forall v :: v in r <==> exists lid :: lid in order && lid in flags && Truthy(flags[lid]) && Str(lid) !in protected && v == Str(lid)
  {
    if order == [] then []
    else
      var rest := ManagedLists(flags, order[1..], protected);
      var lid := order[0];
      assert forall j :: j in order <==> j == lid || j in order[1..];
      if lid in flags && Truthy(flags[lid]) && Str(lid) !in protected then [Str(lid)] + rest else rest
  }

  /**
   * The lists `wipe_managed` considers: flagged, non-blank, and not protected, where
   * a protected entry of any type counts through its string form. The filter in the
   * caller only drops ids the callee would drop anyway.
   */
  lemma {:induction false} CandidateLists(flags: map<string, Value>, order: seq<string>, protected: seq<Value>)
    requires forall lid :: lid in flags ==> lid in order
    ensures Candidates(ManagedLists(flags, order, protected), protected)
      == (set lid | lid in flags && lid != "" && Truthy(flags[lid])) - IdSet(protected)
  {
    var lists := ManagedLists(flags, order, protected);
    var rhs := (set lid | lid in flags && lid != "" && Truthy(flags[lid])) - IdSet(protected);
    forall lid | lid in rhs ensures lid in IdSet(lists) {
      assert Str(lid) in protected ==> PyStr(Str(lid)) in IdSet(protected);
      assert Str(lid) in lists;
      assert PyStr(Str(lid)) in IdSet(lists);
    }
    forall l | l in IdSet(lists) ensures l in flags && l != "" && Truthy(flags[l]) {
      var v :| v in lists && Truthy(v) && PyStr(v) == l;
    }
  }

  // ---------------------------------------------------------------------------
  // Pruning the state after the wipe

  /** Why the wipe branch stops. */
  datatype CliError =
    | ConfirmMismatch(boardId: string) // `--wipe-board-confirm` differs from the resolved board id
    | StateUnreadable(cause: LoadError) // the state file cannot be loaded
    | UnhashableListId                 // a `course_to_list` value is a list or dict, so `in archived_lists` raises
    | RecordNotAnObject                // an `item_to_card` value has no `.get`
      /** Pruning raised after the archive requests had gone out; the state file is not rewritten. */
    | WipeInterrupted(archivedCards: seq<string>, archivedLists: set<string>, pruneError: CliError)

  /** A `course_to_list` value that names one of the archived lists. */
  predicate PointsInto(v: Value, lists: set<string>) {
    v.Str? && v.s in lists
  }

  predicate Hashable(v: Value) {
    !v.List? && !v.Object?
  }

  /** Lines 185-197: drop the entries that refer to archived lists and cards; `meta` is kept. */
  function Prune(s: SyncState, cards: set<string>, lists: set<string>): (r: Result<SyncState, CliError>)
    ensures r.Success? <==>
      && (lists == {} || forall cid :: cid in s.courseToList ==> Hashable(s.courseToList[cid]))
      && (forall k :: k in s.itemToCard ==> s.itemToCard[k].Object?)
    ensures r.Success? ==> r.value.meta == s.meta
    ensures r.Success? ==> forall cid :: cid in r.value.courseToList <==>
      cid in s.courseToList && !PointsInto(s.courseToList[cid], lists)
    ensures r.Success? ==> forall lid :: lid in r.value.managedListIds <==> lid in s.managedListIds && lid !in lists
    ensures r.Success? ==> forall k :: k in r.value.itemToCard <==> k in s.itemToCard && CardIdOf(s.itemToCard[k]) !in cards
    ensures r.Success? ==> forall cid :: cid in r.value.courseInfoCard <==>
      cid in s.courseInfoCard && TextField(s.courseInfoCard[cid]) !in cards
    ensures r.Success? ==> forall cid :: cid in r.value.courseToList ==> r.value.courseToList[cid] == s.courseToList[cid]
    ensures r.Success? ==> forall lid :: lid in r.value.managedListIds ==> r.value.managedListIds[lid] == s.managedListIds[lid]
    ensures r.Success? ==> forall k :: k in r.value.itemToCard ==> r.value.itemToCard[k] == s.itemToCard[k]
    ensures r.Success? ==> forall cid :: cid in r.value.courseInfoCard ==> r.value.courseInfoCard[cid] == s.courseInfoCard[cid]
  {
    if lists != {} && exists cid :: cid in s.courseToList && !Hashable(s.courseToList[cid]) then Failure(UnhashableListId)
    else if exists k :: k in s.itemToCard && !s.itemToCard[k].Object? then Failure(RecordNotAnObject)
    else
      var courseToList := if lists == {} then s.courseToList
        else map cid | cid in s.courseToList && !PointsInto(s.courseToList[cid], lists) :: s.courseToList[cid];
      var managedListIds := map lid | lid in s.managedListIds && lid !in lists :: s.managedListIds[lid];
      var items := map k | k in s.itemToCard && CardIdOf(s.itemToCard[k]) !in cards :: s.itemToCard[k];
      var courseInfo := map cid | cid in s.courseInfoCard && TextField(s.courseInfoCard[cid]) !in cards :: s.courseInfoCard[cid];
      Success(SyncState(courseToList, items, managedListIds, courseInfo, s.meta))
  }

  /** With nothing archived, pruning changes nothing. */
  lemma PruneNothingArchived(s: SyncState)
    requires forall k :: k in s.itemToCard ==> s.itemToCard[k].Object?
    ensures Prune(s, {}, {}) == Success(s)
  {
    var r := Prune(s, {}, {}).value;
    assert r.managedListIds == s.managedListIds;
    assert r.itemToCard == s.itemToCard;
    assert r.courseInfoCard == s.courseInfoCard;
  }

  /** Pruning again with the same archived ids changes nothing more. */
  lemma PruneIdempotent(s: SyncState, cards: set<string>, lists: set<string>)
    requires Prune(s, cards, lists).Success?
    ensures Prune(Prune(s, cards, lists).value, cards, lists) == Prune(s, cards, lists)
  {
    var r := Prune(s, cards, lists).value;
    var r2 := Prune(r, cards, lists).value;
    assert r2.courseToList == r.courseToList;
    assert r2.managedListIds == r.managedListIds;
    assert r2.itemToCard == r.itemToCard;
    assert r2.courseInfoCard == r.courseInfoCard;
  }

  /** Pruning keeps every record in the current schema, so the saved state loads back unchanged. */
  lemma PrunedStateReloads(s: SyncState, cards: set<string>, lists: set<string>)
    requires IsCurrent(s) && Prune(s, cards, lists).Success?
    ensures Load(Some(Saved(Prune(s, cards, lists).value))) == Success(Prune(s, cards, lists).value)
  {
    var r := Prune(s, cards, lists).value;
    assert IsCurrent(r) by {
      forall k | k in r.itemToCard ensures IsCurrentRecord(r.itemToCard[k]) {
        assert r.itemToCard[k] == s.itemToCard[k];
      }
    }
    SaveLoadRoundTrip(r);
  }

  /**
   * Once a course's list is archived, the course drops out of `course_to_list`, so
   * a later wipe gives its course-info card a blank origin and archives it from any list.
   */
  lemma ArchivedCourseListForgetsOrigin(s: SyncState, cards: set<string>, lists: set<string>, courseId: string)
    requires Prune(s, cards, lists).Success?
    requires courseId in s.courseToList && PointsInto(s.courseToList[courseId], lists)
    ensures CourseOrigin(Prune(s, cards, lists).value, courseId) == ""
  {
  }

  /**
   * Two wipes with no sync between them. Course `c1` has list `L` and its course-info
   * card `K`, which someone moved to list `M`. The first wipe leaves `K` alone (it
   * moved) and archives the now-empty `L`; pruning then drops `c1` from
   * `course_to_list`, so the second wipe sees `K` with a blank origin and archives it.
   */
  lemma SecondWipeArchivesMovedCourseInfoCard()
    ensures var s := SyncState(map["c1" := Str("L")], map[], map["L" := Bool(true)], map["c1" := Str("K")], map[]);
      var board := Board([OpenCard("K", "M")], map[], [OpenCard("K", "M")]);
      var parse := (t: string) => None;
      && WipeCards(s, Orders([], ["c1"], ["L"]), board, parse) == []
      && WipeLists(s, Orders([], ["c1"], ["L"]), board) == {"L"}
      && Prune(s, {}, {"L"}).Success?
      && WipeCards(Prune(s, {}, {"L"}).value, Orders([], ["c1"], []), board, parse) == ["K"]
  {
    var s := SyncState(map["c1" := Str("L")], map[], map["L" := Bool(true)], map["c1" := Str("K")], map[]);
    var board := Board([OpenCard("K", "M")], map[], [OpenCard("K", "M")]);
    var parse := (t: string) => None;
    OnlyCourseInfoCardArchived(s, "L", "M", ["L"], board, parse);
    PruneForgetsCourse(s);
    OnlyCourseInfoCardArchived(Prune(s, {}, {"L"}).value, "", "M", [], board, parse);
    OnlyListArchived(s, board);
  }

  lemma PruneForgetsCourse(s: SyncState)
    requires s == SyncState(map["c1" := Str("L")], map[], map["L" := Bool(true)], map["c1" := Str("K")], map[])
    ensures Prune(s, {}, {"L"}) == Success(SyncState(map[], map[], map[], map["c1" := Str("K")], map[]))
  {
    var p := Prune(s, {}, {"L"});
    assert p.Success?;
    assert p.value.courseToList == map[];
    assert p.value.managedListIds == map[];
    assert p.value.itemToCard == map[];
    assert p.value.courseInfoCard == map["c1" := Str("K")];
  }

  lemma OnlyListArchived(s: SyncState, board: Board)
    requires s.managedListIds == map["L" := Bool(true)] && s.meta == map[]
    requires board.remaining == [OpenCard("K", "M")]
    ensures WipeLists(s, Orders([], ["c1"], ["L"]), board) == {"L"}
  {
    assert ProtectedIds(s.meta) == [];
    assert ManagedLists(s.managedListIds, ["L"], []) == [Str("L")] by {
      assert ["L"][1..] == [];
    }
    assert IdSet([Str("L")]) == {"L"} by {
      assert Str("L") in [Str("L")] && Truthy(Str("L")) && PyStr(Str("L")) == "L";
    }
    assert IdSet([]) == {};
    assert ListsWithCards(board.remaining) == {"M"};
  }

  /**
   * A state whose only managed card is the course-info card `K` of `c1`, created in
   * `origin`, with `K` open in `at`: the wipe archives `K` exactly when the origin is
   * blank or is `at`.
   */
  lemma OnlyCourseInfoCardArchived(s: SyncState, origin: string, at: string, lists: seq<string>, board: Board,
                                   parse: string -> Option<int>)
    requires s.itemToCard == map[] && s.courseInfoCard == map["c1" := Str("K")] && s.meta == map[]
    requires CourseOrigin(s, "c1") == origin
    requires board.open == [OpenCard("K", at)]
    ensures WipeCards(s, Orders([], ["c1"], lists), board, parse) == if origin == "" || origin == at then ["K"] else []
  {
    var v := Synthetic("K", origin);
    assert ItemRecords(s.itemToCard, []) == [];
    assert CourseInfoRecord(s, "c1") == v;
    assert CourseInfoRecords(s, ["c1"]) == [v] by {
      assert ["c1"][1..] == [];
    }
    assert TokenCardId(s.meta) == "" && LastSyncCardId(s.meta) == "";
    assert TokenRecords(s.meta) == [];
    assert ManagedCards(s, Orders([], ["c1"], lists)) == [v];
    var index := map["K" := CardRecord("K", Active, false, origin, "", "", "")];
    assert EligibleIndex([v]) == index by {
      assert [v][..0] == [];
      assert LastWins([v], CardIdOf, RecordOf) == LastWins([], CardIdOf, RecordOf)[CardIdOf(v) := RecordOf(v)];
    }
    assert Archivable(OpenCard("K", at), index, board.live, parse) <==> origin == "" || origin == at;
    assert board.open[..0] == [];
    assert ArchivedCards(board.open, index, board.live, parse)
      == ArchivedCards([], index, board.live, parse) + (if origin == "" || origin == at then ["K"] else []);
  }

  // ---------------------------------------------------------------------------
  // The wipe branch

  /** The board as the wipe reads it: open cards, full cards by id, and the open cards after the card pass. */
  datatype Board = Board(open: seq<OpenCard>, live: map<string, LiveCard>, remaining: seq<OpenCard>)

  /** What a completed wipe leaves behind: the archive requests and the state written back. */
  datatype WipeOutcome = WipeOutcome(archivedCards: seq<string>, archivedLists: set<string>, pruned: SyncState, saved: Value)

  /** The ids the wipe archives, given the loaded state. */
  function WipeCards(s: SyncState, orders: Orders, board: Board, parse: string -> Option<int>): seq<string> {
    ArchivedCards(board.open, EligibleIndex(ManagedCards(s, orders)), board.live, parse)
  }

  function WipeLists(s: SyncState, orders: Orders, board: Board): set<string> {
    var protected := ProtectedIds(s.meta);
    ArchivedLists(Candidates(ManagedLists(s.managedListIds, orders.lists, protected), protected), board.remaining)
  }

  /**
   * Lines 134-199. The confirmation is checked before the state file is read; then
   * the managed cards and lists are assembled, the wipe decides, and the pruned
   * state is what gets saved. The archive requests go out before pruning, so when
   * pruning raises they are still part of the outcome. `orders` stands for the
   * iteration order of the loaded state's dicts; only orders that enumerate them
   * (`OrdersFit(orders, Load(file).value)`) describe a run of the program.
   */
  function WipeBoard(confirm: string, boardId: string, file: Option<Value>, orders: Orders,
                     board: Board, parse: string -> Option<int>): (r: Result<WipeOutcome, CliError>)
    ensures confirm != boardId ==> r == Failure(ConfirmMismatch(boardId))
    ensures confirm == boardId && Load(file).Failure? ==> r == Failure(StateUnreadable(Load(file).error))
    ensures confirm == boardId && Load(file).Success? ==>
      var s := Load(file).value;
      var cards := WipeCards(s, orders, board, parse);
      var lists := WipeLists(s, orders, board);
      var p := Prune(s, (set id | id in cards), lists);
      && (p.Success? ==> r == Success(WipeOutcome(cards, lists, p.value, Saved(p.value))))
      && (p.Failure? ==> r == Failure(WipeInterrupted(cards, lists, p.error)))
    ensures r.Success? ==> Load(file).Success? && r.value.pruned.meta == Load(file).value.meta
    ensures r.Success? ==> forall id :: id in r.value.archivedCards ==>
      id != "" && id in EligibleIndex(ManagedCards(Load(file).value, orders))
    ensures r.Success? ==> forall l :: l in r.value.archivedLists ==>
      && l in Load(file).value.managedListIds && Truthy(Load(file).value.managedListIds[l])
      && l !in IdSet(ProtectedIds(Load(file).value.meta))
      && forall c :: c in board.remaining ==> c.listId != l
  {
    if confirm != boardId then Failure(ConfirmMismatch(boardId))
    else match Load(file)
      case Failure(e) => Failure(StateUnreadable(e))
      case Success(s) =>
        var cards := WipeCards(s, orders, board, parse);
        var lists := WipeLists(s, orders, board);
        ArchivedAreEligible(board.open, EligibleIndex(ManagedCards(s, orders)), board.live, parse);
        ArchivedListsFlagged(s, orders, board);
        match Prune(s, (set id | id in cards), lists)
        case Failure(e) => Failure(WipeInterrupted(cards, lists, e))
        case Success(pruned) => Success(WipeOutcome(cards, lists, pruned, Saved(pruned)))
  }

  /** The archive requests a wipe sent: those of a completed or interrupted wipe, none otherwise. */
  function CardRequests(r: Result<WipeOutcome, CliError>): seq<string> {
    if r.Success? then r.value.archivedCards
    else if r.error.WipeInterrupted? then r.error.archivedCards
    else []
  }

  function ListRequests(r: Result<WipeOutcome, CliError>): set<string> {
    if r.Success? then r.value.archivedLists
    else if r.error.WipeInterrupted? then r.error.archivedLists
    else {}
  }

  /**
   * A card is archived exactly when the confirmation matches, the state loads, and
   * the card is open and archivable against the record that wins for its id: not
   * locked, active, still in the list it was created in (or with no list recorded),
   * and unedited since the last render. This holds whether or not pruning succeeds.
   */
  lemma WipeArchivesExactly(confirm: string, boardId: string, file: Option<Value>, orders: Orders,
                            board: Board, parse: string -> Option<int>, id: string)
    ensures id in CardRequests(WipeBoard(confirm, boardId, file, orders, board, parse)) <==>
      && confirm == boardId && Load(file).Success?
      && (exists c :: c in board.open && c.id == id
            && Archivable(c, EligibleIndex(ManagedCards(Load(file).value, orders)), board.live, parse))
  {
    if confirm == boardId && Load(file).Success? {
      var s := Load(file).value;
      assert CardRequests(WipeBoard(confirm, boardId, file, orders, board, parse)) == WipeCards(s, orders, board, parse);
      ArchivedCardsExactly(board.open, EligibleIndex(ManagedCards(s, orders)), board.live, parse, id);
    }
  }

  /**
   * A list is archived exactly when the confirmation matches, the state loads, and
   * the list is flagged as managed, not protected, non-blank, and holds no open card
   * after the card pass.
   */
  lemma WipeArchivesListsExactly(confirm: string, boardId: string, file: Option<Value>, orders: Orders,
                                 board: Board, parse: string -> Option<int>, l: string)
    requires Load(file).Success? ==> forall lid :: lid in Load(file).value.managedListIds ==> lid in orders.lists
    ensures l in ListRequests(WipeBoard(confirm, boardId, file, orders, board, parse)) <==>
      && confirm == boardId && Load(file).Success?
      && l in Load(file).value.managedListIds && l != "" && Truthy(Load(file).value.managedListIds[l])
      && l !in IdSet(ProtectedIds(Load(file).value.meta))
      && forall c :: c in board.remaining ==> c.listId != l
  {
    if confirm == boardId && Load(file).Success? {
      var s := Load(file).value;
      var protected := ProtectedIds(s.meta);
      assert ListRequests(WipeBoard(confirm, boardId, file, orders, board, parse)) == WipeLists(s, orders, board);
      CandidateLists(s.managedListIds, orders.lists, protected);
    }
  }

  /**
   * The state a completed wipe saves names none of the archived cards or lists,
   * and keeps every entry that names neither.
   */
  lemma WipeForgetsArchived(confirm: string, boardId: string, file: Option<Value>, orders: Orders,
                            board: Board, parse: string -> Option<int>)
    ensures var r := WipeBoard(confirm, boardId, file, orders, board, parse);
      r.Success? ==>
        var s := Load(file).value;
        var p := r.value.pruned;
        && (forall k :: k in p.itemToCard <==> k in s.itemToCard && CardIdOf(s.itemToCard[k]) !in r.value.archivedCards)
        && (forall cid :: cid in p.courseInfoCard <==>
              cid in s.courseInfoCard && TextField(s.courseInfoCard[cid]) !in r.value.archivedCards)
        && (forall lid :: lid in p.managedListIds <==> lid in s.managedListIds && lid !in r.value.archivedLists)
        && (forall cid :: cid in p.courseToList <==>
              cid in s.courseToList && !PointsInto(s.courseToList[cid], r.value.archivedLists))
  {
  }

  lemma ArchivedAreEligible(open: seq<OpenCard>, index: map<string, CardRecord>, live: map<string, LiveCard>,
                            parse: string -> Option<int>)
    ensures forall id :: id in ArchivedCards(open, index, live, parse) ==> id != "" && id in index
  {
    forall id | id in ArchivedCards(open, index, live, parse) ensures id != "" && id in index {
      ArchivedCardsExactly(open, index, live, parse, id);
    }
  }

  lemma ArchivedListsFlagged(s: SyncState, orders: Orders, board: Board)
    ensures forall l :: l in WipeLists(s, orders, board) ==>
      && l in s.managedListIds && Truthy(s.managedListIds[l])
      && l !in IdSet(ProtectedIds(s.meta))
      && forall c :: c in board.remaining ==> c.listId != l
  {
    var protected := ProtectedIds(s.meta);
    var lists := ManagedLists(s.managedListIds, orders.lists, protected);
    forall l | l in WipeLists(s, orders, board)
      ensures l in s.managedListIds && Truthy(s.managedListIds[l])
    {
      var v :| v in lists && Truthy(v) && PyStr(v) == l;
    }
  }

  /** A successful wipe saves a state that loads back as the pruned state. */
  lemma WipeSavedStateReloads(confirm: string, boardId: string, file: Option<Value>, orders: Orders,
                              board: Board, parse: string -> Option<int>)
    ensures var r := WipeBoard(confirm, boardId, file, orders, board, parse);
      r.Success? ==> Load(Some(r.value.saved)) == Success(r.value.pruned)
  {
    if WipeBoard(confirm, boardId, file, orders, board, parse).Success? {
      var s := Load(file).value;
      if file.Some? {
        MigrateIdempotent(file.value);
      }
      assert IsCurrent(s);
      var cards := WipeCards(s, orders, board, parse);
      PrunedStateReloads(s, (set id | id in cards), WipeLists(s, orders, board));
    }
  }
}
