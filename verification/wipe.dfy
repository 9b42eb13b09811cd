/**
 * `TrelloClient.wipe_managed`: given the records of the cards the tool manages,
 * the lists it created and the lists it must never touch, decide which open cards
 * and which lists to archive. The board is read through plain inputs: the open
 * cards, the full card returned for an id (`live`), the open cards after the card
 * pass (`remaining`) and the ISO-8601 parser (`parse`, giving microseconds since
 * the epoch). Archive requests are the outputs.
 */
module Wipe {

  import opened Wrappers
  import opened Py
  import opened Text
  import opened Index

  /** The status a record carries; any status text other than "done" and "manual" counts as active. */
  datatype Status = Active | Done | Manual

  function StatusOf(s: string): Status {
    if s == "done" then Done else if s == "manual" then Manual else Active
  }

  /** One managed-card record, with each field read the way `wipe_managed` reads it. */
  datatype CardRecord = CardRecord(
    cardId: string,
    status: Status,
    locked: bool,
    originListId: string,
    renderedName: string,
    renderedDesc: string,
    renderedDue: string)

  /** The fields of a record; a record that is not a dict has none. */
  function FieldsOf(v: Value): map<string, Value> {
    if v.Object? then v.fields else map[]
  }

  /** `str(c.get("card_id") or "")`, and "" for a record that is not a dict (such records are skipped). */
  function CardIdOf(v: Value): string {
    if v.Object? then TextField(Get(v.fields, "card_id")) else ""
  }

  function RecordOf(v: Value): CardRecord {
    var f := FieldsOf(v);
    CardRecord(
      CardIdOf(v),
      StatusOf(TextField(Get(f, "status"))),
      Get(f, "locked") == Bool(true),
      TextField(Get(f, "origin_list_id")),
      TextField(Get(f, "rendered_name")),
      TextField(Get(f, "rendered_desc")),
      TextField(Get(f, "rendered_due")))
  }

  /** `eligible_cards`: dict records with a non-blank card id, the last record for an id winning. */
  function EligibleIndex(managed: seq<Value>): map<string, CardRecord> {
    LastWins(managed, CardIdOf, RecordOf)
  }

  /** An open card as the board listing returns it: `str(c.get("id") or "")` and `str(c.get("idList") or "")`. */
  datatype OpenCard = OpenCard(id: string, listId: string)

  /** The full card `get_card` returns: its name, description and due text. */
  datatype LiveCard = LiveCard(name: string, desc: string, due: string)

  // ---------------------------------------------------------------------------
  // The hand-edit test

  /** `_norm`: CR LF replaced by LF, then stripped. */
  function Norm(s: string): string {
    Strip(CrlfToLf(s))
  }

  /** `_parse_due`: no instant for blank text, otherwise what the parser gives (unparseable text gives none). */
  function ParseDue(s: string, parse: string -> Option<int>): (r: Option<int>)
    ensures s == "" ==> r == None
    ensures s != "" ==> r == parse(s)
  {
    if s == "" then None else parse(s)
  }

  /** `int(d.timestamp())` for an instant given in microseconds: whole seconds, truncated toward zero. */
  function Seconds(us: int): int {
    TruncDiv(us, 1000000)
  }

  /** `due_ok` as written: checked only when either side has due text. */
  function DueOk(renderedDue: string, liveDue: string, parse: string -> Option<int>): bool {
    if renderedDue != "" || liveDue != "" then
      var da := ParseDue(renderedDue, parse);
      var db := ParseDue(liveDue, parse);
      (da.None? && db.None?) || (da.Some? && db.Some? && Seconds(da.value) == Seconds(db.value))
    else true
  }

  /** A snapshot was recorded when any rendered field is non-blank. */
  predicate HasSnapshot(r: CardRecord) {
    r.renderedName != "" || r.renderedDesc != "" || r.renderedDue != ""
  }

  /** The live card still shows what the tool rendered. */
  predicate Unedited(r: CardRecord, live: LiveCard, parse: string -> Option<int>) {
    && Norm(live.name) == Norm(r.renderedName)
    && Norm(live.desc) == Norm(r.renderedDesc)
    && DueOk(r.renderedDue, live.due, parse)
  }

  // ---------------------------------------------------------------------------
  // The card pass

  /** The decision `wipe_managed` takes for one open card. */
  predicate Archivable(c: OpenCard, index: map<string, CardRecord>, live: map<string, LiveCard>,
                       parse: string -> Option<int>)
  {
    c.id != "" && c.id in index &&
    var r := index[c.id];
    && !r.locked && r.status == Active
    && (r.originListId == "" || c.listId == r.originListId)
    && (HasSnapshot(r) ==> c.id in live && Unedited(r, live[c.id], parse))
  }

  /** The ids the card pass archives, in board order. */
  function ArchivedCards(open: seq<OpenCard>, index: map<string, CardRecord>, live: map<string, LiveCard>,
                         parse: string -> Option<int>): seq<string>
  {
    if open == [] then []
    else
      var last := open[|open| - 1];
      var before := ArchivedCards(open[..|open| - 1], index, live, parse);
      if Archivable(last, index, live, parse) then before + [last.id] else before
  }

  // ---------------------------------------------------------------------------
  // The list pass

  /** `{str(x) for x in xs if x}`. */
  function IdSet(xs: seq<Value>): set<string> {
    set x | x in xs && Truthy(x) :: PyStr(x)
  }

  /** `managed_list_set`: managed list ids that are not protected. */
  function Candidates(managedListIds: seq<Value>, protectedListIds: seq<Value>): set<string> {
    IdSet(managedListIds) - IdSet(protectedListIds)
  }

  /** `list_has_any_cards`: the lists holding at least one of the given open cards. */
  function ListsWithCards(remaining: seq<OpenCard>): set<string> {
    set c | c in remaining && c.listId != "" :: c.listId
  }

  function ArchivedLists(candidates: set<string>, remaining: seq<OpenCard>): set<string> {
    candidates - ListsWithCards(remaining)
  }

  // ---------------------------------------------------------------------------
  // The whole pass

  /** `{str(x) for x in xs if x}`, computed as the comprehension runs. */
  method CollectIds(xs: seq<Value>) returns (ids: set<string>)
    ensures ids == IdSet(xs)
  {
    ids := {};
    var k := 0;
    while k < |xs|
      invariant 0 <= k <= |xs|
      invariant ids == IdSet(xs[..k])
    {
      if Truthy(xs[k]) {
        ids := ids + {PyStr(xs[k])};
      }
      assert xs[..k + 1] == xs[..k] + [xs[k]];
      k := k + 1;
    }
    assert xs[..k] == xs;
  }

  /** The loop that builds `eligible_cards`. */
  method BuildIndex(managed: seq<Value>) returns (index: map<string, CardRecord>)
    ensures index == EligibleIndex(managed)
  {
    index := map[];
    var k := 0;
    while k < |managed|
      invariant 0 <= k <= |managed|
      invariant index == LastWins(managed[..k], CardIdOf, RecordOf)
    {
      var cid := CardIdOf(managed[k]);
      if cid != "" {
        index := index[cid := RecordOf(managed[k])];
      }
      assert managed[..k + 1][..k] == managed[..k];
      k := k + 1;
    }
    assert managed[..k] == managed;
  }

  /** The loop over the open cards that archives the eligible, untouched ones. */
  method CardPass(open: seq<OpenCard>, index: map<string, CardRecord>, live: map<string, LiveCard>,
                  parse: string -> Option<int>) returns (archived: seq<string>)
    ensures archived == ArchivedCards(open, index, live, parse)
  {
    archived := [];
    var k := 0;
    while k < |open|
      invariant 0 <= k <= |open|
      invariant archived == ArchivedCards(open[..k], index, live, parse)
    {
      var c := open[k];
      if Archivable(c, index, live, parse) {
        archived := archived + [c.id];
      }
      assert open[..k + 1][..k] == open[..k];
      k := k + 1;
    }
    assert open[..k] == open;
  }

  /** The loops that find the lists still holding cards and archive the other candidates. */
  method ListPass(candidates: set<string>, remaining: seq<OpenCard>) returns (archived: set<string>)
    ensures archived == ArchivedLists(candidates, remaining)
  {
    var hasCards: set<string> := {};
    var k := 0;
    while k < |remaining|
      invariant 0 <= k <= |remaining|
      invariant hasCards == ListsWithCards(remaining[..k])
    {
      if remaining[k].listId != "" {
        hasCards := hasCards + {remaining[k].listId};
      }
      assert remaining[..k + 1] == remaining[..k] + [remaining[k]];
      k := k + 1;
    }
    assert remaining[..k] == remaining;

    archived := {};
    var todo := candidates;
    while todo != {}
      invariant todo <= candidates
      invariant archived == (candidates - todo) - hasCards
      decreases |todo|
    {
      var lid :| lid in todo;
      if lid !in hasCards {
        archived := archived + {lid};
      }
      todo := todo - {lid};
    }
  }

  /**
   * `wipe_managed`. `fetchedRemaining` tells whether the second listing of open
   * cards is requested (it is skipped when no list is a candidate); `remaining`
   * is what that listing returns.
   */
  method WipeManaged(managed: seq<Value>, managedListIds: seq<Value>, protectedListIds: seq<Value>,
                     open: seq<OpenCard>, live: map<string, LiveCard>, parse: string -> Option<int>,
                     remaining: seq<OpenCard>)
    returns (archivedCards: seq<string>, archivedLists: set<string>, fetchedRemaining: bool)
    ensures archivedCards == ArchivedCards(open, EligibleIndex(managed), live, parse)
    ensures fetchedRemaining <==> Candidates(managedListIds, protectedListIds) != {}
    ensures archivedLists == ArchivedLists(Candidates(managedListIds, protectedListIds), remaining)
  {
    var protected := CollectIds(protectedListIds);
    var managedSet := CollectIds(managedListIds);
    managedSet := managedSet - protected;
    var index := BuildIndex(managed);
    archivedCards := CardPass(open, index, live, parse);
    if managedSet == {} {
      return archivedCards, {}, false;
    }
    archivedLists := ListPass(managedSet, remaining);
    fetchedRemaining := true;
  }

  // ---------------------------------------------------------------------------
  // What the pass guarantees

  /** An id is archived exactly when some open card with that id passes every test. */
  lemma {:induction false} ArchivedCardsExactly(open: seq<OpenCard>, index: map<string, CardRecord>,
                                                live: map<string, LiveCard>, parse: string -> Option<int>, id: string)
    ensures id in ArchivedCards(open, index, live, parse)
      <==> exists c :: c in open && c.id == id && Archivable(c, index, live, parse)
  {
    if open != [] {
      var init := open[..|open| - 1];
      ArchivedCardsExactly(init, index, live, parse, id);
      assert open == init + [open[|open| - 1]];
    }
  }

  /** Only ids carried by some dict record can be archived, and never the blank id. */
  lemma UnmanagedNeverArchived(managed: seq<Value>, open: seq<OpenCard>, live: map<string, LiveCard>,
                               parse: string -> Option<int>, id: string)
    requires id == "" || forall i :: 0 <= i < |managed| ==> CardIdOf(managed[i]) != id
    ensures id !in ArchivedCards(open, EligibleIndex(managed), live, parse)
  {
    ArchivedCardsExactly(open, EligibleIndex(managed), live, parse, id);
    LastWinsKeys(managed, CardIdOf, RecordOf, id);
  }

  /** The record that decides the fate of the card `CardIdOf(managed[i])` is `managed[i]`, if it is the last for that id. */
  lemma DecidingRecord(managed: seq<Value>, i: int)
    requires 0 <= i < |managed| && CardIdOf(managed[i]) != "" && IsLast(managed, CardIdOf, i)
    ensures CardIdOf(managed[i]) in EligibleIndex(managed)
    ensures EligibleIndex(managed)[CardIdOf(managed[i])] == RecordOf(managed[i])
  {
    LastWinsValue(managed, CardIdOf, RecordOf, i);
  }

  /** A card whose record is locked, done or manual is never archived. */
  lemma LockedOrFinishedNeverArchived(managed: seq<Value>, open: seq<OpenCard>, live: map<string, LiveCard>,
                                      parse: string -> Option<int>, i: int)
    requires 0 <= i < |managed| && IsLast(managed, CardIdOf, i)
    requires Get(FieldsOf(managed[i]), "locked") == Bool(true)
      || TextField(Get(FieldsOf(managed[i]), "status")) in {"done", "manual"}
    ensures CardIdOf(managed[i]) !in ArchivedCards(open, EligibleIndex(managed), live, parse)
  {
    var id := CardIdOf(managed[i]);
    ArchivedCardsExactly(open, EligibleIndex(managed), live, parse, id);
    if id != "" {
      DecidingRecord(managed, i);
    }
  }

  /** A card that sits outside the list its record says it was created in is never archived. */
  lemma MovedNeverArchived(managed: seq<Value>, open: seq<OpenCard>, live: map<string, LiveCard>,
                           parse: string -> Option<int>, i: int)
    requires 0 <= i < |managed| && IsLast(managed, CardIdOf, i)
    requires TextField(Get(FieldsOf(managed[i]), "origin_list_id")) != ""
    requires forall c :: c in open && c.id == CardIdOf(managed[i]) ==>
      c.listId != TextField(Get(FieldsOf(managed[i]), "origin_list_id"))
    ensures CardIdOf(managed[i]) !in ArchivedCards(open, EligibleIndex(managed), live, parse)
  {
    var id := CardIdOf(managed[i]);
    ArchivedCardsExactly(open, EligibleIndex(managed), live, parse, id);
    if id != "" {
      DecidingRecord(managed, i);
    }
  }

  /** A card with a rendered snapshot is archived only if it can be fetched and still shows that snapshot. */
  lemma EditedNeverArchived(managed: seq<Value>, open: seq<OpenCard>, live: map<string, LiveCard>,
                            parse: string -> Option<int>, i: int)
    requires 0 <= i < |managed| && IsLast(managed, CardIdOf, i)
    requires HasSnapshot(RecordOf(managed[i]))
    requires CardIdOf(managed[i]) !in live || !Unedited(RecordOf(managed[i]), live[CardIdOf(managed[i])], parse)
    ensures CardIdOf(managed[i]) !in ArchivedCards(open, EligibleIndex(managed), live, parse)
  {
    var id := CardIdOf(managed[i]);
    ArchivedCardsExactly(open, EligibleIndex(managed), live, parse, id);
    if id != "" {
      DecidingRecord(managed, i);
    }
  }

  /** Conversely, an open card whose deciding record passes every test is archived. */
  lemma UntouchedCardArchived(managed: seq<Value>, open: seq<OpenCard>, live: map<string, LiveCard>,
                              parse: string -> Option<int>, i: int, c: OpenCard)
    requires 0 <= i < |managed| && IsLast(managed, CardIdOf, i)
    requires c in open && c.id == CardIdOf(managed[i]) && c.id != ""
    requires Get(FieldsOf(managed[i]), "locked") != Bool(true)
    requires TextField(Get(FieldsOf(managed[i]), "status")) !in {"done", "manual"}
    requires var origin := TextField(Get(FieldsOf(managed[i]), "origin_list_id")); origin == "" || c.listId == origin
    requires HasSnapshot(RecordOf(managed[i])) ==> c.id in live && Unedited(RecordOf(managed[i]), live[c.id], parse)
    ensures c.id in ArchivedCards(open, EligibleIndex(managed), live, parse)
  {
    DecidingRecord(managed, i);
    ArchivedCardsExactly(open, EligibleIndex(managed), live, parse, c.id);
  }

  /** Archived lists are managed, unprotected and empty of open cards; with no candidates nothing is archived. */
  lemma ArchivedListsSafe(managedListIds: seq<Value>, protectedListIds: seq<Value>, remaining: seq<OpenCard>, l: string)
    ensures l in ArchivedLists(Candidates(managedListIds, protectedListIds), remaining) <==>
      && (exists x :: x in managedListIds && Truthy(x) && PyStr(x) == l)
      && (forall x :: x in protectedListIds && Truthy(x) ==> PyStr(x) != l)
      && (forall c :: c in remaining ==> c.listId != l || l == "")
  {
  }

  // ---------------------------------------------------------------------------
  // Facts about the hand-edit test

  /** The guard on `due_ok` changes nothing: two blank due texts already compare equal. */
  lemma DueOkMeaning(renderedDue: string, liveDue: string, parse: string -> Option<int>)
    ensures DueOk(renderedDue, liveDue, parse) <==>
      var da := ParseDue(renderedDue, parse);
      var db := ParseDue(liveDue, parse);
      da == db || (da.Some? && db.Some? && Seconds(da.value) == Seconds(db.value))
  {
  }

  /** Instants after the epoch match when they fall in the same whole second. */
  lemma SameSecondMatches(renderedDue: string, liveDue: string, parse: string -> Option<int>)
    requires renderedDue != "" && liveDue != ""
    requires parse(renderedDue).Some? && parse(liveDue).Some?
    requires parse(renderedDue).value >= 0 && parse(liveDue).value >= 0
    ensures DueOk(renderedDue, liveDue, parse) <==>
      parse(renderedDue).value / 1000000 == parse(liveDue).value / 1000000
  {
  }

  /** Text that came back with CR LF line endings, or padded with whitespace, still counts as unedited. */
  lemma {:induction false} NormIgnoresLineEndings(t: string)
    requires '\r' !in t
    ensures Norm(LfToCrlf(t)) == Norm(t)
  {
    CrlfToLfUndoesLfToCrlf(t);
  }

  lemma NormOfTrimmed(s: string)
    requires '\r' !in s
    requires s == [] || (!IsSpace(s[0]) && !IsSpace(s[|s| - 1]))
    ensures Norm(s) == s
  {
    StripTrimmed(s);
  }
}
