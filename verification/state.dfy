/**
 * The persisted sync state (`SyncState` in `state.py`): five JSON sections, the
 * schema migration applied on load, and the object `save` writes. File access
 * is abstracted: `Load` receives the parsed file contents, or `None` when the
 * file does not exist, and `Saved` is the JSON object written to disk.
 */
module State {

  import opened Wrappers
  import opened Py

  /**
   * The five sections of the state file. Values stay JSON values because the
   * program never checks their types: `course_to_list` maps course id to list id,
   * `item_to_card` maps item key to a managed-card record, `managed_list_ids`
   * flags lists the tool created, `course_info_card` maps course id to card id and
   * `meta` is a free-form bag (token card and list ids, protected list ids).
   */
  datatype SyncState = SyncState(
    courseToList: map<string, Value>,
    itemToCard: map<string, Value>,
    managedListIds: map<string, Value>,
    courseInfoCard: map<string, Value>,
    meta: map<string, Value>)

  /** Why a state file cannot be turned into a `SyncState`. */
  datatype LoadError =
    | NotAnObject                      // the file holds a JSON value other than an object
    | SectionNotAnObject(name: string) // a section is a truthy value other than an object
    | LegacyNotAnObject                // `assignment_to_card` is a truthy value other than an object

  /** `SyncState.empty()`. */
  function Empty(): (s: SyncState)
    ensures s.courseToList == map[] && s.itemToCard == map[] && s.managedListIds == map[]
    ensures s.courseInfoCard == map[] && s.meta == map[]
  {
    SyncState(map[], map[], map[], map[], map[])
  }

  /** The sub-fields every managed-card record carries, with the defaults migration fills in. */
  const RecordDefaults: map<string, Value> := map[
    "status" := Str("active"),
    "locked" := Bool(false),
    "origin_list_id" := Str(""),
    "last_seen_list_id" := Str(""),
    "rendered_name" := Str(""),
    "rendered_desc" := Str(""),
    "rendered_due" := Str("")]

  /** A record in the current schema: an object holding every defaulted sub-field. */
  predicate IsCurrentRecord(v: Value) {
    v.Object? ==> RecordDefaults.Keys <= v.fields.Keys
  }

  /** A state whose every managed-card record is in the current schema. */
  predicate IsCurrent(s: SyncState) {
    forall k :: k in s.itemToCard ==> IsCurrentRecord(s.itemToCard[k])
  }

  /**
   * `v.setdefault(...)` for each defaulted sub-field of a record: absent sub-fields
   * get their default, present ones (even `null`) are kept. Non-objects are skipped.
   */
  function FillDefaults(v: Value): (r: Value)
    ensures IsCurrentRecord(r)
    ensures !v.Object? ==> r == v
    ensures v.Object? ==> r.Object? && r.fields.Keys == v.fields.Keys + RecordDefaults.Keys
    ensures v.Object? ==> forall f :: f in v.fields ==> r.fields[f] == v.fields[f]
    ensures v.Object? ==> forall f :: f in RecordDefaults && f !in v.fields ==> r.fields[f] == RecordDefaults[f]
  {
    if v.Object? then Object(RecordDefaults + v.fields) else v
  }

  /** Filling defaults changes nothing in a record that is already current. */
  lemma FillDefaultsCurrent(v: Value)
    requires IsCurrentRecord(v)
    ensures FillDefaults(v) == v
  {
    if v.Object? {
      assert (RecordDefaults + v.fields).Keys == v.fields.Keys;
      assert RecordDefaults + v.fields == v.fields;
    }
  }

  /** `raw.get(name, {}) or {}`; a truthy non-object is refused (see `LoadError`). */
  function Section(raw: map<string, Value>, name: string): (r: Result<map<string, Value>, LoadError>)
    ensures name !in raw || raw[name] == Null ==> r == Success(map[])
    ensures name in raw && raw[name].Object? ==> r == Success(raw[name].fields)
    ensures r.Failure? <==> name in raw && Truthy(raw[name]) && !raw[name].Object?
  {
    var v := GetOr(raw, name, Object(map[]));
    if !Truthy(v) then Success(map[])
    else if v.Object? then Success(v.fields)
    else Failure(SectionNotAnObject(name))
  }

  /** The current-schema key of a legacy `"{course_id}:{assignment_id}"` key. */
  function LegacyKey(oldKey: string): string {
    "assignment:" + oldKey
  }

  /** Legacy entries survive only with an object value and a key holding a colon. */
  predicate IsLegacyEntry(legacy: map<string, Value>, oldKey: string) {
    oldKey in legacy && legacy[oldKey].Object? && ':' in oldKey
  }

  /** The current-schema record built from a legacy `{card_id, checksum}` object. */
  function LegacyRecord(val: map<string, Value>): (r: Value)
    ensures r.Object? && IsCurrentRecord(r)
  {
    Object(map[
      "card_id" := Str(PyStr(GetOr(val, "card_id", Str("")))),
      "checksum" := Str(PyStr(GetOr(val, "checksum", Str("")))),
      "status" := Str("active"),
      "locked" := Bool(false),
      "origin_list_id" := Str(""),
      "last_seen_list_id" := Str(""),
      "rendered_name" := Str(""),
      "rendered_desc" := Str(""),
      "rendered_due" := Str("")])
  }

  lemma LegacyKeyInjective(a: string, b: string)
    ensures LegacyKey(a) == LegacyKey(b) ==> a == b
  {
    if LegacyKey(a) == LegacyKey(b) {
      assert a == LegacyKey(a)[11..] && b == LegacyKey(b)[11..];
    }
  }

  /** The rewrite of `assignment_to_card`: badly shaped entries are dropped, the rest re-keyed. */
  function MigrateLegacy(legacy: map<string, Value>): (m: map<string, Value>)
    ensures forall k :: k in m <==> exists lk :: IsLegacyEntry(legacy, lk) && k == LegacyKey(lk)
    ensures forall lk :: IsLegacyEntry(legacy, lk) ==> LegacyKey(lk) in m && m[LegacyKey(lk)] == LegacyRecord(legacy[lk].fields)
  {
    var lks := set lk | lk in legacy && IsLegacyEntry(legacy, lk);
    assert forall a, b :: a in lks && b in lks && LegacyKey(a) == LegacyKey(b) ==> a == b by {
      forall a, b | a in lks && b in lks && LegacyKey(a) == LegacyKey(b) ensures a == b {
        LegacyKeyInjective(a, b);
      }
    }
    map lk | lk in lks :: LegacyKey(lk) := LegacyRecord(legacy[lk].fields)
  }

  /** The `item_to_card` section after migration: default-filled current records, or the rewritten legacy section. */
  function MigrateItems(f: map<string, Value>): Result<map<string, Value>, LoadError> {
    var items := GetOr(f, "item_to_card", Object(map[]));
    if items.Object? && items.fields != map[] then
      Success(map k | k in items.fields :: FillDefaults(items.fields[k]))
    else
      var legacy := GetOr(f, "assignment_to_card", Object(map[]));
      if !Truthy(legacy) then Success(map[])
      else if legacy.Object? then Success(MigrateLegacy(legacy.fields))
      else Failure(LegacyNotAnObject)
  }

  /** `SyncState._migrate`. */
  function Migrate(raw: Value): Result<SyncState, LoadError> {
    if !raw.Object? then Failure(NotAnObject)
    else
      var f := raw.fields;
      var courseToList :- Section(f, "course_to_list");
      var managedListIds :- Section(f, "managed_list_ids");
      var courseInfoCard :- Section(f, "course_info_card");
      var meta :- Section(f, "meta");
      var items :- MigrateItems(f);
      Success(SyncState(courseToList, items, managedListIds, courseInfoCard, meta))
  }

  /** How a successful migration is assembled from its sections. */
  lemma MigrateParts(f: map<string, Value>)
    ensures Migrate(Object(f)).Success? <==>
      && Section(f, "course_to_list").Success? && Section(f, "managed_list_ids").Success?
      && Section(f, "course_info_card").Success? && Section(f, "meta").Success?
      && MigrateItems(f).Success?
    ensures Migrate(Object(f)).Success? ==> Migrate(Object(f)).value == SyncState(
      Section(f, "course_to_list").value, MigrateItems(f).value, Section(f, "managed_list_ids").value,
      Section(f, "course_info_card").value, Section(f, "meta").value)
  {
  }

  /** `SyncState.load`: a missing file gives the empty state, otherwise its contents are migrated. */
  function Load(file: Option<Value>): Result<SyncState, LoadError> {
    match file
    case None => Success(Empty())
    case Some(raw) => Migrate(raw)
  }

  /** The object `SyncState.save` writes: exactly the five sections. */
  function Saved(s: SyncState): (r: Value)
    ensures r.Object? && r.fields.Keys == {"course_to_list", "item_to_card", "managed_list_ids", "course_info_card", "meta"}
  {
    Object(map[
      "course_to_list" := Object(s.courseToList),
      "item_to_card" := Object(s.itemToCard),
      "managed_list_ids" := Object(s.managedListIds),
      "course_info_card" := Object(s.courseInfoCard),
      "meta" := Object(s.meta)])
  }

  // ---------------------------------------------------------------------------
  // Properties of the migration

  /**
   * The four plain sections: missing or `null` reads as an empty map, an object
   * passes through unchanged.
   */
  lemma MigrateSections(f: map<string, Value>, s: SyncState)
    requires Migrate(Object(f)) == Success(s)
    ensures "course_to_list" !in f || f["course_to_list"] == Null ==> s.courseToList == map[]
    ensures "course_to_list" in f && f["course_to_list"].Object? ==> s.courseToList == f["course_to_list"].fields
    ensures "managed_list_ids" !in f || f["managed_list_ids"] == Null ==> s.managedListIds == map[]
    ensures "managed_list_ids" in f && f["managed_list_ids"].Object? ==> s.managedListIds == f["managed_list_ids"].fields
    ensures "course_info_card" !in f || f["course_info_card"] == Null ==> s.courseInfoCard == map[]
    ensures "course_info_card" in f && f["course_info_card"].Object? ==> s.courseInfoCard == f["course_info_card"].fields
    ensures "meta" !in f || f["meta"] == Null ==> s.meta == map[]
    ensures "meta" in f && f["meta"].Object? ==> s.meta == f["meta"].fields
  {
    MigrateParts(f);
  }

  /**
   * A non-empty `item_to_card` object keeps its keys; every record object gains the
   * missing defaulted sub-fields and keeps every value it had; other entries are untouched.
   */
  lemma MigrateFillsDefaults(f: map<string, Value>, s: SyncState)
    requires "item_to_card" in f && f["item_to_card"].Object? && f["item_to_card"].fields != map[]
    requires Migrate(Object(f)) == Success(s)
    ensures s.itemToCard.Keys == f["item_to_card"].fields.Keys
    ensures IsCurrent(s)
    ensures forall k, sub :: k in s.itemToCard && s.itemToCard[k].Object? && sub in f["item_to_card"].fields[k].fields ==>
              sub in s.itemToCard[k].fields && s.itemToCard[k].fields[sub] == f["item_to_card"].fields[k].fields[sub]
    ensures forall k :: k in s.itemToCard && !f["item_to_card"].fields[k].Object? ==> s.itemToCard[k] == f["item_to_card"].fields[k]
  {
    MigrateParts(f);
  }

  /** When `item_to_card` is a non-empty object, whatever `assignment_to_card` holds is ignored. */
  lemma LegacyIgnoredWhenCurrent(f: map<string, Value>, legacy: Value)
    requires "item_to_card" in f && f["item_to_card"].Object? && f["item_to_card"].fields != map[]
    ensures Migrate(Object(f["assignment_to_card" := legacy])) == Migrate(Object(f))
  {
    var g := f["assignment_to_card" := legacy];
    assert MigrateItems(g) == MigrateItems(f);
    assert forall n :: n != "assignment_to_card" ==> Section(g, n) == Section(f, n);
    MigrateParts(f);
    MigrateParts(g);
  }

  /** The fields of a record rewritten from a legacy entry. */
  lemma LegacyRecordFields(val: map<string, Value>)
    ensures var r := LegacyRecord(val).fields;
      && r.Keys == RecordDefaults.Keys + {"card_id", "checksum"}
      && r["status"] == Str("active") && r["locked"] == Bool(false)
      && r["origin_list_id"] == Str("") && r["last_seen_list_id"] == Str("")
      && r["rendered_name"] == Str("") && r["rendered_desc"] == Str("") && r["rendered_due"] == Str("")
      && r["card_id"] == Str(PyStr(GetOr(val, "card_id", Str(""))))
      && r["checksum"] == Str(PyStr(GetOr(val, "checksum", Str(""))))
  {
    var r := LegacyRecord(val).fields;
    assert r.Keys == {"card_id", "checksum", "status", "locked", "origin_list_id", "last_seen_list_id",
                      "rendered_name", "rendered_desc", "rendered_due"};
    assert RecordDefaults.Keys == {"status", "locked", "origin_list_id", "last_seen_list_id",
                                   "rendered_name", "rendered_desc", "rendered_due"};
  }

  /**
   * The legacy path: with no current items, each legacy object entry under a key
   * with a colon becomes an active, unlocked record at `"assignment:" + key`, with
   * empty origin, last-seen and rendered fields and `card_id`/`checksum` passed
   * through `str`; every other entry is dropped, and the migration does not fail.
   */
  lemma MigrateLegacyEntries(f: map<string, Value>, s: SyncState)
    requires !("item_to_card" in f && f["item_to_card"].Object? && f["item_to_card"].fields != map[])
    requires "assignment_to_card" in f && f["assignment_to_card"].Object?
    requires Migrate(Object(f)) == Success(s)
    ensures var legacy := f["assignment_to_card"].fields;
      && (forall k :: k in s.itemToCard <==> exists lk :: IsLegacyEntry(legacy, lk) && k == LegacyKey(lk))
      && (forall lk :: IsLegacyEntry(legacy, lk) ==> s.itemToCard[LegacyKey(lk)] == LegacyRecord(legacy[lk].fields))
  {
    MigrateParts(f);
    var legacy := f["assignment_to_card"].fields;
    var items := GetOr(f, "item_to_card", Object(map[]));
    assert !(items.Object? && items.fields != map[]);
    assert GetOr(f, "assignment_to_card", Object(map[])) == Object(legacy);
    if legacy == map[] {
      assert MigrateItems(f) == Success(map[]);
      assert forall lk :: !IsLegacyEntry(legacy, lk);
    } else {
      assert Truthy(Object(legacy));
      assert MigrateItems(f) == Success(MigrateLegacy(legacy));
    }
  }

  /** Badly shaped legacy entries never make the migration fail: only the shapes of the sections can. */
  lemma MigrateFailsOnlyOnShape(f: map<string, Value>)
    requires forall n :: n in f && Truthy(f[n]) && n != "item_to_card" ==> f[n].Object?
    ensures Migrate(Object(f)).Success?
  {
    MigrateParts(f);
  }

  /** The legacy example: `"101:555": {card_id: "c1", checksum: "x"}` becomes `"assignment:101:555"`. */
  lemma LegacyExample()
    ensures var legacy := map["101:555" := Object(map["card_id" := Str("c1"), "checksum" := Str("x")])];
      var s := Migrate(Object(map["assignment_to_card" := Object(legacy)]));
      && s.Success?
      && s.value.itemToCard.Keys == {"assignment:101:555"}
      && s.value.itemToCard["assignment:101:555"] == Object(map[
           "card_id" := Str("c1"), "checksum" := Str("x"), "status" := Str("active"),
           "locked" := Bool(false), "origin_list_id" := Str(""), "last_seen_list_id" := Str(""),
           "rendered_name" := Str(""), "rendered_desc" := Str(""), "rendered_due" := Str("")])
  {
    var val := map["card_id" := Str("c1"), "checksum" := Str("x")];
    var legacy := map["101:555" := Object(val)];
    var f := map["assignment_to_card" := Object(legacy)];
    assert "101:555"[3] == ':';
    assert IsLegacyEntry(legacy, "101:555");
    assert LegacyKey("101:555") == "assignment:101:555";
    assert forall lk :: IsLegacyEntry(legacy, lk) ==> lk == "101:555";
    assert forall n :: n in f ==> n == "assignment_to_card";
    MigrateFailsOnlyOnShape(f);
    var s := Migrate(Object(f)).value;
    MigrateLegacyEntries(f, s);
    assert s.itemToCard.Keys == {"assignment:101:555"};
    assert GetOr(val, "card_id", Str("")) == Str("c1");
    assert GetOr(val, "checksum", Str("")) == Str("x");
  }

  /** The four plain sections of a saved object read back as they were. */
  lemma SavedSections(s: SyncState)
    ensures Section(Saved(s).fields, "course_to_list") == Success(s.courseToList)
    ensures Section(Saved(s).fields, "managed_list_ids") == Success(s.managedListIds)
    ensures Section(Saved(s).fields, "course_info_card") == Success(s.courseInfoCard)
    ensures Section(Saved(s).fields, "meta") == Success(s.meta)
  {
    var f := Saved(s).fields;
    assert f["course_to_list"] == Object(s.courseToList);
    assert f["managed_list_ids"] == Object(s.managedListIds);
    assert f["course_info_card"] == Object(s.courseInfoCard);
    assert f["meta"] == Object(s.meta);
  }

  /** The saved records of a current-schema state read back unchanged. */
  lemma SavedItems(s: SyncState)
    requires IsCurrent(s)
    ensures MigrateItems(Saved(s).fields) == Success(s.itemToCard)
  {
    var f := Saved(s).fields;
    assert f["item_to_card"] == Object(s.itemToCard);
    assert "assignment_to_card" !in f;
    if s.itemToCard != map[] {
      var filled := map k | k in s.itemToCard :: FillDefaults(s.itemToCard[k]);
      forall k | k in s.itemToCard ensures filled[k] == s.itemToCard[k] {
        FillDefaultsCurrent(s.itemToCard[k]);
      }
      assert filled == s.itemToCard;
    }
  }

  /** Saving then loading a current-schema state gives it back field for field. */
  lemma {:induction false} SaveLoadRoundTrip(s: SyncState)
    requires IsCurrent(s)
    ensures Load(Some(Saved(s))) == Success(s)
  {
    SavedSections(s);
    SavedItems(s);
    MigrateParts(Saved(s).fields);
  }

  /** A migrated state is current, so saving and reloading it changes nothing: migration is idempotent. */
  lemma {:induction false} MigrateIdempotent(raw: Value)
    requires Migrate(raw).Success?
    ensures IsCurrent(Migrate(raw).value)
    ensures Load(Some(Saved(Migrate(raw).value))) == Migrate(raw)
  {
    var s := Migrate(raw).value;
    MigrateParts(raw.fields);
    assert IsCurrent(s);
    SaveLoadRoundTrip(s);
  }
}
