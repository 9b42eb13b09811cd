/**
 * The board helpers of `trello.py` that decide something without the network:
 * lookup-first list and label creation, the deterministic label colour, the label
 * map built from the board's labels, and the shortlink taken from a board URL.
 * The identifier a creating request would return is a parameter (`createdId`),
 * and the request itself is reported as an output value.
 */
module Trello {

  import opened Wrappers
  import opened Text
  import opened Index

  /** The open lists of a board, indexed both ways (`BoardLists`). */
  datatype BoardLists = BoardLists(byName: map<string, string>, byId: map<string, string>)

  /** The id `ensure_list` returns, the updated index, and whether it issued a create request. */
  datatype EnsuredList = EnsuredList(id: string, lists: BoardLists, created: bool)

  /**
   * `ensure_list`: a list already known by name is reused without any request;
   * otherwise a list is created and its id recorded in both indexes.
   */
  function EnsureList(lists: BoardLists, name: string, createdId: string): (r: EnsuredList)
    ensures name in r.lists.byName && r.lists.byName[name] == r.id
    ensures r.created <==> name !in lists.byName
    ensures !r.created ==> r.id == lists.byName[name] && r.lists == lists
    ensures r.created ==> (r.id == createdId
      && r.lists.byName == lists.byName[name := createdId]
      && r.lists.byId == lists.byId[createdId := name])
  {
    if name in lists.byName then EnsuredList(lists.byName[name], lists, false)
    else EnsuredList(createdId, BoardLists(lists.byName[name := createdId], lists.byId[createdId := name]), true)
  }

  /** Asking for the same list twice creates it at most once, and both calls return the same id. */
  lemma EnsureListIdempotent(lists: BoardLists, name: string, id1: string, id2: string)
    ensures var first := EnsureList(lists, name, id1);
      var second := EnsureList(first.lists, name, id2);
      && second.id == first.id && !second.created && second.lists == first.lists
  {
  }

  // ---------------------------------------------------------------------------
  // Labels

  datatype LabelInfo = LabelInfo(id: string, color: string)

  /** A label as the board listing returns it, with a missing name or colour read as "". */
  datatype RawLabel = RawLabel(id: string, name: string, color: string)

  /**
   * `get_board_labels` map construction: each label is filed under its stripped
   * name, unnamed labels are skipped, and a later label replaces an earlier one of
   * the same name.
   */
  function BoardLabels(raw: seq<RawLabel>): (m: map<string, LabelInfo>)
    ensures forall i :: 0 <= i < |raw| && LabelName(raw[i]) != "" ==> LabelName(raw[i]) in m
    ensures forall n :: n in m ==> n != "" && exists i :: StoredFrom(raw, m, n, i)
  {
    var m := LastWins(raw, LabelName, InfoOf);
    forall i | 0 <= i < |raw| && LabelName(raw[i]) != "" ensures LabelName(raw[i]) in m {
      LastWinsKeys(raw, LabelName, InfoOf, LabelName(raw[i]));
    }
    forall n | n in m ensures n != "" && exists i :: StoredFrom(raw, m, n, i) {
      LastWinsKeys(raw, LabelName, InfoOf, n);
      LastWinsFrom(raw, LabelName, InfoOf, n);
      var i :| 0 <= i < |raw| && LabelName(raw[i]) == n && IsLast(raw, LabelName, i) && m[n] == InfoOf(raw[i]);
      assert StoredFrom(raw, m, n, i);
    }
    m
  }

  /** The entry for `n` in `m` comes from the label at `i`, the last one named `n`. */
  predicate StoredFrom(raw: seq<RawLabel>, m: map<string, LabelInfo>, n: string, i: int) {
    && 0 <= i < |raw| && LabelName(raw[i]) == n && IsLast(raw, LabelName, i)
    && n in m && m[n] == LabelInfo(raw[i].id, raw[i].color)
  }

  /** The key a label is filed under: its stripped name. */
  function LabelName(l: RawLabel): string {
    Strip(l.name)
  }

  function InfoOf(l: RawLabel): LabelInfo {
    LabelInfo(l.id, l.color)
  }

  /** The entry for a name is the last label carrying that name. */
  lemma BoardLabelsLastWins(raw: seq<RawLabel>, i: int)
    requires 0 <= i < |raw| && LabelName(raw[i]) != "" && IsLast(raw, LabelName, i)
    ensures BoardLabels(raw)[LabelName(raw[i])] == LabelInfo(raw[i].id, raw[i].color)
  {
    LastWinsValue(raw, LabelName, InfoOf, i);
  }

  /** The fixed palette new labels draw from, in the order the hash indexes it. */
  const Palette: seq<string> := ["green", "yellow", "orange", "red", "purple", "blue", "sky", "lime", "pink", "black"]

  /** A byte of a digest. */
  newtype Byte = b: int | 0 <= b < 256

  /**
   * `_pick_label_color`: the first byte of the name's SHA-256 digest, taken modulo
   * the palette size. The digest is the parameter `firstByte`.
   */
  function PickLabelColor(seed: string, firstByte: string -> Byte): (c: string)
    ensures c in Palette
  {
    Palette[(firstByte(seed) as int) % |Palette|]
  }

  /** The ten palette colours are distinct, so the digest byte modulo ten decides the colour. */
  lemma PaletteDistinct()
    ensures |Palette| == 10
    ensures forall i, j :: 0 <= i < j < |Palette| ==> Palette[i] != Palette[j]
  {
  }

  /** The colour a caller asked for: `(color or "").strip()`. */
  function Desired(color: Option<string>): string {
    Strip(color.GetOr(""))
  }

  /** The request `ensure_label` issues, if any. */
  datatype LabelRequest = NoRequest | UpdateColor(labelId: string, color: string) | CreateLabel(name: string, color: string)

  datatype EnsuredLabel = EnsuredLabel(id: string, labels: map<string, LabelInfo>, request: LabelRequest)

  /**
   * `ensure_label`: an existing label keeps its id and has its colour updated only
   * when a non-blank requested colour differs; a new label is created with the
   * requested colour, or else with the palette colour the name hashes to.
   */
  function EnsureLabel(labels: map<string, LabelInfo>, name: string, color: Option<string>,
                       createdId: string, firstByte: string -> Byte): (r: EnsuredLabel)
    ensures name in r.labels && r.labels[name].id == r.id
    ensures forall n :: n != name ==> (n in r.labels <==> n in labels) && (n in labels ==> r.labels[n] == labels[n])
    ensures name in labels ==> r.id == labels[name].id && !r.request.CreateLabel?
    ensures name in labels ==> (r.request.UpdateColor? <==> Desired(color) != "" && labels[name].color != Desired(color))
    ensures name in labels && r.request == NoRequest ==> r.labels == labels
    ensures name !in labels ==> r.id == createdId && r.request.CreateLabel?
    ensures name !in labels && Desired(color) != "" ==> r.labels[name].color == Desired(color)
    ensures name !in labels && Desired(color) == "" ==> r.labels[name].color == PickLabelColor(name, firstByte)
    ensures r.request.UpdateColor? ==> r.request == UpdateColor(labels[name].id, Desired(color))
    ensures r.request.UpdateColor? ==> r.request.color == r.labels[name].color != ""
    ensures r.request.CreateLabel? ==> r.request.color == r.labels[name].color && r.request.name == name
  {
    var desired := Desired(color);
    if name in labels then
      var info := labels[name];
      if desired != "" && info.color != desired then
        EnsuredLabel(info.id, labels[name := LabelInfo(info.id, desired)], UpdateColor(info.id, desired))
      else EnsuredLabel(info.id, labels, NoRequest)
    else
      var chosen := if desired != "" then desired else PickLabelColor(name, firstByte);
      EnsuredLabel(createdId, labels[name := LabelInfo(createdId, chosen)], CreateLabel(name, chosen))
  }

  /** Ensuring the same label twice with the same colour issues no request the second time. */
  lemma EnsureLabelIdempotent(labels: map<string, LabelInfo>, name: string, color: Option<string>,
                              id1: string, id2: string, firstByte: string -> Byte)
    ensures var first := EnsureLabel(labels, name, color, id1, firstByte);
      var second := EnsureLabel(first.labels, name, color, id2, firstByte);
      && second.request == NoRequest && second.id == first.id && second.labels == first.labels
  {
  }

  // ---------------------------------------------------------------------------
  // Board URL

  datatype UrlError = UnparsableBoardUrl

  /** `i` is the first "b" among the path parts and a non-blank part follows it. */
  predicate ShortlinkAt(parts: seq<string>, i: int) {
    0 <= i < |parts| - 1 && parts[i] == "b" && "b" !in parts[..i] && Strip(parts[i + 1]) != ""
  }

  /** Some path part is the first "b" and is followed by a non-blank part. */
  predicate HasShortlink(parts: seq<string>) {
    exists i :: 0 <= i < |parts| && ShortlinkAt(parts, i)
  }

  /** The index of the first part equal to `p`, if any (`list.index`). */
  function IndexOf(parts: seq<string>, p: string): (r: Option<nat>)
    ensures r.Some? ==> r.value < |parts| && parts[r.value] == p && p !in parts[..r.value]
    ensures r.None? <==> p !in parts
  {
    if parts == [] then None
    else if parts[0] == p then Some(0)
    else
      var r := IndexOf(parts[1..], p);
      assert parts == [parts[0]] + parts[1..];
      if r.None? then None
      else
        assert parts[..r.value + 1] == [parts[0]] + parts[1..][..r.value];
        Some(r.value + 1)
  }

  /** The first occurrence is found. */
  lemma IndexOfFirst(parts: seq<string>, p: string, i: int)
    requires 0 <= i < |parts| && parts[i] == p && p !in parts[..i]
    ensures IndexOf(parts, p) == Some(i)
  {
  }

  /** The stripped part after the first "b" among the path parts; an absent or blank one is an error. */
  function ShortlinkOf(parts: seq<string>): (r: Result<string, UrlError>)
    requires forall i :: 0 <= i < |parts| ==> '/' !in parts[i]
    ensures r.Success? ==> r.value != "" && '/' !in r.value && Strip(r.value) == r.value
    ensures r.Success? <==> HasShortlink(parts)
    ensures forall i :: ShortlinkAt(parts, i) ==> r == Success(Strip(parts[i + 1]))
  {
    var b := IndexOf(parts, "b");
    ShortlinkAtFirstB(parts);
    if b.Some? && b.value + 1 < |parts| && Strip(parts[b.value + 1]) != "" then
      StripIdempotent(parts[b.value + 1]);
      assert ShortlinkAt(parts, b.value);
      Success(Strip(parts[b.value + 1]))
    else
      Failure(UnparsableBoardUrl)
  }

  /** A shortlink position is where `list.index` finds the first "b". */
  lemma ShortlinkAtFirstB(parts: seq<string>)
    ensures forall i :: ShortlinkAt(parts, i) ==> IndexOf(parts, "b") == Some(i)
  {
    forall i | ShortlinkAt(parts, i) ensures IndexOf(parts, "b") == Some(i) {
      IndexOfFirst(parts, "b", i);
    }
  }

  /** The shortlink `get_board_id_from_url` reads from a board URL. */
  function BoardShortlink(url: string): (r: Result<string, UrlError>)
    ensures r.Success? ==> r.value != "" && '/' !in r.value && Strip(r.value) == r.value
    ensures r.Success? <==> HasShortlink(Split(url, '/'))
    ensures forall i :: ShortlinkAt(Split(url, '/'), i) ==> r == Success(Strip(Split(url, '/')[i + 1]))
  {
    ShortlinkOf(Split(url, '/'))
  }

  /** A board URL `…/b/<shortlink>/…` yields its shortlink. */
  lemma {:induction false} ShortlinkOfBoardUrl(before: seq<string>, shortlink: string, after: seq<string>)
    requires "b" !in before
    requires forall i :: 0 <= i < |before| ==> '/' !in before[i]
    requires forall i :: 0 <= i < |after| ==> '/' !in after[i]
    requires '/' !in shortlink && shortlink != "" && Strip(shortlink) == shortlink
    ensures BoardShortlink(Join(before + ["b", shortlink] + after, '/')) == Success(shortlink)
  {
    var parts := before + ["b", shortlink] + after;
    forall i | 0 <= i < |parts| ensures '/' !in parts[i] {
      if i < |before| { assert parts[i] == before[i]; }
      else if i >= |before| + 2 { assert parts[i] == after[i - |before| - 2]; }
    }
    SplitJoin(parts, '/');
    assert parts[|before|] == "b" && parts[|before| + 1] == shortlink;
    assert parts[..|before|] == before;
    IndexOfFirst(parts, "b", |before|);
    StripIdempotent(shortlink);
  }
}
