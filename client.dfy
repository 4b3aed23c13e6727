/**
 * The part of public/app.js with state and invariants: the `#save-prizes`
 * handler's weight clamp and its update/create/delete diff of the edited
 * prize table against `state.prizes` at the moment Save is pressed, and
 * `ensureDeviceId`.
 */
module Client {
  import opened JsBuiltins

  /** One table row as the `#save-prizes` handler reads it back. */
  datatype EditedRow = EditedRow(id: int, title: string, videoUrl: string, percent: real, enabled: bool)

  /** One entry of `ops`. */
  datatype Op =
    | Update(id: int, title: string, videoUrl: string, weight: int, enabled: bool)
    | Create(title: string, videoUrl: string, weight: int, enabled: bool)
    | Delete(id: int)

  /** The integer weight saved for a row: 0 when disabled or not positive,
      otherwise its percent rounded. */
  function SavedWeight(e: EditedRow): (w: int)
    ensures w >= 0
    ensures !e.enabled || e.percent <= 0.0 ==> w == 0
    ensures e.enabled && e.percent > 0.0 ==> e.percent - 0.5 < w as real <= e.percent + 0.5
  {
    Round(if e.enabled then (if e.percent <= 0.0 then 0.0 else e.percent) else 0.0)
  }

  /** `edited.map(x => ({...x, weight}))`: each row with its saved weight. */
  function WithWeights(edited: seq<EditedRow>): (r: seq<(EditedRow, int)>)
  {
    seq(|edited|, i requires 0 <= i < |edited| => (edited[i], SavedWeight(edited[i])))
  }

  ghost predicate NoDuplicates(s: seq<int>)
  {
    forall i, j :: 0 <= i < j < |s| ==> s[i] != s[j]
  }

  /** The keys of `new Map(list.map(p => [p.id, p]))`, in the order a `Map`
      keeps them: each id at its first occurrence. */
  function MapKeys(ids: seq<int>): (keys: seq<int>)
    ensures forall x :: x in keys <==> x in ids
    ensures NoDuplicates(keys)
  {
    if ids == [] then []
    else
      var prev := MapKeys(ids[..|ids| - 1]);
      var x := ids[|ids| - 1];
      assert forall y :: y in ids <==> y in ids[..|ids| - 1] || y == x;
      if x in prev then prev else prev + [x]
  }

  /** `keys` without the members of `drop`, in order: what `byId.delete`
      leaves. */
  function FilterOut(keys: seq<int>, drop: set<int>): (r: seq<int>)
    ensures forall x :: x in r <==> x in keys && x !in drop
    ensures NoDuplicates(keys) ==> NoDuplicates(r)
  {
    if keys == [] then []
    else
      var rest := FilterOut(keys[1..], drop);
      assert forall y :: y in keys <==> y == keys[0] || y in keys[1..];
      if keys[0] in drop then rest else [keys[0]] + rest
  }

  lemma {:induction false} FilterOutNothing(keys: seq<int>)
    ensures FilterOut(keys, {}) == keys
  {
    if keys != [] {
      FilterOutNothing(keys[1..]);
    }
  }

  lemma {:induction false} FilterOutTwice(keys: seq<int>, drop: set<int>, x: int)
    ensures FilterOut(FilterOut(keys, drop), {x}) == FilterOut(keys, drop + {x})
  {
    if keys != [] {
      FilterOutTwice(keys[1..], drop, x);
    }
  }

  lemma {:induction false} FilterOutIgnores(keys: seq<int>, drop: set<int>, x: int)
    requires x !in keys || x in drop
    ensures FilterOut(keys, drop + {x}) == FilterOut(keys, drop)
  {
    if keys != [] {
      assert x in keys[1..] ==> x in keys;
      FilterOutIgnores(keys[1..], drop, x);
    }
  }

  /** The ids of the first `i` edited rows. */
  function IdsBefore(edited: seq<EditedRow>, i: nat): set<int>
    requires i <= |edited|
  {
    set k | 0 <= k < i :: edited[k].id
  }

  lemma IdsBeforeStep(edited: seq<EditedRow>, i: nat)
    requires i < |edited|
    ensures IdsBefore(edited, i + 1) == IdsBefore(edited, i) + {edited[i].id}
  {
    assert edited[i].id in IdsBefore(edited, i + 1);
  }

  /** Edited row `i` still finds its id in `byId`: the id is an original one
      and no earlier row has taken it. */
  ghost predicate Matches(edited: seq<EditedRow>, originalIds: seq<int>, i: nat)
    requires i < |edited|
  {
    edited[i].id in originalIds && edited[i].id !in IdsBefore(edited, i)
  }

  /** The op pushed for edited row `i`. */
  ghost function OpFor(edited: seq<EditedRow>, originalIds: seq<int>, i: nat): Op
    requires i < |edited|
  {
    var e := edited[i];
    if Matches(edited, originalIds, i) then Update(e.id, e.title, e.videoUrl, SavedWeight(e), e.enabled)
    else Create(e.title, e.videoUrl, SavedWeight(e), e.enabled)
  }

  /** The original ids no edited row claims, in `Map` order. */
  function Unmatched(edited: seq<EditedRow>, originalIds: seq<int>): seq<int>
  {
    FilterOut(MapKeys(originalIds), IdsBefore(edited, |edited|))
  }

  function DeleteOps(ids: seq<int>): (r: seq<Op>)
  {
    seq(|ids|, k requires 0 <= k < |ids| => Delete(ids[k]))
  }

  /** The ops of one save: one per edited row, in row order, then one delete
      per unmatched original id. */
  ghost function SaveOpsSpec(edited: seq<EditedRow>, originalIds: seq<int>): seq<Op>
  {
    seq(|edited|, i requires 0 <= i < |edited| => OpFor(edited, originalIds, i))
      + DeleteOps(Unmatched(edited, originalIds))
  }

  /** The ops pushed for the first `i` edited rows. */
  ghost function EditOps(edited: seq<EditedRow>, originalIds: seq<int>, i: nat): seq<Op>
    requires i <= |edited|
  {
    seq(i, k requires 0 <= k < i => OpFor(edited, originalIds, k))
  }

  lemma EditOpsStep(edited: seq<EditedRow>, originalIds: seq<int>, i: nat)
    requires i < |edited|
    ensures EditOps(edited, originalIds, i + 1) == EditOps(edited, originalIds, i) + [OpFor(edited, originalIds, i)]
  {
  }

  /** What is left of `byId` after `i` rows, and how row `i` changes it. */
  lemma ByIdStep(edited: seq<EditedRow>, originalIds: seq<int>, i: nat)
    requires i < |edited|
    ensures var byId := FilterOut(MapKeys(originalIds), IdsBefore(edited, i));
            && (edited[i].id in byId <==> Matches(edited, originalIds, i))
            && FilterOut(MapKeys(originalIds), IdsBefore(edited, i + 1))
               == (if edited[i].id in byId then FilterOut(byId, {edited[i].id}) else byId)
  {
    IdsBeforeStep(edited, i);
    var id := edited[i].id;
    if id in originalIds && id !in IdsBefore(edited, i) {
      FilterOutTwice(MapKeys(originalIds), IdsBefore(edited, i), id);
    } else {
      FilterOutIgnores(MapKeys(originalIds), IdsBefore(edited, i), id);
    }
  }

  /** The diff of the `#save-prizes` handler, from the rows read back and the
      ids of `state.prizes` when Save is pressed, which includes the rows
      added in the page and excludes the rows deleted there. */
  method SaveOps(edited: seq<EditedRow>, originalIds: seq<int>) returns (ops: seq<Op>)
    ensures ops == SaveOpsSpec(edited, originalIds)
  {
    var weights := WithWeights(edited);
    ops := [];
    var byId := MapKeys(originalIds);
    assert IdsBefore(edited, 0) == {};
    FilterOutNothing(byId);
    for i := 0 to |weights|
      invariant byId == FilterOut(MapKeys(originalIds), IdsBefore(edited, i))
      invariant ops == EditOps(edited, originalIds, i)
    {
      var (e, w) := weights[i];
      ByIdStep(edited, originalIds, i);
      EditOpsStep(edited, originalIds, i);
      if e.id in byId {
        ops := ops + [Update(e.id, e.title, e.videoUrl, w, e.enabled)];
        byId := FilterOut(byId, {e.id});
      } else {
        ops := ops + [Create(e.title, e.videoUrl, w, e.enabled)];
      }
    }
    ghost var edits := ops;
    for k := 0 to |byId|
      invariant ops == edits + DeleteOps(byId[..k])
    {
      assert byId[..k + 1] == byId[..k] + [byId[k]];
      ops := ops + [Delete(byId[k])];
    }
    assert byId[..|byId|] == byId;
  }

  /** The first edited row carrying `id`. */
  function FirstRowWith(edited: seq<EditedRow>, id: int): (i: nat)
    requires id in IdsBefore(edited, |edited|)
    ensures i < |edited| && edited[i].id == id && id !in IdsBefore(edited, i)
  {
    if edited[0].id == id then (assert IdsBefore(edited, 0) == {}; 0)
    else
      assert id in IdsBefore(edited[1..], |edited| - 1) by {
        var k :| 0 <= k < |edited| && edited[k].id == id;
        assert edited[1..][k - 1].id == id;
      }
      var j := FirstRowWith(edited[1..], id);
      assert forall k :: 0 < k < j + 1 ==> edited[k].id == edited[1..][k - 1].id;
      assert forall k :: 0 <= k < j ==> edited[1..][k].id in IdsBefore(edited[1..], j);
      j + 1
  }

  /** Each original id that some edited row carries gets exactly one update,
      at the first row carrying it. */
  lemma UpdateExactlyOnce(edited: seq<EditedRow>, originalIds: seq<int>, id: int)
    requires id in originalIds && id in IdsBefore(edited, |edited|)
    ensures var ops := SaveOpsSpec(edited, originalIds);
            var i := FirstRowWith(edited, id);
            && ops[i].Update? && ops[i].id == id
            && forall j :: 0 <= j < |ops| && ops[j].Update? && ops[j].id == id ==> j == i
  {
    var ops := SaveOpsSpec(edited, originalIds);
    var i := FirstRowWith(edited, id);
    assert Matches(edited, originalIds, i);
    forall j | 0 <= j < |ops| && ops[j].Update? && ops[j].id == id ensures j == i {
      assert j < |edited|;
      assert Matches(edited, originalIds, j) && edited[j].id == id;
    }
  }

  /** An edited row becomes a create exactly when its id is not an original
      one or an earlier row already claimed it. */
  lemma CreateExactlyForUnclaimed(edited: seq<EditedRow>, originalIds: seq<int>, i: nat)
    requires i < |edited|
    ensures var ops := SaveOpsSpec(edited, originalIds);
            ops[i].Create? <==> (edited[i].id !in originalIds || edited[i].id in IdsBefore(edited, i))
    ensures var ops := SaveOpsSpec(edited, originalIds);
            && ops[i].Create? ==> ops[i] == Create(edited[i].title, edited[i].videoUrl, SavedWeight(edited[i]), edited[i].enabled)
  {
  }

  /** Where each op of a save sits. */
  lemma SaveOpsLayout(edited: seq<EditedRow>, originalIds: seq<int>)
    ensures var ops := SaveOpsSpec(edited, originalIds);
            var u := Unmatched(edited, originalIds);
            && |ops| == |edited| + |u|
            && (forall i :: 0 <= i < |edited| ==> ops[i] == OpFor(edited, originalIds, i))
            && (forall k :: 0 <= k < |u| ==> ops[|edited| + k] == Delete(u[k]))
  {
  }

  /** Deletes come after every update and create. */
  lemma DeletesLast(edited: seq<EditedRow>, originalIds: seq<int>, j: nat)
    requires j < |SaveOpsSpec(edited, originalIds)|
    ensures SaveOpsSpec(edited, originalIds)[j].Delete? <==> j >= |edited|
  {
    SaveOpsLayout(edited, originalIds);
  }

  /** There is a delete for each original id no edited row carries, and for
      no other id. */
  lemma DeleteExactlyForUnclaimed(edited: seq<EditedRow>, originalIds: seq<int>, id: int)
    ensures var ops := SaveOpsSpec(edited, originalIds);
            (exists j :: 0 <= j < |ops| && ops[j] == Delete(id))
              <==> id in originalIds && id !in IdsBefore(edited, |edited|)
  {
    var ops := SaveOpsSpec(edited, originalIds);
    var u := Unmatched(edited, originalIds);
    var n := |edited|;
    SaveOpsLayout(edited, originalIds);
    if id in originalIds && id !in IdsBefore(edited, n) {
      assert id in u;
      var k :| 0 <= k < |u| && u[k] == id;
      assert ops[n + k] == Delete(id);
    }
    if exists j :: 0 <= j < |ops| && ops[j] == Delete(id) {
      var j :| 0 <= j < |ops| && ops[j] == Delete(id);
      assert j >= n;
      assert u[j - n] == id;
    }
  }

  /** No id is deleted twice. */
  lemma DeleteAtMostOnce(edited: seq<EditedRow>, originalIds: seq<int>, j: nat, k: nat)
    requires j < k < |SaveOpsSpec(edited, originalIds)|
    ensures var ops := SaveOpsSpec(edited, originalIds);
            ops[j].Delete? && ops[k].Delete? ==> ops[j].id != ops[k].id
  {
    var ops := SaveOpsSpec(edited, originalIds);
    var u := Unmatched(edited, originalIds);
    var n := |edited|;
    SaveOpsLayout(edited, originalIds);
    if ops[j].Delete? && ops[k].Delete? {
      assert j >= n;
      assert ops[j].id == u[j - n] && ops[k].id == u[k - n];
    }
  }

  /** No id is both updated and deleted in one save. */
  lemma NoUpdateAndDelete(edited: seq<EditedRow>, originalIds: seq<int>, i: nat, j: nat)
    requires var ops := SaveOpsSpec(edited, originalIds); i < |ops| && j < |ops|
    ensures var ops := SaveOpsSpec(edited, originalIds);
            ops[i].Update? && ops[j].Delete? ==> ops[i].id != ops[j].id
  {
    var ops := SaveOpsSpec(edited, originalIds);
    if ops[i].Update? && ops[j].Delete? {
      DeleteExactlyForUnclaimed(edited, originalIds, ops[j].id);
      assert edited[i].id in IdsBefore(edited, |edited|);
    }
  }

  lemma {:induction false} DistinctCount(s: seq<int>)
    requires NoDuplicates(s)
    ensures |set x | x in s| == |s|
  {
    if s != [] {
      var t := s[..|s| - 1];
      DistinctCount(t);
      assert (set x | x in s) == (set x | x in t) + {s[|s| - 1]};
    }
  }

  /** A save has one op per edited row plus one per distinct original id that
      no edited row carries. */
  lemma OpCount(edited: seq<EditedRow>, originalIds: seq<int>)
    ensures |SaveOpsSpec(edited, originalIds)|
            == |edited| + |set id | id in originalIds && id !in IdsBefore(edited, |edited|)|
  {
    var u := Unmatched(edited, originalIds);
    DistinctCount(u);
    assert (set x | x in u) == (set id | id in originalIds && id !in IdsBefore(edited, |edited|));
  }

  const DeviceIdKey: string := "deviceId"

  /** The browser state the client keeps: `localStorage` and `state.deviceId`. */
  class Browser {
    var localStorage: map<string, string>
    var deviceId: Option<string>

    constructor (stored: map<string, string>)
      ensures localStorage == stored && deviceId == None
    {
      localStorage := stored;
      deviceId := None;
    }

    /** `ensureDeviceId()`: reuse the stored id, or store `uuid` (the result of
        `crypto.randomUUID()`) when none, or an empty one, is stored. */
    method EnsureDeviceId(uuid: string)
      requires uuid != []
      modifies this
      ensures DeviceIdKey in localStorage && localStorage[DeviceIdKey] != []
      ensures deviceId == Some(localStorage[DeviceIdKey])
      ensures DeviceIdKey in old(localStorage) && old(localStorage)[DeviceIdKey] != [] ==>
                localStorage == old(localStorage)
      ensures !(DeviceIdKey in old(localStorage) && old(localStorage)[DeviceIdKey] != []) ==>
                localStorage == old(localStorage)[DeviceIdKey := uuid]
    {
      var id := if DeviceIdKey in localStorage then localStorage[DeviceIdKey] else [];
      if id == [] {
        id := uuid;
        localStorage := localStorage[DeviceIdKey := id];
      }
      deviceId := Some(id);
    }
  }

  /** Once a device id is stored, later page loads keep it. */
  method EnsureDeviceIdTwice(b: Browser, first: string, second: string)
    requires first != [] && second != []
    modifies b
    ensures DeviceIdKey in b.localStorage && b.deviceId == Some(b.localStorage[DeviceIdKey])
    ensures DeviceIdKey in old(b.localStorage) && old(b.localStorage)[DeviceIdKey] != [] ==>
              b.deviceId == Some(old(b.localStorage)[DeviceIdKey])
    ensures !(DeviceIdKey in old(b.localStorage) && old(b.localStorage)[DeviceIdKey] != []) ==>
              b.deviceId == Some(first)
  {
    b.EnsureDeviceId(first);
    b.EnsureDeviceId(second);
  }
}
