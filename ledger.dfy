/**
 * The prize-draw ledger of server.js. The SQLite tables become the fields of
 * one `Database` object and each HTTP handler becomes a method on it; the
 * handler's error responses become `ApiError` values.
 */
module Ledger {
  import opened JsBuiltins
  import opened Selection

  /** One row of the `serials` table (its `used_at` timestamp is left out). */
  datatype Serial = Serial(spins: int, used: bool, usedBy: Option<string>)

  /** The error responses of the handlers; the HTTP status is noted beside each. */
  datatype ApiError =
    | DeviceIdRequired       // 400 'deviceId required'
    | NoSpinsLeft            // 402 'no spins left'
    | NoPrizeAvailable       // 500 'no prize available'
    | CodeAndDeviceRequired  // 400 'code & deviceId required'
    | InvalidCode            // 404 'invalid code'
    | AlreadyUsed            // 400 'already used'
    | InvalidSpins           // 400 'invalid spins'
    | VideoRequired          // 400 'video required'
    | IdRequired             // 400 'id required'
    | NotFound               // 404 'not found'
    | BadFilename            // 400 'bad filename'

  datatype Result<T> = Ok(value: T) | Err(error: ApiError)

  /** The `prize` object of a successful `/api/spin` response. */
  datatype SpinReply = SpinReply(rarity: string, videoUrl: string, file: string)

  /** The body of a successful `/api/admin/serials/issue` response. */
  datatype IssueReply = IssueReply(code: string, spins: int)

  /** One row of `/api/my-collection` (its `obtained_at` is left out). */
  datatype CollectionEntry = CollectionEntry(videoPath: string, rarity: string, ownedCount: nat)

  /** The characters of a generated serial code: no I, O, 0 or 1. */
  const CodeAlphabet: string := "ABCDEFGHJKLMNPQRSTUVWXYZ23456789"
  const CodeLength: nat := 8

  /** The rarities `/api/admin/rarity-weights/update` accepts, in its order. */
  const ListedRarities: seq<string> := ["normal", "common", "rare", "superrare", "bonus"]

  /** The eight `Math.random()` draws one call of the code generator makes. */
  predicate IsRoll(roll: seq<real>)
  {
    |roll| == CodeLength && forall k :: 0 <= k < |roll| ==> 0.0 <= roll[k] < 1.0
  }

  /** The generator `gen`: one alphabet character per draw. */
  function GenCode(roll: seq<real>): (c: string)
    requires IsRoll(roll)
    ensures |c| == CodeLength
    ensures forall k :: 0 <= k < |c| ==> c[k] in CodeAlphabet
  {
    seq(CodeLength, k requires 0 <= k < CodeLength => CodeAlphabet[RandomIndex(roll[k], |CodeAlphabet|)])
  }

  /** A generated code never holds a character that reads like another. */
  lemma GeneratedCodeUnambiguous(roll: seq<real>, k: nat)
    requires IsRoll(roll) && k < CodeLength
    ensures GenCode(roll)[k] !in "IO01"
  {
    var c := GenCode(roll)[k];
    assert c in CodeAlphabet;
  }

  function FirstFreshFrom(rolls: seq<seq<real>>, taken: set<string>, from: nat): (k: nat)
    requires forall i :: 0 <= i < |rolls| ==> IsRoll(rolls[i])
    requires from <= |rolls|
    requires exists i :: from <= i < |rolls| && GenCode(rolls[i]) !in taken
    ensures from <= k < |rolls| && GenCode(rolls[k]) !in taken
    ensures forall j :: from <= j < k ==> GenCode(rolls[j]) in taken
    decreases |rolls| - from
  {
    if GenCode(rolls[from]) !in taken then from else FirstFreshFrom(rolls, taken, from + 1)
  }

  /** The attempt at which the `do ... while` of the generator stops: the first
      roll whose code is not taken. */
  function FirstFresh(rolls: seq<seq<real>>, taken: set<string>): (k: nat)
    requires forall i :: 0 <= i < |rolls| ==> IsRoll(rolls[i])
    requires exists i :: 0 <= i < |rolls| && GenCode(rolls[i]) !in taken
    ensures k < |rolls| && GenCode(rolls[k]) !in taken
    ensures forall j :: 0 <= j < k ==> GenCode(rolls[j]) in taken
  {
    FirstFreshFrom(rolls, taken, 0)
  }

  /** The `do { c = gen(); } while (taken(c))` loop of the issue handler,
      over the generator's successive attempts `rolls`. */
  method GenerateCode(rolls: seq<seq<real>>, taken: set<string>) returns (c: string)
    requires forall k :: 0 <= k < |rolls| ==> IsRoll(rolls[k])
    requires exists k :: 0 <= k < |rolls| && GenCode(rolls[k]) !in taken
    ensures c == GenCode(rolls[FirstFresh(rolls, taken)])
    ensures c !in taken
  {
    ghost var stop := FirstFresh(rolls, taken);
    c := GenCode(rolls[0]);
    var i := 1;
    while c in taken
      invariant 1 <= i <= stop + 1
      invariant c == GenCode(rolls[i - 1])
      decreases stop + 1 - i
    {
      c := GenCode(rolls[i]);
      i := i + 1;
    }
    assert i - 1 == stop;
  }

  /** How an operator-supplied code is stored: trimmed, then upper-cased. */
  function NormalizeCode(code: string): (c: string)
    ensures c == [] <==> forall k :: 0 <= k < |code| ==> IsWhitespace(code[k])
    ensures c != [] ==> !IsWhitespace(c[0]) && !IsWhitespace(c[|c| - 1])
    ensures forall k :: 0 <= k < |c| ==> !('a' <= c[k] <= 'z')
  {
    var t := Trim(code);
    var u := ToUpper(t);
    UpperCharWhitespace();
    u
  }

  /** Normalizing a stored code again changes nothing. */
  lemma {:induction false} NormalizeCodeIdempotent(code: string)
    ensures NormalizeCode(NormalizeCode(code)) == NormalizeCode(code)
  {
    var c := NormalizeCode(code);
    TrimOfTrimmed(c);
    ToUpperOfUpper(c);
  }

  /** `Number(enabled) ? 1 : 0` with the default `enabled = 1`. */
  function EnabledFlag(v: Option<JsNumber>): bool
  {
    match v
    case None => true
    case Some(n) => n.Int? && n.value != 0
  }

  /** The rows of `rarity_weights` after `UPDATE ... SET weight = w WHERE rarity = key`. */
  function SetWeight(rows: seq<RarityWeight>, key: string, w: int): (r: seq<RarityWeight>)
    ensures |r| == |rows|
    ensures forall i :: 0 <= i < |rows| ==> r[i].rarity == rows[i].rarity
    ensures forall i :: 0 <= i < |rows| ==> r[i].weight == if rows[i].rarity == key then w else rows[i].weight
  {
    seq(|rows|, i requires 0 <= i < |rows| =>
      if rows[i].rarity == key then RarityWeight(key, w) else rows[i])
  }

  /** The row of `prizes` whose id is `id`, if any. */
  function PrizeIndex(prizes: seq<PrizeRow>, id: int): (i: Option<nat>)
    ensures i.Some? ==> i.value < |prizes| && prizes[i.value].id == id
    ensures i.None? ==> forall k :: 0 <= k < |prizes| ==> prizes[k].id != id
  {
    if prizes == [] then None
    else if prizes[0].id == id then Some(0)
    else match PrizeIndex(prizes[1..], id)
      case Some(k) => Some(k + 1)
      case None => None
  }

  /** `DELETE FROM prizes WHERE id = ?` on the row at index `i`: the others
      keep their order. */
  function RemoveAt(prizes: seq<PrizeRow>, i: nat): (r: seq<PrizeRow>)
    requires i < |prizes|
    ensures |r| == |prizes| - 1
    ensures forall k :: 0 <= k < |r| ==> r[k] == if k < i then prizes[k] else prizes[k + 1]
  {
    prizes[..i] + prizes[i + 1..]
  }

  /** Removing one row keeps the others' ids ascending and in range. */
  lemma RemoveAtKeepsIds(prizes: seq<PrizeRow>, i: nat, next: int)
    requires i < |prizes|
    requires IdsAscending(prizes)
    requires forall k :: 0 <= k < |prizes| ==> 0 < prizes[k].id < next
    ensures IdsAscending(RemoveAt(prizes, i))
    ensures forall k :: 0 <= k < |RemoveAt(prizes, i)| ==> 0 < RemoveAt(prizes, i)[k].id < next
  {
  }

  /** `/download/:file` refuses names holding `..`, `/` or `\`. */
  function CheckDownloadName(f: string): (r: Result<string>)
    ensures r.Ok? ==> r.value == f
    ensures r.Err? ==> r.error == BadFilename
    ensures r.Ok? <==>
              && (forall k :: 0 <= k < |f| ==> f[k] != '/' && f[k] != '\\')
              && (forall k :: 0 <= k < |f| - 1 ==> !(f[k] == '.' && f[k + 1] == '.'))
  {
    SingleCharOccurs(f, '/');
    SingleCharOccurs(f, '\\');
    DotDotOccurs(f);
    if Includes(f, "..") || Includes(f, "/") || Includes(f, "\\") then Err(BadFilename) else Ok(f)
  }

  lemma SingleCharOccurs(s: string, c: char)
    ensures (exists i: nat :: OccursAt(s, [c], i)) <==> exists k :: 0 <= k < |s| && s[k] == c
  {
    if exists i: nat :: OccursAt(s, [c], i) {
      var i: nat :| OccursAt(s, [c], i);
      assert s[i..i + 1][0] == s[i];
    }
    if exists k :: 0 <= k < |s| && s[k] == c {
      var k :| 0 <= k < |s| && s[k] == c;
      assert OccursAt(s, [c], k);
    }
  }

  lemma DotDotOccurs(s: string)
    ensures (exists i: nat :: OccursAt(s, "..", i)) <==> exists k :: 0 <= k < |s| - 1 && s[k] == '.' && s[k + 1] == '.'
  {
    if exists i: nat :: OccursAt(s, "..", i) {
      var i: nat :| OccursAt(s, "..", i);
      assert s[i..i + 2][0] == s[i] && s[i..i + 2][1] == s[i + 1];
    }
    if exists k :: 0 <= k < |s| - 1 && s[k] == '.' && s[k + 1] == '.' {
      var k :| 0 <= k < |s| - 1 && s[k] == '.' && s[k + 1] == '.';
      assert s[k..k + 2] == "..";
      assert OccursAt(s, "..", k);
    }
  }

  /** The loop of `pickRarity` for the scaled draw `drawn`: subtract each
      weight in table order and stop once the remainder is no longer positive. */
  method WalkWeights(rows: seq<RarityWeight>, drawn: real) returns (rarity: string)
    requires SumWeights(rows) > 0
    ensures rarity == PickRarityOf(rows, drawn)
  {
    var r := drawn;
    assert rows[..0] == [];
    for i := 0 to |rows|
      invariant r == drawn - PrefixSum(rows, i) as real
      invariant forall j :: 0 <= j < i ==> RunningSum(rows, j) as real < drawn
    {
      PrefixSumStep(rows, i);
      r := r - rows[i].weight as real;
      if r <= 0.0 {
        FirstReachingUnique(rows, drawn, i);
        return rows[i].rarity;
      }
    }
    assert NeverReaches(rows, drawn);
    return Normal;
  }

  /** The server's tables. */
  class Database {
    /** `devices`: device id to remaining spins. */
    var devices: map<string, int>
    /** `serials`: code to its row. */
    var serials: map<string, Serial>
    /** `prizes`, in rowid (that is, id) order. */
    var prizes: seq<PrizeRow>
    /** The id AUTOINCREMENT gives the next prize. */
    var nextPrizeId: int
    /** `collections`: at most one row per (device, prize), by its unique index. */
    var collections: set<(string, int)>
    /** `rarity_weights`, in table order. */
    var rarityWeights: seq<RarityWeight>

    ghost predicate Valid()
      reads this
    {
      && (forall d :: d in devices ==> devices[d] >= 0)
      && (forall c :: c in serials ==> serials[c].spins > 0 && (serials[c].used <==> serials[c].usedBy.Some?))
      && IdsAscending(prizes)
      && nextPrizeId > 0
      && (forall i :: 0 <= i < |prizes| ==> 0 < prizes[i].id < nextPrizeId)
      && (forall c :: c in collections ==> c.0 in devices)
    }

    /** A freshly created database file: empty tables and the seeded weights. */
    constructor ()
      ensures Valid()
      ensures devices == map[] && serials == map[] && prizes == [] && collections == {}
      ensures nextPrizeId == 1 && rarityWeights == SeedWeights
    {
      devices := map[];
      serials := map[];
      prizes := [];
      nextPrizeId := 1;
      collections := {};
      rarityWeights := SeedWeights;
    }

    /** A device's spins, 0 for a device without a row. */
    function SpinsOf(d: string): int
      reads this
    {
      if d in devices then devices[d] else 0
    }

    /** `/api/device`: the spins of the trimmed device id, creating its row at 0. */
    method GetDevice(deviceId: string) returns (res: Result<int>)
      requires Valid()
      modifies this`devices
      ensures Valid()
      ensures Trim(deviceId) == [] ==> res == Err(DeviceIdRequired) && devices == old(devices)
      ensures Trim(deviceId) != [] ==>
                && res == Ok(old(SpinsOf(Trim(deviceId))))
                && devices == old(devices)[Trim(deviceId) := old(SpinsOf(Trim(deviceId)))]
    {
      var d := Trim(deviceId);
      if d == [] {
        return Err(DeviceIdRequired);
      }
      if d !in devices {
        devices := devices[d := 0];
      }
      res := Ok(devices[d]);
    }

    /** `pickRarity()`, with `u` the draw of `Math.random()`. */
    method PickRarity(u: real) returns (rarity: string)
      requires 0.0 <= u < 1.0
      ensures rarity == DrawnRarity(rarityWeights, u)
    {
      var rows := rarityWeights;
      var total := SumWeights(rows);
      if total <= 0 {
        return Normal;
      }
      rarity := WalkWeights(rows, u * total as real);
    }

    /** The draw of `/api/spin`: `pickRarity`, then `pickPrizeByRarity` of that
        rarity and, when it finds nothing and the rarity is not 'normal', one
        retry with 'normal'. */
    method DrawSpinPrize(u1: real, u2: real, u3: real) returns (prize: Option<PrizeRow>)
      requires 0.0 <= u1 < 1.0 && 0.0 <= u2 < 1.0 && 0.0 <= u3 < 1.0
      ensures prize == DrawPrize(rarityWeights, prizes, u1, u2, u3)
    {
      var rarity := PickRarity(u1);
      prize := PickPrizeByRarity(prizes, rarity, u2);
      if prize.None? && rarity != Normal {
        prize := PickPrizeByRarity(prizes, Normal, u3);
      }
    }

    /** `/api/spin`: with spins left and a prize drawn, take one spin and record
        the prize in the device's collection; `u1`, `u2` and `u3` are the draws
        of `pickRarity`, of `pickPrizeByRarity` and of its 'normal' retry. */
    method Spin(deviceId: string, u1: real, u2: real, u3: real) returns (res: Result<SpinReply>)
      requires Valid()
      requires 0.0 <= u1 < 1.0 && 0.0 <= u2 < 1.0 && 0.0 <= u3 < 1.0
      modifies this`devices, this`collections
      ensures Valid()
      ensures deviceId == [] ==>
                res == Err(DeviceIdRequired) && devices == old(devices) && collections == old(collections)
      ensures deviceId != [] && old(SpinsOf(deviceId)) <= 0 ==>
                && res == Err(NoSpinsLeft)
                && devices == old(devices)[deviceId := old(SpinsOf(deviceId))]
                && collections == old(collections)
      ensures deviceId != [] && old(SpinsOf(deviceId)) > 0 && DrawPrize(rarityWeights, prizes, u1, u2, u3).None? ==>
                res == Err(NoPrizeAvailable) && devices == old(devices) && collections == old(collections)
      ensures deviceId != [] && old(SpinsOf(deviceId)) > 0 && DrawPrize(rarityWeights, prizes, u1, u2, u3).Some? ==>
                var p := DrawPrize(rarityWeights, prizes, u1, u2, u3).value;
                && res == Ok(SpinReply(p.rarity, "/uploads/" + p.videoPath, p.videoPath))
                && devices == old(devices)[deviceId := old(SpinsOf(deviceId)) - 1]
                && collections == old(collections) + {(deviceId, p.id)}
    {
      if deviceId == [] {
        return Err(DeviceIdRequired);
      }
      ghost var spins := SpinsOf(deviceId);
      if deviceId !in devices {
        devices := devices[deviceId := 0];
      }
      assert devices == old(devices)[deviceId := spins];
      if devices[deviceId] <= 0 {
        return Err(NoSpinsLeft);
      }
      var prize := DrawSpinPrize(u1, u2, u3);
      if prize.None? {
        return Err(NoPrizeAvailable);
      }
      var p := prize.value;
      devices := devices[deviceId := devices[deviceId] - 1];
      assert devices == old(devices)[deviceId := spins - 1];
      collections := collections + {(deviceId, p.id)};
      res := Ok(SpinReply(p.rarity, "/uploads/" + p.videoPath, p.videoPath));
    }

    /** `/api/redeem-serial`: an unused code, looked up exactly as given, is
        marked used by the device and its spins are added to the device. */
    method RedeemSerial(code: string, deviceId: string) returns (res: Result<int>)
      requires Valid()
      modifies this`serials, this`devices
      ensures Valid()
      ensures code == [] || deviceId == [] ==>
                res == Err(CodeAndDeviceRequired) && serials == old(serials) && devices == old(devices)
      ensures code != [] && deviceId != [] && code !in old(serials) ==>
                res == Err(InvalidCode) && serials == old(serials) && devices == old(devices)
      ensures code != [] && deviceId != [] && code in old(serials) && old(serials)[code].used ==>
                res == Err(AlreadyUsed) && serials == old(serials) && devices == old(devices)
      ensures code != [] && deviceId != [] && code in old(serials) && !old(serials)[code].used ==>
                var row := old(serials)[code];
                && res == Ok(row.spins)
                && serials == old(serials)[code := Serial(row.spins, true, Some(deviceId))]
                && devices == old(devices)[deviceId := old(SpinsOf(deviceId)) + row.spins]
    {
      if code == [] || deviceId == [] {
        return Err(CodeAndDeviceRequired);
      }
      if code !in serials {
        return Err(InvalidCode);
      }
      var row := serials[code];
      if row.used {
        return Err(AlreadyUsed);
      }
      serials := serials[code := row.(used := true, usedBy := Some(deviceId))];
      if deviceId !in devices {
        devices := devices[deviceId := 0];
      }
      devices := devices[deviceId := devices[deviceId] + row.spins];
      res := Ok(row.spins);
    }

    /** `/api/admin/serials/issue`: store the normalized code, or a generated
        one (the rolls are the generator's successive attempts), as unused with
        `spins` spins; an existing code is re-armed. */
    method IssueSerial(code: string, spins: JsNumber, rolls: seq<seq<real>>) returns (res: Result<IssueReply>)
      requires Valid()
      requires forall k :: 0 <= k < |rolls| ==> IsRoll(rolls[k])
      requires spins.Int? && spins.value > 0 && NormalizeCode(code) == [] ==>
                 exists k :: 0 <= k < |rolls| && GenCode(rolls[k]) !in serials
      modifies this`serials
      ensures Valid()
      ensures !(spins.Int? && spins.value > 0) ==> res == Err(InvalidSpins) && serials == old(serials)
      ensures spins.Int? && spins.value > 0 ==>
                && res.Ok?
                && res.value.spins == spins.value
                && serials == old(serials)[res.value.code := Serial(spins.value, false, None)]
      ensures spins.Int? && spins.value > 0 && NormalizeCode(code) != [] ==>
                res.Ok? && res.value.code == NormalizeCode(code)
      ensures spins.Int? && spins.value > 0 && NormalizeCode(code) == [] ==>
                && res.Ok?
                && res.value.code == GenCode(rolls[FirstFresh(rolls, old(serials).Keys)])
                && res.value.code !in old(serials)
    {
      if !(spins.Int? && spins.value > 0) {
        return Err(InvalidSpins);
      }
      var n := spins.value;
      var c := NormalizeCode(code);
      if c == [] {
        c := GenerateCode(rolls, serials.Keys);
      }
      if c !in serials {
        serials := serials[c := Serial(n, false, None)];
      } else {
        serials := serials[c := serials[c].(spins := n, used := false, usedBy := None)];
      }
      res := Ok(IssueReply(c, n));
    }

    /** `/api/admin/rarity-weights/update`: each listed rarity present in the
        request gets `Number(value) || 0`; every other row keeps its weight. */
    method UpdateRarityWeights(body: map<string, JsNumber>)
      requires Valid()
      modifies this`rarityWeights
      ensures Valid()
      ensures |rarityWeights| == |old(rarityWeights)|
      ensures forall i :: 0 <= i < |rarityWeights| ==> rarityWeights[i].rarity == old(rarityWeights)[i].rarity
      ensures forall i :: 0 <= i < |rarityWeights| ==>
                var key := old(rarityWeights)[i].rarity;
                rarityWeights[i].weight == if key in ListedRarities && key in body then OrZero(body[key]) else old(rarityWeights)[i].weight
    {
      for k := 0 to |ListedRarities|
        invariant |rarityWeights| == |old(rarityWeights)|
        invariant forall i :: 0 <= i < |rarityWeights| ==> rarityWeights[i].rarity == old(rarityWeights)[i].rarity
        invariant forall i :: 0 <= i < |rarityWeights| ==>
                    var key := old(rarityWeights)[i].rarity;
                    rarityWeights[i].weight == if key in ListedRarities[..k] && key in body then OrZero(body[key]) else old(rarityWeights)[i].weight
      {
        var key := ListedRarities[k];
        assert ListedRarities[..k + 1] == ListedRarities[..k] + [key];
        if key in body {
          rarityWeights := SetWeight(rarityWeights, key, OrZero(body[key]));
        }
      }
      assert ListedRarities[..|ListedRarities|] == ListedRarities;
    }

    /** `/api/my-collection`: per prize the device holds (and that still
        exists, by the join), its video, rarity and row count. */
    function MyCollection(deviceId: string): (r: Result<map<int, CollectionEntry>>)
      reads this
      ensures r.Err? <==> deviceId == []
      ensures r.Err? ==> r.error == DeviceIdRequired
      ensures r.Ok? ==> forall pid :: pid in r.value <==>
                (deviceId, pid) in collections && exists i :: 0 <= i < |prizes| && prizes[i].id == pid
      ensures r.Ok? ==> forall pid :: pid in r.value ==>
                && r.value[pid].ownedCount == 1
                && exists i :: 0 <= i < |prizes| && prizes[i].id == pid
                     && r.value[pid].videoPath == prizes[i].videoPath && r.value[pid].rarity == prizes[i].rarity
    {
      if deviceId == [] then Err(DeviceIdRequired)
      else
        var owned := set c | c in collections && c.0 == deviceId :: c.1;
        var m := map pid | pid in owned && PrizeIndex(prizes, pid).Some? ::
          var p := prizes[PrizeIndex(prizes, pid).value];
          CollectionEntry(p.videoPath, p.rarity, OwnedCount(deviceId, pid));
        assert forall pid :: pid in owned <==> (deviceId, pid) in collections by {
          forall pid ensures pid in owned <==> (deviceId, pid) in collections {
            if (deviceId, pid) in collections {
              var c := (deviceId, pid);
              assert c.1 in owned;
            }
          }
        }
        forall pid | pid in m ensures m[pid].ownedCount == 1 {
          OwnedCountIsOne(deviceId, pid);
        }
        Ok(m)
    }

    /** `COUNT(*)` of the collection rows of one (device, prize). */
    function OwnedCount(deviceId: string, pid: int): nat
      reads this
    {
      |set c | c in collections && c.0 == deviceId && c.1 == pid|
    }

    /** The unique index leaves one row per (device, prize): a prize drawn
        several times still counts once. */
    lemma OwnedCountIsOne(deviceId: string, pid: int)
      requires (deviceId, pid) in collections
      ensures OwnedCount(deviceId, pid) == 1
    {
      assert (set c | c in collections && c.0 == deviceId && c.1 == pid) == {(deviceId, pid)};
    }

    /** `/api/admin/prizes/create`: a prize needs an uploaded video; its rarity
        defaults to 'normal' and it starts enabled. */
    method CreatePrize(file: Option<string>, rarity: string) returns (res: Result<()>)
      requires Valid()
      modifies this`prizes, this`nextPrizeId
      ensures Valid()
      ensures file.None? ==> res == Err(VideoRequired) && prizes == old(prizes) && nextPrizeId == old(nextPrizeId)
      ensures file.Some? ==>
                && res == Ok(())
                && prizes == old(prizes) + [PrizeRow(old(nextPrizeId), file.value, if rarity == [] then Normal else rarity, true)]
                && nextPrizeId == old(nextPrizeId) + 1
    {
      if file.None? {
        return Err(VideoRequired);
      }
      var r := if rarity == [] then Normal else rarity;
      prizes := prizes + [PrizeRow(nextPrizeId, file.value, r, true)];
      nextPrizeId := nextPrizeId + 1;
      res := Ok(());
    }

    /** `/api/admin/prizes/update`: replace the rarity (default 'normal') and
        the enabled flag of a prize, and its video when a new one is uploaded. */
    method UpdatePrize(id: Option<int>, rarity: Option<string>, enabled: Option<JsNumber>, file: Option<string>)
      returns (res: Result<()>)
      requires Valid()
      modifies this`prizes
      ensures Valid()
      ensures id.None? || id.value == 0 ==> res == Err(IdRequired) && prizes == old(prizes)
      ensures id.Some? && id.value != 0 && PrizeIndex(old(prizes), id.value).None? ==>
                res == Err(NotFound) && prizes == old(prizes)
      ensures id.Some? && id.value != 0 && PrizeIndex(old(prizes), id.value).Some? ==>
                var i := PrizeIndex(old(prizes), id.value).value;
                var video := if file.Some? then file.value else old(prizes)[i].videoPath;
                var r := if rarity.Some? then rarity.value else Normal;
                && res == Ok(())
                && prizes == old(prizes)[i := PrizeRow(id.value, video, r, EnabledFlag(enabled))]
    {
      if id.None? || id.value == 0 {
        return Err(IdRequired);
      }
      var found := PrizeIndex(prizes, id.value);
      if found.None? {
        return Err(NotFound);
      }
      var i := found.value;
      var video := prizes[i].videoPath;
      if file.Some? {
        video := file.value;
      }
      var r := if rarity.Some? then rarity.value else Normal;
      prizes := prizes[i := PrizeRow(id.value, video, r, EnabledFlag(enabled))];
      res := Ok(());
    }

    /** `/api/admin/prizes/delete`: remove a prize row; the collection rows
        that point at it stay, and the collection query's join hides them. */
    method DeletePrize(id: Option<int>) returns (res: Result<()>)
      requires Valid()
      modifies this`prizes
      ensures Valid()
      ensures id.None? || id.value == 0 ==> res == Err(IdRequired) && prizes == old(prizes)
      ensures id.Some? && id.value != 0 && PrizeIndex(old(prizes), id.value).None? ==>
                res == Err(NotFound) && prizes == old(prizes)
      ensures id.Some? && id.value != 0 && PrizeIndex(old(prizes), id.value).Some? ==>
                var i := PrizeIndex(old(prizes), id.value).value;
                res == Ok(()) && prizes == RemoveAt(old(prizes), i)
    {
      if id.None? || id.value == 0 {
        return Err(IdRequired);
      }
      var found := PrizeIndex(prizes, id.value);
      if found.None? {
        return Err(NotFound);
      }
      var i := found.value;
      RemoveAtKeepsIds(prizes, i, nextPrizeId);
      prizes := RemoveAt(prizes, i);
      res := Ok(());
    }
  }

  /** Redeeming one code twice credits it once: the first call adds the code's
      spins to the first device, the second is refused as already used and
      changes nothing. */
  method RedeemTwice(db: Database, code: string, first: string, second: string) returns (a: Result<int>, b: Result<int>)
    requires db.Valid()
    requires code != [] && first != [] && second != []
    requires code in db.serials && !db.serials[code].used
    modifies db`serials, db`devices
    ensures db.Valid()
    ensures a == Ok(old(db.serials[code].spins)) && b == Err(AlreadyUsed)
    ensures db.devices == old(db.devices)[first := old(db.SpinsOf(first)) + old(db.serials[code].spins)]
    ensures db.serials == old(db.serials)[code := Serial(old(db.serials[code].spins), true, Some(first))]
    ensures db.prizes == old(db.prizes) && db.collections == old(db.collections)
    ensures db.rarityWeights == old(db.rarityWeights) && db.nextPrizeId == old(db.nextPrizeId)
  {
    a := db.RedeemSerial(code, first);
    b := db.RedeemSerial(code, second);
  }

  /** The supplied code "abc" is stored as "ABC". */
  lemma NormalizeLowerCaseCode()
    ensures NormalizeCode("abc") == "ABC"
  {
    TrimOfTrimmed("abc");
    UpperAbc();
  }

  lemma UpperAbc()
    ensures ToUpper("abc") == "ABC"
  {
    var r := ToUpper("abc");
    assert r[0] == 'A' && r[1] == 'B' && r[2] == 'C';
  }

  /** Issuance upper-cases a supplied code while redemption looks the code up
      as given: after issuing "abc" the code "abc" is unknown and "ABC"
      redeems. */
  method IssueLowerCaseThenRedeem(db: Database, deviceId: string) returns (asTyped: Result<int>, upper: Result<int>)
    requires db.Valid()
    requires deviceId != [] && "abc" !in db.serials
    modifies db`serials, db`devices
    ensures asTyped == Err(InvalidCode) && upper == Ok(5)
  {
    NormalizeLowerCaseCode();
    var issued := db.IssueSerial("abc", Int(5), []);
    assert "abc" !in db.serials && "ABC" in db.serials && !db.serials["ABC"].used;
    asTyped := db.RedeemSerial("abc", deviceId);
    upper := db.RedeemSerial("ABC", deviceId);
  }
}
