# Gacyapon prize-draw ledger, modelled in Dafny

The server of this gacha ("capsule toy") web app keeps five tables:
- devices with their remaining spins;
- serial codes that grant spins;
- prize videos tagged with a rarity;
- the collection of prizes each device has won;
- the rarity weights that drive the draw.

A spin draws in two stages. First it picks a rarity by walking the weight table. Then it picks an enabled prize of that rarity, or falls back once to 'normal'. If that succeeds, it takes one spin and records the prize in the device's collection.

The admin client saves an edited prize table by diffing it against `state.prizes` as it stands when Save is pressed (`public/app.js:259`). That list gains the rows added in the page (`public/app.js:228-229`) and loses the rows deleted there (`public/app.js:200-203`). The diff produces update, create and delete operations.

The project has four modules:
- `JsBuiltins` (`js_builtins.dfy`) models the JavaScript built-ins the code relies on: `trim`, `toUpperCase`, `includes`, `Math.round`, the `Math.floor(Math.random() * n)` index and `Number(x) || 0`.
- `Selection` (`selection.dfy`) models the weighted rarity walk of `pickRarity` as a function of a draw `r`, the filtered uniform pick of `pickPrizeByRarity`, and the two-stage draw with its fallback. Its lemmas cover:
  - the walk never falls through;
  - zero-weight rarities are never drawn;
  - each row is drawn on an interval as wide as its weight;
  - the bands of the seeded table;
  - the uniformity of the prize pick.
- `Ledger` (`ledger.dfy`) holds class `Database`. Its fields are the tables, and its methods and functions are the HTTP handlers: device lookup, `pickRarity`, spin, redeem, issue, weight update, collection query, and prize create, update and delete. It also has the download filename check and a few scenarios built from several calls.
- `Client` (`client.dfy`) models the `#save-prizes` weight clamp and diff of `public/app.js` as a method with two loops. The method is proved equal to a reference definition, and lemmas state the counting and ordering properties. It also models `ensureDeviceId` as a class `Browser` over `localStorage`.

Every call of `Math.random()` is a parameter `u` with `0 <= u < 1`, and the code generator's successive attempts are a sequence of such draws. `crypto.randomUUID()` is a parameter too. Each handler's error responses are values of `Ledger.ApiError`, with the HTTP status noted beside each constructor.

Points of the code's behaviour that the model keeps:
- Collections are deduplicated by the unique index on `(device_id, prize_id)` (`server.js:71-72`) and `INSERT OR IGNORE`, so a prize won twice is stored once and the collection query's `owned_count` is always 1. A spin reply has no first-time flag, and serial codes never expire.
- Redemption looks up the code exactly as given, while issuance trims and upper-cases it. A code issued as "abc" is therefore stored as "ABC", and only "ABC" redeems (`Ledger.IssueLowerCaseThenRedeem`).
- `/api/spin` does not trim the device id, while `/api/device` does.
- The weight update stores `Number(v) || 0`, which can be negative.

## Model

| member | source | states |
|---|---|---|
| JsBuiltins.Trim | server.js:291 | The result is a slice of the input with only whitespace cut off on either side. Its ends are not whitespace. It is empty exactly when the input is all whitespace. |
| JsBuiltins.TrimIdempotent | server.js:183 | Trimming a trimmed string changes nothing. |
| JsBuiltins.ToUpper | server.js:183 | Length is kept. Every ASCII lower-case letter is mapped 32 code points down. Every other character is unchanged. No ASCII lower-case letter remains. |
| JsBuiltins.Includes | server.js:414 | True exactly when the pattern occurs at some position of the string. |
| JsBuiltins.OrZero | server.js:281 | `Number(v) \|\| 0`: the value itself when it is a number, 0 for NaN (a zero stays 0). |
| JsBuiltins.Round | public/app.js:254 | `Math.round` gives an integer within one half of its argument, with halves rounded up. |
| JsBuiltins.RandomIndex | server.js:321 | `Math.floor(u * n)` is a valid index below `n`, and it is the floor of `u * n`. |
| JsBuiltins.RandomIndexBand | server.js:321 | The index is `k` for every draw in `[k/n, (k+1)/n)`. |
| JsBuiltins.RandomIndexIff | server.js:321 | The index is `k` if and only if the draw lies in `[k/n, (k+1)/n)`. |
| JsBuiltins.ScaledDrawInRange | server.js:306 | `Math.random() * total` lies in `[0, total)` for a positive total. |
| Selection.SumWeights | server.js:303 | The `reduce` over the weight table: the left-to-right sum of all weights, 0 for an empty table. |
| Selection.FirstReaching | server.js:306-311 | The index of the first row whose running weight sum reaches `r`, and `None` exactly when no running sum reaches `r`. |
| Selection.PickRarityOf | server.js:301-312 | `pickRarity` for the scaled draw `r`: 'normal' when the total is at most 0 or no running sum reaches `r`, otherwise the rarity of the first row whose running sum reaches `r`. |
| Selection.DrawnRarity | server.js:306 | The draw `Math.random() * total` followed by that walk. |
| Selection.FirstReachingUnique | server.js:307-309 | The walk stops at the first reaching row and at no other. |
| Selection.NonPositiveTotalIsNormal | server.js:303-304 | A total weight at or below zero yields 'normal'. |
| Selection.WalkStopsInTable | server.js:306-311 | For `0 <= r < total` the walk stops inside the table and returns that row's rarity, so the final `return 'normal'` is unreachable. |
| Selection.DrawnRarityFromTable | server.js:301-312 | With a positive total, the rarity drawn for any `u` is the rarity of some table row. |
| Selection.DrawnRowHasPositiveWeight | server.js:307-309 | For `0 < r < total` the walk stops at a row of the table, that row has a positive weight, and the drawn rarity is that of a positive-weight row. |
| Selection.ZeroWeightRarityNeverDrawn | server.js:307-309 | A rarity whose rows all weigh zero or less is never drawn by `0 < r < total`. With the seeded table, 'bonus' is never drawn. |
| Selection.WalkInterval | server.js:306-311 | With non-negative weights and `r > 0`, the walk stops at row `i` if and only if `r` lies in `(PrefixSum(i), PrefixSum(i+1)]`. That interval is as wide as row `i`'s weight. |
| Selection.SeedWeightBands | server.js:80-85 | The seeded weights total 100. The walk maps `(0,50]` to normal, `(50,80]` to common, `(80,95]` to rare and `(95,100)` to superrare. |
| Selection.ZeroDrawStopsAtFirstRow | server.js:306-309 | A draw of exactly 0 stops at the first row, even when that row weighs 0. |
| Selection.Candidates | server.js:315-318 | The query result holds exactly the enabled prizes of the requested rarity. Over a table in ascending id order the result is in ascending id order too, so each such prize appears once. |
| Selection.CandidateAtOneIndex | server.js:315-318 | Over a table in ascending id order, each enabled prize of the rarity sits at exactly one index of the query result. |
| Selection.PickPrizeByRarity | server.js:314-322 | A result is an enabled prize of the requested rarity. The result is null exactly when no such prize exists. |
| Selection.UniformPrizeDraw | server.js:321 | Candidate `k` is returned for every draw in the band `[k/n, (k+1)/n)`. |
| Selection.EachPrizeOneBand | server.js:315-321 | Over a table in ascending id order, each enabled prize of the rarity sits at exactly one index `k` of the query result and is returned exactly for the draws in `[k/n, (k+1)/n)`, so every such prize is equally likely. |
| Selection.PickAtIndex | server.js:321 | The pick is the candidate at index `Math.floor(u * n)` of the query result. |
| Selection.DrawPrize | server.js:367-373 | A drawn prize is enabled. It has the drawn rarity, or it is 'normal' when the drawn rarity has no enabled prize. Nothing is drawn exactly when neither the drawn rarity nor 'normal' has an enabled prize. |
| Ledger.GenCode | server.js:185-186 | A generated code has 8 characters, all from `ABCDEFGHJKLMNPQRSTUVWXYZ23456789`. |
| Ledger.GeneratedCodeUnambiguous | server.js:185 | A generated code never contains I, O, 0 or 1. |
| Ledger.FirstFresh | server.js:187 | The retry loop stops at the first attempt whose code is not already taken. Every earlier attempt was taken. |
| Ledger.GenerateCode | server.js:184-188 | The `do ... while` loop returns the code of the first attempt that is not taken, so the code is never taken. |
| Ledger.NormalizeCode | server.js:183 | A stored code has no leading or trailing whitespace and no ASCII lower-case letter. It is empty exactly when the supplied code is all whitespace. |
| Ledger.NormalizeCodeIdempotent | server.js:183 | Normalizing a stored code again changes nothing. |
| Ledger.NormalizeLowerCaseCode | server.js:183 | The supplied code "abc" is stored as "ABC". |
| Ledger.EnabledFlag | server.js:226-245 | `Number(enabled) ? 1 : 0` with the default `enabled = 1`: true when the field is absent or a non-zero number, false for 0 and for NaN. |
| Ledger.SetWeight | server.js:280-281 | The update sets the weight of the rows with the given rarity. It keeps every other row, and every row's rarity, as it was. |
| Ledger.PrizeIndex | server.js:229 | The lookup by id finds a row with that id, or reports that none exists. |
| Ledger.RemoveAt | server.js:262 | Deleting the row at index `i` leaves one row fewer, with the rows before `i` in place and those after it moved up by one. |
| Ledger.CheckDownloadName | server.js:412-415 | A name is accepted, unchanged, if and only if it contains no `/`, no `\` and no `..`. Rejection is `bad filename`. |
| Ledger.Database.constructor | server.js:42-86 | A fresh database file gives empty tables and the seeded weights normal 50, common 30, rare 15, superrare 5, bonus 0. |
| Ledger.Database.GetDevice | server.js:290-298 | An id that is empty after trimming is rejected with no change. Otherwise the trimmed id's spins are returned, and a missing device is created at 0. |
| Ledger.WalkWeights | server.js:306-311 | The subtract-until-not-positive loop returns exactly the rarity of the first row whose running sum reaches the draw, or 'normal' when it falls through. |
| Ledger.Database.DrawSpinPrize | server.js:367-372 | The draw of a spin is exactly the two-stage draw with its single fallback to 'normal'. |
| Ledger.Database.PickRarity | server.js:301-312 | The loop returns exactly `DrawnRarity` of the current weight table for the draw `u`. |
| Ledger.Database.Spin | server.js:358-390 | There are four outcomes:<br>1. A missing id is rejected with no change.<br>2. With no spins left the request is rejected, and the only change is the lazy creation of the device at 0.<br>3. When no prize is available after the single fallback the request is rejected with no debit.<br>4. Otherwise exactly this device loses one spin, the (device, prize) pair is in the collection, and the reply carries the prize's rarity, `/uploads/` URL and file. |
| Ledger.Database.RedeemSerial | server.js:325-355 | A missing code or device, an unknown code and a used code are each rejected with no change. Otherwise the code becomes used by the device, and the device, created at 0 if absent, gains exactly the code's spins. |
| Ledger.RedeemTwice | server.js:330-332 | Redeeming one code twice credits it once. The second call is refused as already used. |
| Ledger.Database.IssueSerial | server.js:177-202 | Spins that are not positive, or NaN, are rejected with no change. A supplied code is stored trimmed and upper-cased. A generated code is the first fresh attempt and was not present before. In every success the code is stored as unused, with no user and exactly the given spins, so an existing code is re-armed. Nothing else changes. |
| Ledger.IssueLowerCaseThenRedeem | server.js:330 | After issuing "abc", redeeming "abc" fails as an invalid code while "ABC" redeems its 5 spins. |
| Ledger.Database.UpdateRarityWeights | server.js:276-285 | Each listed rarity present in the request gets `Number(v) \|\| 0`. Every other row keeps its weight, and the rarities and their order are unchanged. The database invariant is kept. |
| Ledger.Database.MyCollection | server.js:393-409 | A missing id is rejected. Otherwise the result has one entry per prize that the device holds and that still exists. Each entry carries that prize's video and rarity and an owned count of 1. |
| Ledger.Database.OwnedCountIsOne | server.js:71-72 | The unique index leaves one collection row per (device, prize). |
| Ledger.Database.CreatePrize | server.js:212-223 | Without a video the request is rejected with no change. Otherwise an enabled row is appended under the next id, with its rarity defaulting to 'normal'. |
| Ledger.Database.UpdatePrize | server.js:225-248 | A missing or zero id and an unknown id are rejected with no change. Otherwise only that row changes: its rarity (default 'normal'), its enabled flag (`Number(enabled) ? 1 : 0`, default 1) and its video when a new one is uploaded. |
| Ledger.Database.DeletePrize | server.js:250-264 | A missing or zero id and an unknown id are rejected with no change. Otherwise exactly that row is removed and the others keep their order. |
| Client.SavedWeight | public/app.js:252-255 | The saved weight is never negative. It is 0 for a disabled row or a percent at or below 0. Otherwise it is the percent rounded, within one half of it. |
| Client.WithWeights | public/app.js:252-255 | `edited.map`: every edited row, in order, paired with its saved weight. |
| Client.MapKeys | public/app.js:259 | The keys of the `Map` are the distinct original ids, each once. |
| Client.FilterOut | public/app.js:263 | What is left of `byId` holds exactly the keys not deleted, with no duplicates. |
| Client.SaveOps | public/app.js:252-271 | The two loops produce exactly the reference sequence of ops: one op per edited row, in row order, then one delete per unmatched original id in `Map` order. |
| Client.SaveOpsLayout | public/app.js:258-271 | Op `i` belongs to edited row `i`, and the deletes follow every edit. |
| Client.UpdateExactlyOnce | public/app.js:260-264 | Each original id that some edited row carries gets exactly one update, at the first row carrying it. |
| Client.CreateExactlyForUnclaimed | public/app.js:260-266 | A row becomes a create, with no id and with its title, URL, weight and flag, exactly when its id is not original or an earlier row already claimed it. |
| Client.DeletesLast | public/app.js:268-271 | An op is a delete exactly when it comes after all the edited rows' ops. |
| Client.DeleteExactlyForUnclaimed | public/app.js:268-271 | There is a delete for an id if and only if the id is original and no edited row carries it. |
| Client.DeleteAtMostOnce | public/app.js:269-271 | No id is deleted twice. |
| Client.NoUpdateAndDelete | public/app.js:260-271 | No id is both updated and deleted. |
| Client.OpCount | public/app.js:258-271 | The number of ops is the number of edited rows plus the number of distinct original ids that no edited row carries. |
| Client.Browser.EnsureDeviceId | public/app.js:22-29 | A stored non-empty id is reused and storage is unchanged. Otherwise the fresh id is stored. The state's id is the stored one. |
| Client.EnsureDeviceIdTwice | public/app.js:22-29 | Later calls return the id the first call stored or found. |

## Left out

- HTTP plumbing: Express routing, request parsing, CORS, logging, static and SPA serving. Statuses appear only as comments on `ApiError`.
- Admin login and JWT signing and checking (server.js:111-133): authentication is outside the ledger.
- multer uploads, the upload filename generator and the `fs` unlink and exists calls. An upload is an optional stored file name.
- `/download/:file` after the name check (`fs.existsSync`, `res.download`): file-system I/O.
- The `all-lite`, `bonus-video`, serial list, prize list and weight list GET handlers: read-only queries outside the ledger's state changes.
- Timestamps (`used_at`, `obtained_at`): wall-clock values, so the collection query's `ORDER BY obtained_at` is not modelled and its result is a map keyed by prize id.
- The redeem race: the used-check sits outside the transaction, and the model runs handlers one at a time.
- Floating point: `Number(x)` is modelled as an integer or NaN. Fractional spins and weights, and Infinity, are not modelled.
- Integer width: spins and weights are unbounded integers. The source's JS numbers (`Number(spins)`, `row.spins`) are exact only below 2^53, and SQLite's INTEGER is 64-bit (`spins = spins + ?`, `spins = spins - 1`), so counts at or above 2^53 are rounded there, and the exact credit that `Ledger.Database.RedeemSerial` states holds in the source only below that bound. The model also admits integers that `Number` can never produce.
- JsBuiltins.ToUpper: `toUpperCase` is modelled on ASCII letters only. Non-ASCII case mappings are not modelled.
- Ledger.Database.IssueSerial: the generator's `do ... while` can retry without bound. The model takes its attempts as a finite sequence and requires one of them to give a fresh code.
- Ledger.Database.GetDevice: the `?? 0` fallback is not modelled, because the preceding insert makes the row exist.
- Request values that are neither strings nor numbers, for example a numeric device id or a `code` that is not text, are not modelled. Device ids and codes are strings, prize ids are JSON numbers, and an absent value is the empty string or `None`.
- Ledger.Database.UpdatePrize: the prize id is taken as a number. The route parses a multipart form (`server.js:225`), so the id arrives as text. Every non-empty text that reads as zero ("0", "00", "-0", "0.0") is truthy, and `WHERE id=?` compares it as the number 0 and finds no row, so the source answers 404 'not found' (`server.js:227-230`) where the model answers `IdRequired`.
- Ledger.Database.DeletePrize: the id is a JSON number as the route's JSON body gives it (`server.js:251-252`). A text id such as "0" sent in that body would likewise get 404 rather than `IdRequired`; that is not modelled.
- Ledger.Database.constructor: models a fresh database file only. Opening an existing file keeps its rows and seeds only the missing weight rows (`INSERT OR IGNORE`).
- Client.SaveOps: ids are integers. A row added in the page gets an integer id (`public/app.js:228`); a `NaN` id could only come from a prize row without an id, and that is not modelled. Weights are computed from real-valued percents.
- The client's `percentFromWeights`, `updatePercentSum` and the 100% confirmation (public/app.js:176-179, 211-221, 248-250): floating-point display logic with a user prompt.
- DOM access, tabs, animations, video playback, alerts and every `fetch` call of the client. The client also calls `/api/spins`, `/api/admin/serials/create` and `/api/admin/prizes/bulk`, which the server does not define, so those are not modelled.
