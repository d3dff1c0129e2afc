# cupid — a Dafny model of the slot sniffer and seckill engine

cupid is a command-line bot for nine-valent HPV vaccine slots. It has two commands:

- `sniff` scans two booking channels and prints a table of upcoming slots. The channels are YM (约苗) and ZMYY (知苗易约).
- `seckill` waits for one configured YM slot to open and then fires a burst of subscription requests.

This project models the decision logic of both channel engines and of the `sniff` command, and proves properties of it:

- **Region filter** (`Regions`). Configured entries `"P"` or `"P-c"` are turned into a selection of the province→cities codebook. Both engines share this code. The model is a loop method proved against a left fold.
- **YM scan** (`YuemiaoSniff`). There is one worker per selected province. Each worker probes its cities in order, rewrites municipality codes in place (an `array<City>`), and keeps upcoming nine-valent items. A worker that meets any failure sends nothing. The workers' lists are merged in any order of the provinces.
- **YM seckill** (`YuemiaoSecKill`). It covers:
  - target selection;
  - the countdown's tier table and polling loop over server-clock samples;
  - the burst loop and its stop test ten seconds after the start;
  - the classification of subscription replies into pauses.
- **Codebook construction** (`YuemiaoCodebook`). This is `FetchCityCode`'s grouping: municipalities under `直辖市`, switched-on special regions under `特别行政区`, and every other province with its child cities.
- **ZMYY scan** (`ZhimiaoSniff`). Provinces are walked one after another; for each city the hospital list is requested, and for each hospital its products. Codes get `00` appended in place. A failing city stops the walk but keeps what was found. A failing hospital is skipped.
- **`sniff` command** (`Service`). YM rows whose start has passed are dropped. ZMYY rows are dropped when unavailable. As written, every other ZMYY row gets the start time of a fixed window literal (`<year>-12-03 17:05:00`) and is dropped once that has passed; this is modelled (`Service.ZmRowAsWritten`, `Service.FixedWindowRows`) and reported under Findings. The command's loop, `Service.AddZmRows`, is modelled with the evidently intended rewrite instead: the product's own window `a 至 b` gives the start time `<year>-a:00`, and the row is dropped once that has passed. The rows go into a `SeckillTable` object.

Outside inputs are parameters:

- HTTP replies come as already-decoded reply datatypes, returned by oracle functions keyed by the query the source sends (region code, parent code, city query, hospital id).
- Time parsing is a function `toEpoch` from a date-time string to epoch seconds.
- The clock is a parameter: one reading `nowSec` per scan or per table loop (see Left out for where the source reads it more often), and one reading per countdown sample and per burst pass.
- The current year is the parameter `year`.
- Go's map iteration order is a choice (`:|`), returned as a ghost `order`.

Three behaviours of the code worth knowing:

- A YM worker that meets an error on one city sends nothing at all. It does not keep its partial results; `YuemiaoSniff.WorkerSendsIffAllAccepted` states this. Only the ZMYY walk keeps partial results (`ZhimiaoSniff.ZmWorkerKeepsPartial`).
- The countdown dispatches at 400 ms or less before the start, 400 included (`YuemiaoSecKill.TierBoundaries`).
- The burst stops on the first pass whose clock, in whole seconds, is more than ten seconds after the start. The pass that detects this still launches an attempt if the limiter admits it (`YuemiaoSecKill.BurstEndsAfterGrace`).

## Model

| member | source | states |
|---|---|---|
| Strings.Split | logic/yuemiao.go:53 | `strings.Split` with a non-empty separator always yields at least one piece |
| Strings.JoinSplit | logic/yuemiao.go:53 | splitting and joining with the same separator gives back the original string |
| Strings.SplitOnce | main.go:168 | a string with exactly one occurrence of the separator splits into the two sides |
| Strings.ContainsOccurs | logic/yuemiao.go:384 | `Contains` holds exactly when the keyword occurs at some position |
| Strings.Decimal | main.go:170 | `%v` of a year is a non-empty string of decimal digits |
| Strings.DecimalRoundTrip | main.go:170 | reading back the decimal form of a number gives the number |
| Domain.NoSpecialRegion | resource/resource.go:45-47 | no special administrative region is switched on |
| Domain.FlattenPermutation | logic/yuemiao.go:112-116 | two arrival orders of the same worker lists give the same multiset of candidates |
| Domain.FlattenMember | logic/yuemiao.go:112-116 | a candidate is merged exactly when some listed worker sent it |
| Domain.RewrittenAt | main.go:163-170 | rewriting every element of a list in place keeps its length and puts each element's rewritten form at the same position |
| Domain.RewrittenPrefix | logic/yuemiao.go:342-347 | after an in-place walk has rewritten the first `n` elements, those hold their rewritten forms and every later element is unchanged |
| Regions.ParseEntryMeaning | logic/yuemiao.go:53-60 | an entry classified as a whole province is the province name itself and has no dash; one classified as a city entry is exactly two dash-free names joined by one dash |
| Regions.ParseEntryRoundTrip | logic/yuemiao.go:53-60 | formatting `P` or `P-c` and classifying it gives back the same province and city |
| Regions.FirstNamed | logic/yuemiao.go:66-72 | returns the first city with the name, or nothing exactly when no city has it |
| Regions.ApplyEntry | logic/yuemiao.go:53-81 | one pass of the entry loop does what the entry's classification says: copies a known province, picks the first matching city or deletes the province, reports an unmatched entry, and panics only on a city entry with an unknown province |
| Regions.SelectRegions | logic/yuemiao.go:45-83 | the loop computes the left fold of the entries and stops at the first panic; with no entries it selects the whole codebook unchanged |
| Regions.FoldFailureSticks | logic/yuemiao.go:66 | after a panicking entry, later entries are not looked at |
| Regions.SelectionWithinBook | logic/yuemiao.go:52-80 | every selected province is in the codebook, with all its cities or exactly one of them |
| Regions.FailsExactlyOnUnknownProvince | logic/yuemiao.go:60-66 | the filter panics exactly when some `P-c` entry names a province missing from the codebook; unknown bare provinces and malformed entries never panic |
| Regions.UnmatchedAreReported | logic/yuemiao.go:74-81 | the entries logged as unmatched are exactly those that select nothing |
| Regions.WholeEntryCopies | logic/yuemiao.go:54-59 | a later `P` replaces `P`'s selection with its full city list; other provinces are unchanged |
| Regions.SkippedEntryKeepsSelection | logic/yuemiao.go:53-81 | a later malformed entry, or a bare entry naming no province of the codebook, leaves the selection as it was and is only reported as unmatched |
| Regions.CityEntryOverrides | logic/yuemiao.go:60-76 | a later `P-c` resets `P` to the first city named `c`, whatever was selected before; other provinces are unchanged |
| Regions.CityEntryMissDeletes | logic/yuemiao.go:74-79 | a later `P-c` with no city `c` deletes `P`, even when an earlier entry had selected it |
| Regions.SelectOneProvince | logic/yuemiao.go:52-59 | with provinces A and B, the entry list `["A"]` selects A alone |
| YuemiaoSniff.NamelessItemCrashesInDebug | logic/yuemiao.go:384-397 | an upcoming item without a vaccine name crashes the scan when debug is on, and is dropped when it is off |
| YuemiaoSniff.PickAgreesWhenNoCrash | logic/yuemiao.go:379-397 | apart from that crash, the as-written item filter agrees with the model's filter in both modes |
| YuemiaoSniff.CityPicksMembership | logic/yuemiao.go:376-398 | a city's candidates are exactly its upcoming items whose vaccine name holds 九价, each carrying the city name and the YM source |
| YuemiaoSniff.CityPicksAreUpcoming | logic/yuemiao.go:379-393 | no candidate starts before the probe's `now`; every one holds the keyword |
| YuemiaoSniff.WorkerSendsIffAllAccepted | logic/yuemiao.go:359-374 | a worker sends exactly when every city's probe is accepted; otherwise it stops at the first failing city and sends nothing |
| YuemiaoSniff.CollectCity | logic/yuemiao.go:376-398 | the item loop returns the city's filtered candidates in reply order |
| YuemiaoSniff.ProbeCity | logic/yuemiao.go:345-398 | one city of the worker: a municipality's code gains `01` and no other city changes; the city yields candidates exactly when its probe is accepted, and they are its filtered items |
| YuemiaoSniff.HasSeckill | logic/yuemiao.go:333-404 | returns the worker's output and reaches as many cities as the worker function says; the cities reached are left in their probed form (municipality codes gain `01`) and the others unchanged |
| YuemiaoSniff.RunWorker | logic/yuemiao.go:93-104 | a province contributes what its worker sent, or nothing |
| YuemiaoSniff.Outputs | logic/yuemiao.go:93-104 | there is one contribution per selected province |
| YuemiaoSniff.Sniff | logic/yuemiao.go:32-119 | a missing or unreadable codebook and a filter panic are errors; otherwise the result is the workers' lists concatenated in some order of the selected provinces |
| YuemiaoSniff.MergeIgnoresOrder | logic/yuemiao.go:93-116 | the merged multiset does not depend on the order the workers finish in |
| YuemiaoSniff.MergeMembership | logic/yuemiao.go:112-116 | a candidate is merged exactly when some selected province's worker sent it |
| YuemiaoSecKill.Target | logic/yuemiao.go:132-138 | the first candidate with the configured seckill id, or nothing exactly when none has it |
| YuemiaoSecKill.SelectTarget | logic/yuemiao.go:131-144 | fails with "not found" exactly when no candidate has the id; otherwise returns the first match |
| YuemiaoSecKill.Decide | logic/yuemiao.go:171-197 | at or past the start is an error; within 400 ms before it dispatches; otherwise it sleeps for less than the time remaining |
| YuemiaoSecKill.TierBoundaries | logic/yuemiao.go:174-197 | each tier boundary (400, 1200, 3000, 10000, 600000 and 3600000 ms) maps to the tier the code gives, with no off-by-one |
| YuemiaoSecKill.SleepShrinksTowardStart | logic/yuemiao.go:174-197 | a reading closer to the start never sleeps longer; once a reading dispatches, every closer reading before the start dispatches too, and once the start has passed, every closer reading reports it passed |
| YuemiaoSecKill.ServerNow | logic/yuemiao.go:154-169 | a failed or undecodable clock reply is an error; code `0000` gives the server time, any other code the local time |
| YuemiaoSecKill.FiresOnlyInWindow | logic/yuemiao.go:153-198 | the countdown fires only on a sample within 400 ms before the start; every earlier sample was further out and slept for its tier |
| YuemiaoSecKill.PassedIsTerminal | logic/yuemiao.go:174-175 | a sample at or past the start ends the countdown with the "passed" error |
| YuemiaoSecKill.CountdownScenario | logic/yuemiao.go:174-187 | samples T-5000 then T-350 sleep 1000 ms once, then fire on the second sample |
| YuemiaoSecKill.CountDown | logic/yuemiao.go:153-198 | the polling loop ends as the countdown function says, with the same sleeps |
| YuemiaoSecKill.BurstEndsAfterGrace | logic/yuemiao.go:202-211 | the burst ends on the first pass more than ten seconds after the start, having launched once per admitted pass up to and including it |
| YuemiaoSecKill.BurstRunsWithinGrace | logic/yuemiao.go:202-211 | up to ten seconds after the start the burst goes on, launching once per admitted pass |
| YuemiaoSecKill.BurstDispatch | logic/yuemiao.go:201-211 | the dispatch loop launches and stops as the burst function says |
| YuemiaoSecKill.Classify | logic/yuemiao.go:420-443 | a reply counts as answered exactly on code `0000`, and as a rejection exactly on an envelope with any other code |
| YuemiaoSecKill.PauseForReply | logic/yuemiao.go:434-442 | pauses 125 ms exactly on a throttling rejection and 2 s exactly on a session-timeout or missed rejection; every other reply does not pause |
| YuemiaoSecKill.SecKill | logic/yuemiao.go:122-214 | a sniff error or a missing target is returned; otherwise the countdown runs from the target's start, and a fired countdown is followed by the burst |
| YuemiaoCodebook.Append | logic/yuemiao.go:252-263 | appending under a key creates that key when absent and leaves every other key unchanged |
| YuemiaoCodebook.RejectedListLooksEmpty | logic/yuemiao.go:237-240 | as written, a rejected province list gives the same empty codebook as an accepted empty list; corrected, it is an error |
| YuemiaoCodebook.FetchSucceedsOnlyWhenAccepted | logic/yuemiao.go:225-240 | the corrected fetch succeeds only on an accepted province list, and otherwise agrees with the code |
| YuemiaoCodebook.GroupFailureSticks | logic/yuemiao.go:295-305 | after a child request fails, later provinces do not change the outcome |
| YuemiaoCodebook.GroupFailsOnChild | logic/yuemiao.go:295-305 | building fails exactly when some regular province's child request fails or is undecodable |
| YuemiaoCodebook.GroupListsNonEmpty | logic/yuemiao.go:307-324 | every key of the built codebook holds at least one city |
| YuemiaoCodebook.GroupRegularContents | logic/yuemiao.go:291-326 | a regular province holds all its entries' child cities in order, and has a key exactly when there is one |
| YuemiaoCodebook.GroupMunicipalities | logic/yuemiao.go:247-264 | the municipality group lists exactly the switched-on municipalities, codes unchanged, and exists exactly when there is one |
| YuemiaoCodebook.NoSpecialGroupInBook | logic/yuemiao.go:265-288 | the special-region group never appears, because the only special region is switched off |
| YuemiaoCodebook.AddChildren | logic/yuemiao.go:307-326 | the child loop appends all child cities under the province, creating the key only with the first one |
| YuemiaoCodebook.GroupProvince | logic/yuemiao.go:244-326 | one province entry adds what the grouping function says, and fails exactly when it is a regular province whose child request fails or cannot be decoded |
| YuemiaoCodebook.FetchCityCode | logic/yuemiao.go:217-330 | the fetch loop builds the codebook the grouping function describes, with the province-list check corrected |
| ZhimiaoSniff.ZmCodeAppendsZeroZero | logic/zhimiaoyiyue.go:109-113 | every city code sent to ZMYY is the code with `00` appended |
| ZhimiaoSniff.ProductPicksMembership | logic/zhimiaoyiyue.go:187-204 | a hospital's candidates are exactly its products whose text holds 九价 |
| ZhimiaoSniff.HospitalsPicksMembership | logic/zhimiaoyiyue.go:155-206 | a city's candidates are exactly the keyword products of hospitals whose product request was accepted; a failing hospital is skipped |
| ZhimiaoSniff.KeptWithoutTimeFilter | logic/zhimiaoyiyue.go:190-199 | a keyword product is kept whatever its date; the date becomes its start time unchanged |
| ZhimiaoSniff.ZmWorkerKeepsPartial | logic/zhimiaoyiyue.go:135-150 | a failing city ends the walk, which returns what the cities before it found |
| ZhimiaoSniff.ZmCandidatesShape | logic/zhimiaoyiyue.go:191-198 | every ZMYY candidate holds the keyword, names one of the province's cities and carries the ZMYY source |
| ZhimiaoSniff.CollectProducts | logic/zhimiaoyiyue.go:187-204 | the product loop returns the hospital's keyword products in order |
| ZhimiaoSniff.CollectHospitals | logic/zhimiaoyiyue.go:155-206 | the hospital loop returns the city's candidates, skipping failing hospitals |
| ZhimiaoSniff.VisitCity | logic/zhimiaoyiyue.go:106-206 | one city of the walk: its code gains `00`; the walk goes on exactly when the hospital list is accepted, and then the city yields its hospitals' keyword products |
| ZhimiaoSniff.ZmHasSeckill | logic/zhimiaoyiyue.go:99-210 | returns the walk's candidates; the cities reached are left with `00` appended to their codes and the others unchanged |
| ZhimiaoSniff.RunProvince | logic/zhimiaoyiyue.go:85-88 | a province contributes its walk's candidates |
| ZhimiaoSniff.ZmOutputs | logic/zhimiaoyiyue.go:85-88 | there is one contribution per selected province |
| ZhimiaoSniff.Sniff | logic/zhimiaoyiyue.go:29-91 | a missing or unreadable codebook and a filter panic are errors; otherwise the result is the provinces' candidates in some order of the selected provinces |
| ZhimiaoSniff.ZmMergeMembership | logic/zhimiaoyiyue.go:84-88 | a candidate is in the result exactly when some selected province's walk found it |
| Service.SeckillTable.constructor | main.go:111 | the table starts empty |
| Service.SeckillTable.AddRow | main.go:149 | adds the row at the end and keeps the earlier rows |
| Service.YmRowsMembership | main.go:135-154 | a YM row is shown exactly for a candidate that has not started, with its fields unchanged |
| Service.AddYmRows | main.go:135-154 | the YM loop appends exactly the YM rows, in order |
| Service.FixedWindowSplit | main.go:168 | the fixed window splits into `12-03 17:05` and `12-03 17:10` |
| Service.FixedOpening | main.go:168-170 | the fixed window always gives the start time `<year>-12-03 17:05:00` |
| Service.FixedWindowRows | main.go:163-177 | as written, every shown ZMYY row starts at 17:05 on 3 December of the current year, and either all available products are shown or none |
| Service.FixedWindowMasksDate | main.go:168-170 | a product whose window opens at any other time is shown, as written, with the fixed start time instead of its own |
| Service.ZmRowOfWindow | main.go:163-177 | as intended, a product with window `a 至 b` is shown starting at `<year>-a:00`, unless that has passed |
| Service.ZmRowsMembership | main.go:163-192 | (corrected window) a ZMYY row is shown exactly for a candidate whose row exists; never for an unavailable product |
| Service.StampRow | main.go:163-186 | (corrected window) one ZMYY candidate: an unavailable product gives no row and is not rewritten; otherwise its start time is rewritten from the window when that splits in two, and the row is dropped exactly when that time has passed |
| Service.AddStamped | main.go:163-187 | (corrected window) one ZMYY candidate's corrected row, if any, is added to the end of the table and nothing else changes in it |
| Service.AddZmRows | main.go:163-192 | (corrected window) the ZMYY loop appends exactly the corrected ZMYY rows, in order, and leaves every candidate in its stamped form in place |
| Service.SniffService | main.go:128-196 | (corrected window) either scan's error ends the command; otherwise the table holds the YM rows, then the corrected ZMYY rows |
| Service.TableRows | main.go:135-192 | (corrected window) no shown YM row has started, and no shown ZMYY row is an unavailable product |

## Left out

- Logging, and the fixed pauses between requests (500 ms per YM city, 1 s per ZMYY city, 500 ms per hospital). Logging and the ZMYY pauses do not change what is found. The YM pause does, through the clock readings: see the YuemiaoSniff.CollectCity line below.
- The countdown's sleeps are recorded, not performed.
- The scan's launch rate limiter (one worker every 500 ms, burst 5) only delays launches, so it is not modelled.
- The burst's limiter is modelled only as the `admitted` flag of each pass.
- Goroutines and the result channel: workers run one after another in an arbitrary order of the provinces. The merge is their concatenation in that order, which is what the channel yields for any finishing order.
- The subscription attempts are fire-and-forget goroutines. The model counts the launches; the pause each attempt takes is given by classifying its reply.
- HTTP and JSON are not modelled: URLs, headers (user agent, token, `zftsl` signature, referer) and query assembly for subscription. Replies arrive decoded. A reply with a field of an unexpected type, which panics at a type assertion, is not modelled, except in the first finding below.
- Time parsing (`carbon`) becomes the parameter `toEpoch`; `carbon.Now()` and the year become parameters.
- Service.SniffService reads the clock once per loop, not once per row.
- Service.ZmRowsMembership, Service.StampRow, Service.AddStamped, Service.AddZmRows, Service.SniffService and Service.TableRows follow the corrected ZMYY rewrite, which splits the product's own `start_time`, not the fixed literal at main.go:168. As written, every available product gets the start time `<year>-12-03 17:05:00` and is dropped once that has passed, whether or not its own text holds ` 至 `. Two products checked between 17:05 on 3 December and 09:00 on 20 December are dropped by the source and shown by these members: one with window `12-20 09:00 至 12-20 10:00`, and one with the plain date `2021-12-10` (no window, so it is never rewritten and has no time filter). The difference also runs the other way: a product with window `01-15 09:00 至 01-15 10:00`, checked between 09:00 on 15 January and 17:05 on 3 December, is shown by the source at `<year>-12-03 17:05:00` but dropped by these members, whose start `<year>-01-15 09:00:00` has passed. The as-written row is `Service.ZmRowAsWritten`, and `Service.FixedWindowRows` states what it shows.
- Service.StampRow: as written, the start time is always rewritten from the fixed literal; the model rewrites only when the product's own window splits in two (see the line above).
- Service.AddStamped: adds the corrected row, not the as-written one (see above).
- Service.AddZmRows: is proved against the corrected rows and stamped candidates, not against the fixed-literal rewrite (see above).
- Service.SniffService: its ZMYY rows are the corrected ones, so a product with its own window is shown with its own opening, not with 17:05 on 3 December (see above).
- Service.TableRows: its ZMYY half is about the corrected rows; for the as-written rows `Service.FixedWindowRows` gives the start time of every shown row.
- YuemiaoCodebook.FetchCityCode: is proved against the corrected `Fetch`, which makes a rejected province list an error. As written (logic/yuemiao.go:237-239), it returns no codebook and no error; that behaviour is `YuemiaoCodebook.FetchAsWritten`, and `YuemiaoCodebook.FetchSucceedsOnlyWhenAccepted` shows that the two agree wherever the corrected fetch succeeds and on every error both report.
- YuemiaoSniff.CollectCity, YuemiaoSniff.HasSeckill and YuemiaoSniff.Sniff use one clock reading `nowSec` for the whole YM scan. The source reads the clock again for every item (logic/yuemiao.go:380), and a worker pauses 500 ms after each city. An item whose start falls between the scan's first reading and the later reading for that item is dropped by the source but kept by the model.
- YuemiaoSniff.HasSeckill: filters every city's items against the one reading `nowSec` (see the line above).
- YuemiaoSniff.Sniff: passes the one reading `nowSec` to every worker (see above).
- Locations: `GetLocation`, the location field of codebook entries, and ZMYY's latitude/longitude query parameters are not modelled. Neither is the panic when a ZMYY city has no location.
- The `%v` formatting of non-string codebook values is not modelled; codes are strings.
- YuemiaoSecKill.CountDown and YuemiaoSecKill.BurstDispatch run over finite sequences of samples and passes. When these run out, the outcome is reported as still waiting or still bursting, instead of looping on.
- Service.SniffService takes the two scans' outcomes as inputs instead of calling them. Table printing is not modelled. The table library (github.com/go-agumon/table) is not part of this model: its `AddRow` is assumed to accept every row here, since each row carries exactly the six columns the table was created with (main.go:111), and its error path (main.go:188-191) is not modelled.
- Codebook file handling is not modelled: fetching the codebook when the file is absent, writing it, reading and decoding it. A file arrives as absent, unreadable or loaded.
- The `seckill` command wiring, command-line parsing, configuration parsing and logger set-up are not modelled.
- ZMYY's `SecKill` only logs and returns nil, so it is not modelled.
- Timestamps are unbounded integers. The source's int64 values do not overflow at realistic times.

## Findings

| source | as written | input that shows it | evidently intended | confidence | as-written member | corrected member |
|---|---|---|---|---|---|---|
| logic/yuemiao.go:394-395 | with debug on, an item without `vaccineName` reaches the debug log, which asserts the missing name to a string and panics | an upcoming YM item with no `vaccineName`, debug on | drop the item, as with debug off | high; not executed | YuemiaoSniff.PickAsWritten, YuemiaoSniff.NamelessItemCrashesInDebug | YuemiaoSniff.Pick, YuemiaoSniff.CityPicksMembership |
| logic/yuemiao.go:237-239 | a rejected province list returns `err`, which is nil there, so the caller writes `null` as the codebook file, goes on as if the fetch succeeded, and never fetches the codebook again because the file now exists | province reply `{"code": "0001", "ok": false}` | return an error | high; not executed | YuemiaoCodebook.FetchAsWritten, YuemiaoCodebook.RejectedListLooksEmpty | YuemiaoCodebook.Fetch, YuemiaoCodebook.FetchSucceedsOnlyWhenAccepted |
| main.go:168-170 | the rewrite splits the fixed text `12-03 17:05 至 12-03 17:10` instead of the product's own window | a ZMYY product with window `01-15 09:00 至 01-15 10:00` is shown starting at `<year>-12-03 17:05:00` | split the product's `start_time`; the command's loop (`Service.AddZmRows`) is modelled with this | medium; not executed | Service.ZmRowAsWritten, Service.FixedWindowMasksDate | Service.ZmRow, Service.ZmRowOfWindow |
