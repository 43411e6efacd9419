# Appointment Updater — a Dafny model

The Appointment Updater WordPress plugin shows a shop's next training
appointments on a page. The appointments are product variations whose SKU
holds the dates in the form `DD.MM.YY – DD.MM.YY (note)`. This project
models and proves properties of:

- **The server helpers** (`Appointment_Updater_Helpers`), in module `Helpers`, with `Skus` for the date parts of one SKU:
  - `normalize_date` turns a SKU into a display form `DD.MM.YYYY - DD.MM.YYYY` and a sortable form `YYYY.MM.DD - YYYY.MM.DD`;
  - `clean_product_variations` keeps the published variations that are not individual appointments and reshapes them into records;
  - `sort_dates_ascending` sorts records in place by start date;
  - `remove_duplicate_keys` keeps the first record per key;
  - `remove_dates_before_current_date` drops the leading run of past appointments.
- **The browser script** (`appointment-updater-helpers.js`), in module `ClientHelpers`. It reads the cached responses the page hands it as `SCRIPT_DATA`, then cleans, flattens, sorts and de-duplicates them and renders the first entries. Its `normalize_date` and its test for individual appointments differ from the server's, and the model states these differences as lemmas.
- **The controller** (`Appointment_Updater`), in module `Updater`. It has one cached slot (a WordPress transient), the shortcode handler `run`, `clear_cache`, the HTTP session parameters, and the requests for products and for each product's variations. HTTP is abstract: a `Shop` value answers a GET with a response or a failure.
- **The settings side** (`Appointment_Updater_Admin`), in module `Admin`:
  - `get_option_for`;
  - `sanitize`;
  - the `update_option` hook that detects a changed connection setting through `array_diff`;
  - `schedule_single_event`, which clears any pending event of a hook before scheduling a new one;
  - the AJAX handler that schedules `clear_cache`.

Supporting modules:

- `Strings` covers PHP and JavaScript string built-ins: `trim`, `explode`/`split`, `implode`/`join`, `strpos`/`indexOf`, `str_replace`, the first-only `replace`, `toLowerCase`, and `strcmp` order.
- `Filtering` covers filter/map, flatten and filter-by-index.
- `Dedup` gives the first-occurrence specification shared by `remove_duplicate_keys` and `removeDuplicateKey`.
- `Sorting` is the in-place sort on an array, specified by a stable insertion sort on sequences.
- `Wrappers` holds `Option`.

## Model

| member | source | states |
|---|---|---|
| Helpers.BeforeParenthesis | src/includes/Appointment_Updater_Helpers.php:47 | the result is a prefix of the SKU, cut at the first '(' only when that '(' is at an index above 0; with no '(' or a '(' at index 0 the whole SKU is kept |
| Helpers.DateTokens | src/includes/Appointment_Updater_Helpers.php:47-49 | at least one token, and no token holds '-' or an en-dash |
| Helpers.DateTokensRejoin | src/includes/Appointment_Updater_Helpers.php:48-49 | joining the tokens with '-' gives back the truncated SKU with every en-dash replaced by '-' |
| Helpers.NormalizeDate | src/includes/Appointment_Updater_Helpers.php:46-60 | the foreach loop returns exactly the display and sortable strings of the specification NormalizedDate |
| Helpers.FormsHaveNoDash | src/includes/Appointment_Updater_Helpers.php:52-59 | no display or sortable date form contains '-', so " - " separates components unambiguously |
| Helpers.DisplaySplits | src/includes/Appointment_Updater_Helpers.php:60 | splitting the display result on " - " gives back the display form of each token |
| Helpers.SortableSplits | src/includes/Appointment_Updater_Helpers.php:60 | splitting the sortable result on " - " gives back the sortable form of each token |
| Helpers.NormalizedComponents | src/includes/Appointment_Updater_Helpers.php:49-60 | both results have one component per token, and each sortable component is the dot-reversal of the display component at the same position (both ways) |
| Helpers.NormalizedYears | src/includes/Appointment_Updater_Helpers.php:53-56 | each displayed date keeps day and month and prefixes the year with "20" exactly when the year part has two characters |
| Helpers.CleanedRecords | src/includes/Appointment_Updater_Helpers.php:25-37 | one record per published variation whose SKU lacks the case-sensitive "Individuell", in input order, with no more records than variations; each record carries the given product id and name, the variation's permalink and its normalised dates |
| Helpers.CleanProductVariations | src/includes/Appointment_Updater_Helpers.php:23-38 | the foreach loop returns exactly the records of the specification Cleaned |
| Helpers.SortDatesAscending | src/includes/Appointment_Updater_Helpers.php:69-84 | the array afterwards is the stable sort of its old contents by strcmp of the start date (first '-' piece of the sortable date, right-trimmed): sorted, a permutation of the old contents, and records with equal start dates keep their old order; the result is true |
| Helpers.RemoveDuplicateKeys | src/includes/Appointment_Updater_Helpers.php:92-102 | the loop with its list of seen values returns exactly the first occurrence of every key value, in order |
| Helpers.DropPastPrefix | src/includes/Appointment_Updater_Helpers.php:110-121 | the result is a suffix of the input; every dropped record is past and the first kept record is not |
| Helpers.DropPastPrefixAt | src/includes/Appointment_Updater_Helpers.php:114-120 | a past prefix that ends at the end of the input or at a current record is exactly what is dropped |
| Helpers.RemoveDatesBeforeCurrentDate | src/includes/Appointment_Updater_Helpers.php:110-121 | the loop with its offset and break returns exactly the specification DropPastPrefix |
| Helpers.SortedLeavesNoPast | src/includes/Appointment_Updater_Helpers.php:114-120 | on input sorted by start date, no remaining record starts before today |
| Helpers.StartingTodayIsKept | src/includes/Appointment_Updater_Helpers.php:117 | a first record starting today stops the scan, so nothing is dropped |
| Helpers.UnsortedKeepsPast | src/includes/Appointment_Updater_Helpers.php:118 | on unsorted input a past record behind a current one survives |
| Skus.DateParts | src/includes/Appointment_Updater_Helpers.php:54-56 | one part per '.'-piece, none holding '.', each made of the token's characters and the added "20" |
| Skus.DisplayOfParts | src/includes/Appointment_Updater_Helpers.php:54-58 | the display form splits back on '.' into the raw parts, the year widened exactly when it has two characters |
| Skus.ReversedRoundTrip | src/includes/Appointment_Updater_Helpers.php:57-58 | reversing the sortable form's parts again gives the display form, and the other way round |
| Skus.FormChars | src/includes/Appointment_Updater_Helpers.php:57-58 | a character other than '.', '2' and '0' that is absent from the token is absent from both forms |
| Sorting.SortByKey | src/includes/Appointment_Updater_Helpers.php:70-83 | the array afterwards is the stable sort of its old contents by the key: sorted, a permutation of them, and elements with equal keys in their old order |
| Sorting.StableSortedSorted | src/includes/Appointment_Updater_Helpers.php:70-83 | the stable sort is sorted by the key |
| Sorting.StableSortedPermutation | src/includes/Appointment_Updater_Helpers.php:70-83 | the stable sort is a permutation of its input |
| Sorting.StableSortedKeepsTies | src/includes/Appointment_Updater_Helpers.php:70-83 | for every key value, the elements with that key come out in their input order (strcmp and localeCompare both give 0 on equal keys, and usort and Array.prototype.sort keep such elements in place) |
| Sorting.StableFirstAmongTies | src/js/appointment-updater-helpers.js:20 | if an element is the first in the sorted result to satisfy a condition, it comes from an input position before which no element satisfying the condition has its key |
| Dedup.FirstOccurrencesDistinct | src/includes/Appointment_Updater_Helpers.php:95-100 | the kept records have pairwise distinct key values |
| Dedup.FirstOccurrencesMembers | src/includes/Appointment_Updater_Helpers.php:95-100 | every kept record comes from the input |
| Dedup.FirstOccurrencesCover | src/includes/Appointment_Updater_Helpers.php:95-100 | every key value of the input is the key of some kept record |
| Dedup.FirstOccurrencesPositions | src/includes/Appointment_Updater_Helpers.php:92-102 | the kept records are the input at ascending positions, and a position is kept exactly when it is the first with its key value (a subsequence) |
| Dedup.FindIndex | src/js/appointment-updater-helpers.js:87 | findIndex gives the first index whose key matches, or -1 exactly when there is none |
| Dedup.FindIndexIsFirst | src/js/appointment-updater-helpers.js:86-87 | findIndex of a record's key lands on its own index exactly when the record is the first with that key |
| Dedup.RemoveDuplicateKeyIsFirst | src/js/appointment-updater-helpers.js:85-89 | the filter/findIndex expression keeps exactly the first occurrence of each key value, in order (the server's remove_duplicate_keys result) |
| Dedup.FirstOccurrencesSorted | src/js/appointment-updater-helpers.js:20-21 | de-duplicating a sorted list leaves it sorted |
| Dedup.FirstOfSortedIsLeast | src/js/appointment-updater-helpers.js:20-21 | on a sorted list the record kept for a key sorts no later than any record with that key |
| Filtering.FlattenMembers | src/js/appointment-updater-helpers.js:19 | an element is in the flattened list exactly when it is in one of the lists |
| Filtering.FlattenSkipsEmpty | src/js/appointment-updater-helpers.js:19 | dropping the empty lists before flat() does not change the result |
| Strings.ReplaceFirstIsAll | src/js/appointment-updater-helpers.js:72 | with at most one en-dash, the first-only replace equals the replace-all |
| ClientHelpers.JsBeforeParenthesis | src/js/appointment-updater-helpers.js:70-71 | the result is a prefix of the SKU cut at the first '(', wherever it is, including index 0 |
| ClientHelpers.JsDateTokens | src/js/appointment-updater-helpers.js:72 | at least one token and none holds '-' |
| ClientHelpers.NormalizeDateJs | src/js/appointment-updater-helpers.js:67-83 | the forEach returns exactly the specification JsNormalizedDate: all display forms joined with " - " and the first token's sortable form alone |
| ClientHelpers.NormalizeToken | src/js/appointment-updater-helpers.js:73-81 | the callback's two pushed strings are the token's display and sortable forms |
| ClientHelpers.WidenedParts | src/js/appointment-updater-helpers.js:75-77 | widening date[2] in place gives the token's date parts |
| ClientHelpers.JsFormsHaveNoDash | src/js/appointment-updater-helpers.js:79-80 | no date form holds '-' |
| ClientHelpers.JsNormalizedComponents | src/js/appointment-updater-helpers.js:73-82 | the display result splits on " - " into the display forms of the tokens, one per token; the sortable result holds no '-' and is the dot-reversal of the first display component |
| ClientHelpers.JsNormalizedYears | src/js/appointment-updater-helpers.js:74-79 | each displayed date keeps the token's day and month and prefixes the year with "20" exactly when the year part has two characters |
| ClientHelpers.TokensAgree | src/js/appointment-updater-helpers.js:70-72 | with at most one en-dash and no '(' at index 0, the browser splits the same tokens as the server |
| ClientHelpers.AgreesWithServer | src/js/appointment-updater-helpers.js:67-83 | under those conditions and where both trims agree on whitespace, the browser shows the server's display string and sorts by the server's first sortable component |
| ClientHelpers.ParenthesisFirstDiffers | src/js/appointment-updater-helpers.js:70-71 | a SKU starting with '(' is kept whole by the server but emptied by the browser, which then cannot normalise it |
| ClientHelpers.SecondEnDashKept | src/js/appointment-updater-helpers.js:72 | with two en-dashes some browser token still holds one, while no server token does |
| ClientHelpers.JsEligibleIsServerEligible | src/js/appointment-updater-helpers.js:51 | every variation the browser keeps is kept by the server |
| ClientHelpers.LowercaseMarkerDiffers | src/js/appointment-updater-helpers.js:51 | a published variation with the marker only in lower case is kept by the server and dropped by the browser |
| ClientHelpers.KeyId | src/js/appointment-updater-helpers.js:49 | the id part never holds "_x_" and is the whole key when the key has no "_x_" |
| ClientHelpers.KeyName | src/js/appointment-updater-helpers.js:49 | the name part is undefined when the key has no "_x_", and never holds "_x_" |
| ClientHelpers.KeyRoundTrip | src/js/appointment-updater-helpers.js:49 | a key built as id + "_x_" + name, with a name free of "_x_", splits back into exactly the id and the name |
| ClientHelpers.KeyNameCut | src/js/appointment-updater-helpers.js:49 | a name holding "_x_" reaches the browser cut short |
| ClientHelpers.JsCleanedRecords | src/js/appointment-updater-helpers.js:47-65 | one record per published variation whose lower-cased SKU lacks "individuell", in input order; each carries the id and name split from the key, the permalink and the browser's normalised dates |
| ClientHelpers.CleanProductVariationsJs | src/js/appointment-updater-helpers.js:47-65 | the forEach returns exactly the specification JsCleaned |
| ClientHelpers.EarliestPerProduct | src/js/appointment-updater-helpers.js:20-21 | after the sort, removeDuplicateKey by productId leaves a sorted list with one record per product, and each record is an earliest record of its product |
| ClientHelpers.KeptAgainstAll | src/js/appointment-updater-helpers.js:20-21 | the kept records come from all the records, cover every product, and sort no later than any record of the same product |
| ClientHelpers.PreparedProperties | src/js/appointment-updater-helpers.js:15-21 | the prepared list is sorted by sortable date, holds one record per product that has a cleaned record, each an earliest cleaned record of its product, and is never longer than the cleaned records |
| ClientHelpers.PreparedFirstAmongTies | src/js/appointment-updater-helpers.js:15-21 | the record kept for a product comes first in entry order among that product's records with its date: every earlier record of the product has a strictly later date |
| ClientHelpers.PrepareAppointments | src/js/appointment-updater-helpers.js:15-21 | the loop, flatten, in-place sort and removeDuplicateKey return exactly the specification Prepared; so the result is sorted, holds one record per product with a cleaned record, each an earliest one and, among records of the product with that date, the first in entry order, and is never longer than the cleaned records |
| ClientHelpers.CreateAppointmentNodes | src/js/appointment-updater-helpers.js:28-45 | all records are rendered when SHOW_ALL is set, otherwise min(3, total), and entry i shows record i |
| ClientHelpers.RunScript | src/js/appointment-updater-helpers.js:7-24 | missing VARIATIONS reads as {} and renders nothing. When some cached response has no body that parses to a list, or an eligible SKU has no year, the script throws before rendering and nothing is shown. Otherwise the entries are NodeFor of the specification Prepared, in order: all of it when SHOW_ALL is true, otherwise min(3, its length) |
| ClientHelpers.FailedRequestBlanksPage | src/js/appointment-updater-helpers.js:50 | one cached entry whose request failed, or whose body does not parse to a list, makes the whole list unrenderable |
| ClientHelpers.AnsweredMembers | src/includes/Appointment_Updater.php:200-204 | the answered entries are exactly the entries whose request succeeded with status 200, none added |
| ClientHelpers.AnsweredAppend | src/includes/Appointment_Updater.php:200-204 | selecting the answered entries distributes over concatenation |
| ClientHelpers.FailedRequestIgnored | src/includes/Appointment_Updater.php:200-204 | an entry whose request failed or was not a 200, placed anywhere among the others, leaves the answered entries as they are without it |
| ClientHelpers.AllAnsweredKept | src/includes/Appointment_Updater.php:200-204 | when every request was answered with status 200, no entry is dropped, so the corrected script behaves as the script as written |
| ClientHelpers.RunScriptIntended | src/includes/Appointment_Updater.php:200-204 | as RunScript, run on the answered entries only: failed requests contribute nothing and the other products' appointments are shown |
| Updater.EndpointShape | src/includes/Appointment_Updater.php:217-219 | every endpoint built starts with "/wp-json/wc/v3/", and what follows has no surrounding whitespace |
| Updater.EndpointIgnoresSpace | src/includes/Appointment_Updater.php:217-219 | whitespace around the short endpoint never reaches the URL |
| Updater.EndpointAsWritten | src/includes/Appointment_Updater.php:217-219 | a short endpoint without surrounding whitespace is appended to "/wp-json/wc/v3/" as written |
| Updater.UrlsAsWritten | src/includes/Appointment_Updater.php:130-131 | the product request is products?per_page=n and the variations request is products/{id}/variations under the API prefix |
| Updater.Put | src/includes/Appointment_Updater.php:161 | assigning a key adds it to the keys, grows the array only for a new key, and keeps keys distinct |
| Updater.PutLookup | src/includes/Appointment_Updater.php:161 | after the assignment the key reads the new value and every other key reads what it read before |
| Updater.PutAllKeys | src/includes/Appointment_Updater.php:159-164 | building the array keeps keys distinct, has no more entries than assignments and holds exactly the assigned keys |
| Updater.PutAllLast | src/includes/Appointment_Updater.php:159-164 | a key reads the value of its last assignment |
| Updater.RequestsForProducts | src/includes/Appointment_Updater.php:158-164 | one request per distinct "{id}_x_{name}" key, never more requests than products, and every product's key present |
| Updater.RequestsLastWins | src/includes/Appointment_Updater.php:161 | the URL at a key is that of the last product with that key |
| Updater.ProductsFrom | src/includes/Appointment_Updater.php:132-143 | a failure or a status other than 200 gives []; a 200 gives the decoded body |
| Updater.Dispatch | src/includes/Appointment_Updater.php:167 | one outcome per request, under its key and in request order |
| Updater.VariationResponsesShape | src/includes/Appointment_Updater.php:155-168 | no products, null products or a throwing batch give []; otherwise each request key carries the shop's raw outcome for its URL |
| Updater.RequestCompleteCallback | src/includes/Appointment_Updater.php:200-204 | the raw body is returned exactly when the request succeeded with status 200, and [] otherwise |
| Updater.ShowAllUnlessNextThree | src/includes/Appointment_Updater.php:107 | SHOW_ALL is false exactly when a stored row holds 'next-three-appointments' for the dropdown |
| Updater.Live | src/includes/Appointment_Updater.php:95-96 | the transient reads its value until it expires, and false (None) after that or when absent |
| Updater.StoredValueServed | src/includes/Appointment_Updater.php:100 | a value stored at now is served until two days later and not after |
| Updater.Page | src/includes/Appointment_Updater.php:103-120 | '' without page data for false or an empty value; otherwise the container, with the value and SHOW_ALL handed to the script |
| Updater.MissRendersNothing | src/includes/Appointment_Updater.php:95-105 | rendering the value read on a miss gives '' while rendering the non-empty fetched value gives the container |
| Updater.AppointmentUpdater.constructor | src/includes/Appointment_Updater.php:41-47 | the first instance has a session built from the stored settings |
| Updater.AppointmentUpdater.InitSessionHandler | src/includes/Appointment_Updater.php:63-91 | the session becomes the one built from the current base URL, key and secret, with JSON content type and 30-second timeouts; the cache is untouched |
| Updater.AppointmentUpdater.ClearCache | src/includes/Appointment_Updater.php:58-61 | the slot is empty, so the next run is a miss, and the session is rebuilt from the settings |
| Updater.AppointmentUpdater.GetProducts | src/includes/Appointment_Updater.php:128-145 | one GET of products?per_page=n, with the result of ProductsFrom |
| Updater.AppointmentUpdater.GetVariationsOfAllProducts | src/includes/Appointment_Updater.php:155-168 | the foreach builds the requests array and the result is the specification VariationResponses |
| Updater.AppointmentUpdater.Run | src/includes/Appointment_Updater.php:94-121 | a miss stores the fetched variations for two days and returns '' without page data; a hit leaves the slot alone and returns '' for an empty value and otherwise the container with the value and SHOW_ALL; the session never changes |
| Updater.AppointmentUpdater.RunIntended | src/includes/Appointment_Updater.php:94-121 | as Run, except that the value rendered is the one the slot holds afterwards, so a miss renders what it fetched |
| Admin.GetOptionFor | src/admin/Appointment_Updater_Admin.php:235-238 | '' when the settings row is absent; with a row, a non-null result exactly when the trimmed name is stored, and then the value stored under it |
| Admin.GetOptionForTrims | src/admin/Appointment_Updater_Admin.php:237 | surrounding whitespace in the requested name does not matter |
| Admin.GetOptionForMissing | src/admin/Appointment_Updater_Admin.php:237 | with a stored row, an unset name reads as null |
| Admin.ConnectionChanged | src/admin/Appointment_Updater_Admin.php:47-49 | true exactly when the stored consumer key, consumer secret or base URL has an old value that is no longer the value of any setting |
| Admin.ArrayDiff | src/admin/Appointment_Updater_Admin.php:47 | exactly the old entries whose value occurs nowhere among the new values, keys not compared |
| Admin.UnchangedNotDetected | src/admin/Appointment_Updater_Admin.php:46-52 | saving the same settings again schedules nothing |
| Admin.DropdownChangeNotDetected | src/admin/Appointment_Updater_Admin.php:47-49 | changing only the dropdown schedules nothing |
| Admin.ChangedValueDetected | src/admin/Appointment_Updater_Admin.php:47-49 | a connection setting whose old value no longer occurs among the new values is detected |
| Admin.SwapNotDetected | src/admin/Appointment_Updater_Admin.php:47 | swapping consumer key and secret changes the settings but is not detected |
| Admin.FirstSettingNotDetected | src/admin/Appointment_Updater_Admin.php:47 | connection settings absent from the old row are never detected, whatever their new values |
| Admin.Sanitize | src/admin/Appointment_Updater_Admin.php:150-166 | the key-by-key construction returns exactly the specification Sanitized |
| Admin.SanitizedSettings | src/admin/Appointment_Updater_Admin.php:150-166 | exactly the recognised keys that are set survive, credentials through sanitize_key, the URL through sanitize_url and the dropdown verbatim |
| Admin.SanitizeIdempotent | src/admin/Appointment_Updater_Admin.php:150-166 | with idempotent sanitisers, sanitising twice equals sanitising once |
| Admin.WithoutHookPending | src/admin/Appointment_Updater_Admin.php:248 | clearing a hook leaves none of its events and every other hook's events unchanged |
| Admin.ClearedHookEmpty | src/admin/Appointment_Updater_Admin.php:248 | no event of the cleared hook is left |
| Admin.ClearKeepsOthers | src/admin/Appointment_Updater_Admin.php:248 | another hook's events are kept, in order |
| Admin.PendingAfterAppend | src/admin/Appointment_Updater_Admin.php:250 | a new event is added to its own hook's pending list and to no other |
| Admin.Scheduler.ClearScheduledHook | src/admin/Appointment_Updater_Admin.php:248 | the store loses exactly the hook's events |
| Admin.Scheduler.ScheduleSingleEvent | src/admin/Appointment_Updater_Admin.php:250 | an accepted event is appended to the store, and a refused one leaves the store alone |
| Admin.ClearedPending | src/admin/Appointment_Updater_Admin.php:247-249 | after the conditional clear the hook has no pending event and others keep theirs |
| Admin.AppendedPending | src/admin/Appointment_Updater_Admin.php:250 | appending the hook's event to a cleared store leaves exactly that event pending for the hook |
| Admin.ScheduleSingleEvent | src/admin/Appointment_Updater_Admin.php:245-251 | the result is the scheduler's; afterwards the hook has exactly one pending event, due at now + delay, when accepted and none otherwise, and other hooks are untouched |
| Admin.ScheduleEventToClearCache | src/admin/Appointment_Updater_Admin.php:71-78 | 'clear_cache' is scheduled 15 seconds ahead and other hooks' events stay as they were; the reply is success(true), or the error message when scheduling failed |
| Admin.OnOptionsUpdated | src/admin/Appointment_Updater_Admin.php:46-54 | with a changed connection setting, 'clear_cache' is pending once, 15 seconds ahead when accepted, and other hooks' events stay as they were; otherwise the scheduler is untouched |

Some definitions have no contract of their own. The lemmas in the rows above state their meaning:

- Dedup.RemoveDuplicateKey (the script's `removeDuplicateKey`) is characterised by Dedup.RemoveDuplicateKeyIsFirst.
- Updater.BuildApiEndpoint (`build_api_endpoint`) is characterised by Updater.EndpointShape, Updater.EndpointIgnoresSpace and Updater.EndpointAsWritten.
- Updater.ShowAll (the SHOW_ALL value in `run`) is characterised by Updater.ShowAllUnlessNextThree.
- Helpers.IsEligible (the server's filter) is characterised by Helpers.CleanedRecords.
- ClientHelpers.JsEligible (the browser's filter) is characterised by ClientHelpers.JsCleanedRecords, ClientHelpers.JsEligibleIsServerEligible and ClientHelpers.LowercaseMarkerDiffers.
- Sorting.StableSorted and Sorting.Insert (the stable sort usort and Array.prototype.sort perform) are characterised by Sorting.StableSortedSorted, Sorting.StableSortedPermutation and Sorting.StableSortedKeepsTies. Sorting.WithKey (the elements with one key value) is the filter those lemmas use.
- ClientHelpers.Prepared (what lines 15-21 of the script compute) is characterised by ClientHelpers.PreparedProperties and ClientHelpers.PreparedFirstAmongTies.
- ClientHelpers.Answered (the entries request_complete_callback means to keep) is characterised by ClientHelpers.AnsweredMembers, ClientHelpers.AnsweredAppend, ClientHelpers.FailedRequestIgnored and ClientHelpers.AllAnsweredKept.

## Left out

- HTTP is left out: the Requests session, basic authentication, its hooks and the concurrent `request_multiple`. The model stores the batch's responses in request order. The script's sort is stable, so this order decides which of two records of one product with the same date is kept, and the order of equal dates on the page; if the transport recorded responses in completion order, those two choices could differ. A `Shop` value stands in for the shop. It gives a GET's outcome, whether a batch throws as a whole, and the decoding of a product list.
- `json_decode` and `JSON.parse` are parameters. `json_encode` is modelled as passing the cached responses through unchanged: `PageScript.variations` reaches the script as `ScriptData.variations`. A `RequestFailed` outcome stands for the encoded exception, an object without a body. `sanitize_key` and `sanitize_url` are parameters. `wp_send_json_*` is an `AjaxReply` value.
- The server side follows PHP 8 semantics. The plugin header allows PHP 7.3. There, `substr($date, 0, null)` at Appointment_Updater_Helpers.php:47 returns '' instead of the whole SKU, so a SKU without '(' would lose its dates. `str_contains` exists there only through the polyfill of WordPress 5.9 and later. PHP 7 is not modelled.
- The nonce check (`check_ajax_referer`) is not modelled.
- The wall clock is a parameter. `date("Y.m.d")` becomes `today`, and `time()` becomes `now`. Transient expiry is a comparison with an expiry time.
- WordPress registration and the UI are not modelled: actions, the shortcode, settings pages, field callbacks and the settings renderer. The singleton guards and `wp_die` are left out too.
- Whether WordPress accepts a scheduled event depends on filters and storage. It is the parameter `accepted`.
- DOM and jQuery are left out. `createAppointmentNodes` builds (href, html) pairs instead of elements. The `$(document).ready` and `.data` plumbing is not modelled.
- The code after `return` in `get_variations_of_all_products` and `request_complete_callback` is unreachable, so it has no behaviour here. `run` never sorts, de-duplicates or drops past dates.
- Sorting.SortByKey: `localeCompare` and `strcmp` are both modelled as lexicographic order on characters. Locale collation is left out. The keys compared are digit-and-dot strings.
- Strings.ToLower: only ASCII letters are lower-cased. JavaScript's full Unicode case mapping is not modelled.
- Strings are sequences of characters. PHP works on UTF-8 bytes, which makes the en-dash three bytes; here it is the single character U+2013.
- ClientHelpers.NormalizeDateJs requires every trimmed token to have a third '.'-part. Without one, the script throws a TypeError and stops.
- ClientHelpers.RunScript models a throw during lines 15-17 as rendering nothing. That covers `JSON.parse` of a missing body, `forEach` on a parsed value that is not a list, and `normalize_date` on a SKU without a year. Which statement throws, and the error it reports, are not modelled.
- Skus.DateParts is total. In PHP 8, a token without a year part reads `$_date[2]` as null with a warning. `strlen(null)` is 0, so the year is not widened. The server side therefore needs no well-formedness precondition.

## Findings

| source | as written | input that shows it | evidently intended | confidence | as-written member | corrected member |
|---|---|---|---|---|---|---|
| src/includes/Appointment_Updater.php:95-105 | on a miss, `run` fetches and stores the variations. `$next_appointments` stays `false`, so the call returns '' and hands the browser nothing. | an expired or cleared cache and a shop whose products have variations, so the fetched value is non-empty (Updater.MissRendersNothing) | render the value just fetched, as a hit would | high; not executed | Updater.AppointmentUpdater.Run | Updater.AppointmentUpdater.RunIntended |
| src/includes/Appointment_Updater.php:200-204 | the callback returns [] for a failed or non-200 request, but `request_multiple` ignores what the callback returns, so the failure is cached as it is. The script's `JSON.parse(productVariations.body)` (appointment-updater-helpers.js:50) then throws, and the whole list stays blank for the two days the cache lives | one of the variations requests times out while the others succeed (ClientHelpers.FailedRequestBlanksPage) | a failed request contributes no appointments and the other products are shown | high; not executed | ClientHelpers.RunScript | ClientHelpers.RunScriptIntended |
