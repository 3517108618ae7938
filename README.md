# seal-api-examples preview library: a Dafny model

The preview example's client library (`preview/src/lib.js`) fetches a contract's
preview markup and its metadata from the Seal API. It joins the two fetches, and
it turns the metadata into an index of annotations. A page can then style and
query those annotations by category and text offset. This project models the
library's computational core and proves what it does:

- **Paged metadata fetch** (`_getMetadata`). It requests pages of
  `limit` items starting at `offset`. Both come from the options with
  `|| 0` and `|| 25`. It keeps requesting the next page at
  `offset + limit` while the reported `totalCount` exceeds
  `limit + offset`. It concatenates the pages' items. A failed page ends the
  chain with its error. This is module `Paging`, and the recursive
  continuation is run as a loop.
- **Normaliser** (`_massageMetadata`, with `kvpsToDict` and `metadataValueToAnn`).
  Each value of a group becomes an annotation:
  - its `inReview` flag says whether the group name ends in `.Review`;
  - its `category` is the name with its first `.Review` removed;
  - its attributes become a dictionary;
  - its id is `category + "_" + offset`.

  Annotations whose `scd_start_offset` is `null` or missing are dropped. The
  rest are keyed by id, a later one overwriting an earlier one. This is module
  `Metadata`, with the JSON scalars and `String(v)` in module `Json`.
- **Join** (`demoLib.par`). A class `Par.Join` holds the outcome map `res`. Its
  `Settle` method records a child's outcome and reports whether, and with what,
  the join's callback fires. `Par.Run` replays any order of settlements.
  Module `Client` uses the join for `_getAll`, and also models
  `_getAllMetadata`.
- **Utilities** `uniq`, `toList`, `toDict` and `flat` are in module `Utils`.
  It also holds `Assign`, the left fold that specifies the keyed
  `reduce((acc, x) => { acc[k(x)] = v(x); return acc; }, {})` of `kvpsToDict`,
  of `_massageMetadata`'s final step, of the header parse and of `toDict`.
  The two `keys.reduce` calls in `par` are the map comprehensions of
  `Par.Complete`.
- **Header-block parse** inside `demoLib.http`: split on LF or CRLF, keep the
  lines with a colon, split each at `/:\s*/`, and map the first piece to the
  second. This is module `Http`. It also holds `HttpError`, the
  `{ xhr, message }` value a non-2xx response is reported with (lib.js line
  208), reduced to the status and the response text.

Network access is replaced by values:
- a page server is a function from `(offset, limit)` to a parsed envelope or an
  HTTP error;
- the preview is an already-fetched result;
- the contract id is folded into the server.

Where the code and its documentation differ, the model follows the code:
- The error map `par` passes to its callback has an entry for every key. A
  child that succeeded carries its `null` error.
- `category.replace('\.Review', '')` is a string replace, so the first `.Review`
  is removed wherever it occurs. `A.ReviewB` gives category `AB` and is not in
  review. `A.Review.Review` gives category `A.Review` and is in review.
- `par` over no functions never calls back. A child that calls back twice
  overwrites its entry and makes the join fire again.
- An explicit `limit` or `offset` of `0` falls back to the default (`25` or `0`),
  because the defaults are applied with `||`.

## Model

| member | source | states |
|---|---|---|
| Paging.GetMetadata | preview/src/lib.js:55-74 | The loop delivers what the recursive definition `Fetch` delivers. It issues the requests `Requests` lists. Offset and limit default through `OrDefault` (a missing or zero option gives 0 and 25). |
| Paging.OrDefault | preview/src/lib.js:56-58 | The logical-or default of `opts.offset` and `opts.limit`: a missing option or an explicit 0 gives the default, so a limit of 0 becomes 25; a non-zero option is used as given. |
| Paging.Fetch | preview/src/lib.js:55-74 | The recursive definition of what `_getMetadata` delivers: a failed page's error, or the page's items followed by those of the next page when `totalCount > limit + offset`. `FetchResult` and `SlicePagination` are its properties. |
| Paging.Requests | preview/src/lib.js:55-74 | The offsets of the requests the recursion issues. `RequestsChain` states their chain. |
| Paging.ProgressNext | preview/src/lib.js:61-69 | A continuing page keeps the loop invariant. Its items join the accumulator, its offset joins the requests, and the next request is at `offset + limit`. |
| Paging.ProgressFailed | preview/src/lib.js:60 | A page that fails ends the chain with that page's error unchanged. That request is the last one. |
| Paging.ProgressLast | preview/src/lib.js:70-72 | A page with `totalCount <= limit + offset` is the last request. The items accumulated so far, followed by its own, are delivered. |
| Paging.RequestsChain | preview/src/lib.js:59-72 | The first request is at the starting offset. Each later request is at the previous offset plus `limit`. A further request is made exactly when the previous page succeeded with `totalCount > limit + offset`. |
| Paging.FetchResult | preview/src/lib.js:60-71 | The callback receives the last page's error unchanged if that page failed, and then no items. Otherwise it receives the items of all requested pages, in request order. |
| Paging.SliceFetchFrom | preview/src/lib.js:59-72 | Served from a fixed list, a fetch starting at any offset in the list delivers the rest of the list. It uses `PageCount` requests. |
| Paging.PageCountIsCeiling | preview/src/lib.js:61-64 | The number of pages for `n` items, `limit` per page, is 1 for no items and otherwise `ceil(n / limit)`. |
| Paging.SlicePagination | preview/src/lib.js:55-74 | Pagination is complete. Served from a fixed list of `T` items, a fetch from offset 0 with limit `L > 0` delivers exactly the list. It uses `max(1, ceil(T / L))` requests, the i-th at offset `i * L`. |
| Paging.SliceOffsets | preview/src/lib.js:62-65 | Served from a fixed list and starting at 0, the i-th request is at offset `i * limit`. |
| Paging.SixtyItems | preview/src/lib.js:55-74 | With 60 items at the default limit 25, the requests are at 0, 25 and 50, and all 60 items are delivered. |
| Client.GetAllMetadata | preview/src/lib.js:37-42 | It fails exactly when the paged fetch from offset 0 with limit 25 fails, with the same error. Otherwise it returns the normalised index of the fetched groups. |
| Client.PairCompletion | preview/src/lib.js:326-329 | The join of `html` and `metadata` fails exactly when either child failed. Its error map has both keys, each with that child's error or none. Otherwise the result map has both children's data. |
| Client.JoinChildren | preview/src/lib.js:110-113 | In either settlement order, the first settlement does not fire the callback and the second fires it with the completion of both outcomes. |
| Client.GetAll | preview/src/lib.js:109-114 | The callback fires once, on the second settlement. It gets an error map with both keys when the preview or the metadata failed, and otherwise the markup and the normalised index. |
| Client.Record | preview/src/lib.js:333-334 | A child's `callback(err)` records an error and no data. `callback(null, data)` records no error and the data. These are the calls of lines 39-40, written into `res` as `{ err, data }`. |
| Par.Complete | preview/src/lib.js:326-329 | The completion is a failure exactly when some outcome has an error. A failure maps every key to its error. A success maps every key to its data. |
| Par.Join.Settle | preview/src/lib.js:323-335 | It records the outcome, overwriting an earlier one, and keeps `res` within the keys of `fns`. The callback fires exactly when every key has an outcome, with the completion of `res`. The code compares key counts, and `SameSizeSubset` shows that this amounts to comparing key sets. |
| Par.Join.constructor | preview/src/lib.js:322 | A join starts with no recorded outcomes. |
| Par.SameSizeSubset | preview/src/lib.js:325 | A subset of `fns` with as many keys as `fns` is all of `fns`. |
| Par.Fired | preview/src/lib.js:321-337 | The completions the callback receives after each settlement in turn: at most one per settlement. `FiresIffAllSettled`, `Refires` and `CompletionIsLatest` are its properties. |
| Par.AnyFailed | preview/src/lib.js:326 | `keys.some(k => res[k].err != null)`: some recorded outcome has an error. `Complete` fails exactly when it holds. |
| Par.Recorded | preview/src/lib.js:334 | `res` after the children's writes, as the fold `Utils.Assign` keyed by child: each settlement overwrites its key, and `CompletionIsLatest` shows the last one wins. |
| Par.Run | preview/src/lib.js:321-338 | Replaying settlements in any order through a `Join` gives the completions that `Fired` lists. |
| Par.FiresIffAllSettled | preview/src/lib.js:323-335 | The callback fires at all exactly when every key has settled at least once. A failure does not make it fire early, and a join over no keys never fires. |
| Par.Refires | preview/src/lib.js:333-335 | Once every key has settled, each further settlement fires the callback again, with the completion of the updated outcomes. |
| Par.CompletionIsLatest | preview/src/lib.js:327-334 | Each entry of a completion is the outcome of the last settlement of that key. |
| Metadata.Attributes | preview/src/lib.js:122-124 | `kvpsToDict` as the fold `Utils.Assign` keyed by attribute name with the attribute value. Its keys are the attribute names (from `Utils.Assign`), and a repeated name keeps its last value (`AttributesLastWins`). |
| Metadata.KvpsToDict | preview/src/lib.js:122-124 | The loop builds the attribute dictionary `Attributes`, names mapped to values in order. |
| Metadata.AttributesLastWins | preview/src/lib.js:123 | A duplicated attribute name keeps its last value. |
| Metadata.EndsWith | preview/src/lib.js:127 | `/\.Review$/.test(category)`: the text is at least as long as the suffix and ends with it. `ReviewSuffixStripped`, `NoReviewKept`, `ReviewInsideName` and `DoubleReview` evaluate it. |
| Metadata.RemoveFirst | preview/src/lib.js:128 | `replace` with a string pattern removes at most one occurrence: the result is as long as the text, or shorter by the pattern's length. Which occurrence goes is `RemoveFirstAt` and `RemoveFirstAbsent`. |
| Metadata.RemoveFirstAt | preview/src/lib.js:128 | `replace` with a string pattern removes the first occurrence, leaving the text before and after it. |
| Metadata.RemoveFirstAbsent | preview/src/lib.js:128 | Without an occurrence, `replace` leaves the text unchanged. |
| Metadata.RemoveReviewBetween | preview/src/lib.js:128 | A `.Review` with no earlier occurrence is the one removed. |
| Metadata.ReviewSuffixStripped | preview/src/lib.js:127-128 | A name `base + ".Review"`, with no `.Review` in `base`, ends in `.Review` and is stripped to `base`. |
| Metadata.NoReviewKept | preview/src/lib.js:127-128 | A name without `.Review` is not in review and is its own category. |
| Metadata.ReviewInsideName | preview/src/lib.js:127-128 | For `A.ReviewB` the category is `AB` and the value is not in review. |
| Metadata.DoubleReview | preview/src/lib.js:127-128 | For `A.Review.Review` only the first `.Review` goes. The category is `A.Review` and the value is in review. |
| Metadata.MetadataValueToAnn | preview/src/lib.js:126-142 | `metadataValueToAnn`: in review when the group name ends in `.Review`, the category is the name with its first `.Review` removed, the attributes are `kvpsToDict` of the value's attributes, the offset is the `scd_start_offset` attribute if present, and the id is `category + "_" + String(offset)`. `ReviewedAnnotation`, `PartyExample` and `IdCollision` state its results. |
| Metadata.ReviewedAnnotation | preview/src/lib.js:126-141 | A value of group `base.Review` with numeric offset `n` becomes annotation `base_n`. It is in review, has category `base` and has offset `n`. |
| Metadata.PartyExample | preview/src/lib.js:126-141 | A value of group `Party.Review` with `scd_start_offset` 42 becomes annotation `Party_42`, in review, with category `Party`. |
| Metadata.IdCollision | preview/src/lib.js:134 | Two annotations with numeric offsets get the same id exactly when they share category and offset. |
| Metadata.SplitAtLastUnderscore | preview/src/lib.js:134 | `category + "_" + rest` determines category and rest when the rest has no underscore. |
| Metadata.Anchored | preview/src/lib.js:148 | `ann.offset != null` with loose inequality: the offset attribute is present and is not JSON `null`. `CandidatesSound` and `IndexSound` use it. |
| Metadata.Render | preview/src/lib.js:134 | The `String(offset)` in the id: `"undefined"` for a missing `scd_start_offset`, otherwise `ToJsString` of the value, so JSON `null` gives `"null"`. |
| Metadata.ValueAnnotations | preview/src/lib.js:146-147 | `x.values.map(metadataValueToAnn.bind(null, x.name))`: one annotation per value, in value order. |
| Metadata.GroupAnnotations | preview/src/lib.js:146-148 | The group's annotations filtered by `Anchored`. |
| Metadata.PerGroup | preview/src/lib.js:145-148 | `old.map(...)`: one list of anchored annotations per group, in group order. |
| Metadata.Candidates | preview/src/lib.js:145-148 | `flat` over the groups of the values mapped to annotations and filtered by `Anchored`. `CandidatesAppend`, `CandidatesSound` and `CandidatesComplete` describe it. |
| Metadata.CandidatesAppend | preview/src/lib.js:145-148 | The anchored annotations of the groups are those of the earlier groups, followed by those of the last group. |
| Metadata.CandidatesSound | preview/src/lib.js:145-148 | Every annotation kept by the map, filter and flatten chain is anchored, and is the annotation of some value of some group. |
| Metadata.CandidatesComplete | preview/src/lib.js:145-148 | Every anchored annotation of a value is kept. |
| Metadata.Normalize | preview/src/lib.js:149-152 | The final `reduce` keying the candidates by id, as the fold `Utils.Assign`. `IndexSound`, `IndexComplete` and `IndexLastWins` are its properties. |
| Metadata.MassageMetadata | preview/src/lib.js:121-153 | The index is the candidates keyed by id, built in order (`Normalize`). |
| Metadata.IndexSound | preview/src/lib.js:144-152 | Every entry is stored under its own id, is anchored, and is the annotation of some value of the input. Values with a `null` or missing offset never appear. |
| Metadata.IndexComplete | preview/src/lib.js:144-152 | Every anchored annotation of the input has an entry under its id. |
| Metadata.IndexLastWins | preview/src/lib.js:149-152 | The entry under an id is the last candidate with that id, in group order (`CandidatesAppend`) and then value order (`Utils.FilterAppend`). |
| Json.Decimal | preview/src/lib.js:134 | `String(n)` of an integer offset: a minus sign for a negative number, then the decimal digits. `DecimalInjective` proves distinct integers print differently. Its double-precision limits are on the `Json.Decimal` line under Left out. |
| Json.ToJsString | preview/src/lib.js:134 | `String(v)` of a scalar: a string is itself, and a number prints without an underscore, so an id's last underscore separates category and offset. |
| Json.DecimalInjective | preview/src/lib.js:134 | Distinct integer offsets print differently, and their decimal form has no underscore. |
| Json.DecimalNatInjective | preview/src/lib.js:134 | Distinct natural numbers have distinct digit strings. |
| Utils.Assign | preview/src/lib.js:283-288 | The keys of the dictionary a keyed `reduce` builds are exactly the keys of the items. |
| Utils.AssignLastWins | preview/src/lib.js:286 | The entry under a key is the value of the last item with that key. |
| Utils.AssignEntry | preview/src/lib.js:286 | Every entry comes from the last item with its key. |
| Utils.ToDict | preview/src/lib.js:283-288 | The loop keys every item by `fn`, a key being present exactly when some item has it, and the last item with a key wins. |
| Utils.ToList | preview/src/lib.js:270-272 | One value per key of the dictionary: as many values as keys, each the entry of a distinct key, every key visited. |
| Utils.Flat | preview/src/lib.js:293-295 | `flat` as the left fold of `concat` over the sublists. `FlatAppend` and `FlatContents` are its properties. |
| Utils.FlatSingle | preview/src/lib.js:293-295 | Flattening one sublist gives that sublist. |
| Utils.FlatAppend | preview/src/lib.js:293-295 | Flattening distributes over concatenation, so the sublists stay in order. |
| Utils.FlatContents | preview/src/lib.js:293-295 | Flattening keeps every element. The length is the sum of the lengths, and an element is in the result exactly when it is in some sublist. |
| Utils.Filter | preview/src/lib.js:148 | `filter` keeps exactly the items satisfying the predicate, and nothing else. Order and multiplicity are `FilterAppend` and `FilterSingle`. |
| Utils.FilterAppend | preview/src/lib.js:148 | Filtering distributes over concatenation, so the kept items stay in input order. |
| Utils.FilterSingle | preview/src/lib.js:148 | One item is kept, once, exactly when it satisfies the predicate. |
| Utils.Uniq | preview/src/lib.js:258-262 | `uniq` as the left fold that appends an item when it is not yet in the accumulator (the `indexOf(n) === -1` test). The result is no longer than the input, and non-empty for a non-empty input; `UniqSpec` states the rest. |
| Utils.IndexOf | preview/src/lib.js:201-203 | The position of the first occurrence of an element that is present. It finds the first line feed that `split(/\r?\n/)` breaks at and the first colon of `split(/:\s*/)`. It also serves the first-occurrence order clause of `UniqSpec`; the `indexOf(n) === -1` test of line 260 is membership in `Uniq`. |
| Utils.IndexOfAt | preview/src/lib.js:201-203 | A position holding the element, with no earlier occurrence, is the first occurrence. |
| Utils.UniqSpec | preview/src/lib.js:258-262 | `uniq` has no duplicates and holds exactly the elements of its input, in the order of their first occurrences. |
| Utils.UniqOfDistinct | preview/src/lib.js:258-262 | On a list without duplicates `uniq` changes nothing. |
| Utils.UniqIdempotent | preview/src/lib.js:258-262 | `uniq` is idempotent. |
| Http.ParseHeaders | preview/src/lib.js:201-204 | The loop builds the header dictionary. Each header line, in order, maps its name to its value. |
| Http.Lines | preview/src/lib.js:201 | `split(/\r?\n/)` yields at least one piece and no piece holds a line feed. |
| Http.JoinCRLF | preview/src/lib.js:201 | Lines joined with CRLF, the separator `getAllResponseHeaders()` uses. Its partner is `LinesOfJoinCRLF`. |
| Http.LinesOfJoinCRLF | preview/src/lib.js:201 | Splitting lines without LF joined by CRLF gives back the lines: the CR before each LF is dropped. |
| Http.LinesCons | preview/src/lib.js:201 | Text `first + "\n" + rest`, with no line feed in `first`, splits into `first` without a closing CR, followed by the lines of `rest`. |
| Http.JoinBreaks | preview/src/lib.js:201 | Lines joined with a CRLF or a bare LF chosen per line. Its partner is `LinesOfJoinBreaks`. |
| Http.LinesOfJoinBreaks | preview/src/lib.js:201 | Text mixing LF and CRLF breaks splits back into its lines, provided no line holds a line feed and a line followed by a bare LF does not end in CR. |
| Http.MixedBreaksExample | preview/src/lib.js:201 | `"a\nb\r\nc"` splits into `a`, `b` and `c`. |
| Http.DropCR | preview/src/lib.js:201 | The optional `\r` before a line feed: one carriage return closing a piece is removed. |
| Http.JoinLinesOfLines | preview/src/lib.js:201 | On text without CR, splitting at line feeds and joining again gives back the text. |
| Http.HeaderLines | preview/src/lib.js:201-202 | The lines of the block that contain a colon. Each kept line has a colon and no line feed. |
| Http.HeaderName | preview/src/lib.js:203 | The first piece of `x.split(/:\s*/)`: the longest prefix of the line without a colon, followed in the line by the colon. |
| Http.HeaderValue | preview/src/lib.js:203 | The second piece: no colon, does not start with white space, and empty for a line without a colon. |
| Http.HeaderLineParts | preview/src/lib.js:203 | A line with a colon is its name, a colon, white space, its value, and a tail that is empty or starts at the next colon. Name and value hold no colon, and the value does not start with white space. |
| Http.HeaderOfParts | preview/src/lib.js:203 | Conversely, such an assembled line parses back to that name and value. |
| Http.DateHeaderCut | preview/src/lib.js:203 | `Date: Tue 08:12:31` yields the value `Tue 08`: the value is cut at its next colon. |
| Http.HeaderLastWins | preview/src/lib.js:204 | A header name on several lines keeps the value of the last one. |
| Http.IsSpace | preview/src/lib.js:203 | JavaScript's `\s`: the white space and line terminator characters of ECMAScript, including no-break space, the byte order mark and the Unicode space separators. |
| Http.SpaceCount | preview/src/lib.js:203 | The length of the white space (JavaScript's `\s`) that starts the text. |

## Left out

- Transport and I/O are left out: the `XMLHttpRequest` handling in
  `demoLib.http` apart from the header parse, `_getPreview`, the URL building and
  `JSON.parse` in `_getMetadataLimit`, and `demoLib.login`. Page results and
  the preview are values passed in, and the contract id is folded into the page
  server.
- The concurrency in `par` is left out: starting the children in `forEach` and
  the event loop. Settlements are a sequence in arbitrary order, and `GetAll`
  takes the order as a parameter.
- DOM code is left out: `_addStyle`, the style element and `getOffset`. They
  work on a browser document.
- `_genColors` is left out. It is floating-point presentation code.
- `Object.keys` enumeration order is left out. Maps are unordered, and
  `Utils.ToList` states membership and count only.
- Prototype keys are left out, and so are JSON objects, arrays and non-integer
  numbers as metadata values. Values are the scalars of `Json.Value`, with
  integer numbers.
- Json.Decimal: JavaScript numbers are doubles, and their precision and
  exponent notation are not modelled. `String(1e21)` is `"1e+21"`, and
  `JSON.parse` rounds integers above 2^53, so ids for such offsets differ from
  the all-digits rendering.
- Utils.ToDict: the default key `x.id` of `fn || function(x) { return x.id; }`
  is not modelled; callers pass the key function, as `Metadata.MassageMetadata`
  passes `AnnotationId`.
- Malformed input is left out. Missing `values` or `attributes` fields throw in
  the code; the model takes well-formed groups.
- Paging.GetMetadata: requires an effective limit greater than 0 and a bound on
  every reported `totalCount`, because the code has neither a termination
  guard nor a check for a negative limit. A server whose total count keeps
  growing makes the code recurse forever.
- Http.ParseHeaders: its contract is the fold `Utils.Assign` over the header
  lines. Which keys are present, and their values, follow from `Utils.Assign`,
  `Http.HeaderLineParts` and `Http.HeaderLastWins`, not from the method's own
  `ensures`.
- Utils.ToList: the keys it visits are a ghost witness. The order, which
  JavaScript fixes by its key enumeration rules, is not stated.
