# rentpath-cf-sentry, modelled in Dafny

The library reports an error from a Cloudflare worker to Sentry. Its single
source file, `index.ts`, does four things:

- `parse` splits the error's stack into lines, drops the first (the
  `Name: message` banner) and turns each remaining line into a frame record:
  a separator line of dashes becomes `{ filename: line }`, a line the frame
  pattern `at (?:(.+)\s+\()?(?:(.+?):(\d+)(?::(\d+))?|([^)]+))\)?` matches
  becomes `{ function, filename, lineno, colno, in_app }` with every falsy
  capture turned into `undefined`, and any other line is dropped;
- `uuidv4` draws sixteen random bytes, tags the version (byte 6) and the
  variant (byte 8) and writes them as 32 lowercase hexadecimal digits;
- `toSentryEvent` builds the event: message, one exception value whose stack
  trace is the parsed frames reversed (oldest first), the error's other own
  enumerable properties as `extra` under the error's name, tags, platform,
  environment (default `ENV`), server name `app-environment`, timestamp in
  seconds and, when the request has a URL, the request block with the URL's
  query string;
- `log` serialises the event and POSTs it to
  `https://sentry.io/api/<projectId>/store/` for `i` from 0 to 5, stopping
  at the first status 200 and logging the status and JSON body of every
  other reply.

The project has five modules, one file each:

| file | module | models |
|---|---|---|
| `js.dfy` | `Js` | the JavaScript semantics the code leans on: `undefined` as `Option`, truthiness of `x \|\| y`, unary `+` on digit strings, the regular-expression classes `.`, `\s`, `\d`, `split` and `join` |
| `stack_parser.dfy` | `StackParser` | `parse`, with an exact model of the frame pattern's backtracking (leftmost `at `, greedy group 1 tried from the longest length down, lazy group 2, greedy digit groups, the `[^)]+` fallback) |
| `event_id.dfy` | `EventId` | `uuidv4`, over a `Uint8Array` modelled as an `array` of bytes updated in place |
| `sentry_event.dfy` | `SentryEvent` | `toSentryEvent` |
| `delivery.dfy` | `Delivery` | the retry loop of `log` as a method with a `while` loop, and `log` itself |

The frame pattern is modelled twice. The matcher (`MatchFrameLine` and the
functions under it) follows the order in which the regular-expression engine
tries alternatives. A relation (`LineMatchesAt`) says which captures a match
at a given index may have. Soundness and completeness lemmas connect the
two: the matcher's result is a match, and it is the leftmost one; whenever
any match exists, the matcher finds one. The concrete lemmas then pin down
the captures for the usual V8 frame shapes.

Behaviour of the code that the model makes explicit:

- The loop makes six POSTs at most, not five. `RETRIES = 5` is declared and
  never used.
- The auth header is a single-quoted string, so it carries the six
  characters `${dsn}` instead of the key (`Delivery.AuthHeaderIgnoresKey`).
  The model reproduces the literal.
- The lazy group 2 stops at the first `:` followed by a digit. A frame in a
  file served from a URL with a port, `at http://x:8080/a.js:3:4`, gets
  filename `http://x` and line 8080 (`StackParser.ExampleUrlWithPort`).
- Group 1 is greedy. In `at a (b) (c.js:1)` the function is `a (b)`.
- Line or column `0` is falsy and so absent.
- A separator line followed by white space is not a separator and is dropped
  (`StackParser.SeparatorTrailingSpace`).
- `log` is not as quiet as a best-effort reporter is usually described. The
  returned promise rejects in four cases:
  - `new URL(request.url)` throws on a URL it cannot parse, so the event
    builder itself can throw;
  - `JSON.stringify` throws when an own property of the error that lands in
    `extra` is a BigInt or refers back to the error (`err.self = err`);
  - `fetch` rejects;
  - a non-200 reply's body is not JSON.

  The model has these as `Completion.Throw`, a `None` from `stringify`, and
  `Verdict.Raised`. The first two happen before any request.
- The error's own property keys are distinct, as `Object.keys` guarantees.
  The lemma about the exact contents of `extra` assumes this. The lemma
  about which keys `extra` has does not.

## Model

| member | source | states |
|---|---|---|
| Js.StringOr | index.ts:55-56 | `s \|\| fallback`: the string itself when it is present and non-empty, otherwise the fallback; empty only when the fallback is |
| Js.StringOrAbsent | index.ts:87-88 | `s \|\| undefined`: never the empty string; the string itself when present and non-empty; absent exactly for an absent or empty string |
| Js.BoolOrAbsent | index.ts:91 | `b \|\| undefined` on a boolean: present exactly when `true`, never `false` |
| Js.NumberOrAbsent | index.ts:89-90 | `+g \|\| undefined`: absent exactly when the group did not take part or is all zeros, otherwise the group's decimal value, which is positive |
| Js.Split | index.ts:74 | `split('\n')` gives at least one piece and no piece holds the separator |
| Js.JoinSplit | index.ts:74 | joining the pieces of a split with the separator restores the string |
| Js.SplitJoin | index.ts:74 | splitting a join of separator-free pieces restores the pieces |
| StackParser.ColonDigitFrom | index.ts:81 | the lazy `(.+?)` resumed at `j`: the `:` it stops at lies at or after `j`, is followed by a digit, and `.` consumes everything before it |
| StackParser.FileColon | index.ts:81 | group 2 is non-empty, contains no line terminator and ends at a `:` followed by a digit |
| StackParser.FileForm | index.ts:81 | once group 2 stops at `j`, the captures are the file form with group 2 equal to the text before `j` and digit strings for groups 3 and 4 |
| StackParser.MatchAlternation | index.ts:81 | what the alternation captures has digit groups 3 and 4 |
| StackParser.OpenParenAfter | index.ts:81 | `\s+\(` after group 1 ends strictly later and within the text |
| StackParser.CalleeAt | index.ts:81 | group 1 of a given length matches only when `\s+\(` follows it |
| StackParser.CalleeFrom | index.ts:81 | the length chosen for group 1 is between 1 and the longest tried |
| StackParser.CalleeFromLongest | index.ts:81 | greedy `(.+)`: the chosen length lets `\s+\(` and the alternation match with the chosen captures, and no longer length up to the one tried first does |
| StackParser.CalleeFromNoLength | index.ts:81 | when the search comes back empty, no length of group 1 lets the rest match |
| StackParser.MatchTail | index.ts:81 | what is captured after `at ` has digit groups 3 and 4 |
| StackParser.MatchFrom | index.ts:81 | a match found from `p` starts at or after `p` |
| StackParser.MatchFrameLine | index.ts:81 | the groups `line.match` yields have digit strings for groups 3 and 4 |
| StackParser.IsSeparator | index.ts:77 | a separator line is at least four characters long, ends in a dash, and holds only white space and dashes |
| StackParser.FrameOf | index.ts:86-92 | the record never holds an empty function or file or a zero line or column; the function is group 1 when present; a file-form match gives the file and `in_app` true; a bare token gives no file, line or column, and `in_app` absent exactly for `native` |
| StackParser.ParseLine | index.ts:76-93 | the callback returns nothing exactly when the line is neither a separator nor matched by the frame pattern; any other non-separator line yields the record built from its match |
| StackParser.Parse | index.ts:72-95 | fewer frames than lines in the stack, since the first never yields one; no stack, no frames |
| StackParser.InApp | index.ts:91 | `in_app` is never `false` and is absent exactly when group 5 is `native` |
| StackParser.FramesOf | index.ts:76-94 | the `map` then `filter(Boolean)` never yields more frames than lines |
| StackParser.AlternationSound | index.ts:81 | the alternation's captures are a match of it |
| StackParser.AlternationComplete | index.ts:81 | when the alternation can match at all, the matcher finds a match |
| StackParser.MatchTailSound | index.ts:81 | what is captured after `at ` is a match of the rest of the pattern |
| StackParser.MatchTailComplete | index.ts:81 | when the rest of the pattern can match after `at `, the matcher finds a match |
| StackParser.MatchFrameLineSound | index.ts:81-82 | the match of `line.match` is a match of the pattern, and no earlier index admits any match |
| StackParser.MatchFrameLineComplete | index.ts:81-82 | whenever the pattern can match somewhere, `line.match` matches there or earlier |
| StackParser.ParseLineDropped | index.ts:77-84 | a line is dropped exactly when it is not a separator and the pattern matches it nowhere |
| StackParser.SeparatorShape | index.ts:77 | a separator is white space followed by four or more dashes and nothing else |
| StackParser.NoLetterANoMatch | index.ts:81 | a line without the letter `a` never matches the frame pattern |
| StackParser.SeparatorPrecedence | index.ts:77-79 | a separator line never matches the frame pattern, and it yields `{ filename: line }` |
| StackParser.NotSeparatorWithA | index.ts:77 | a line containing `a` is not a separator |
| StackParser.SeparatorTrailingSpace | index.ts:77-84 | a separator followed by one or more white-space characters is neither a separator nor a frame, and is dropped |
| StackParser.FrameCoercion | index.ts:86-92 | each field of the frame in terms of its group: function and file present exactly when their groups took part; line and column are the groups' decimal values, absent when the group is missing or all zeros; `in_app` never `false` and absent exactly for `native` |
| StackParser.LineAfterPrefix | index.ts:81 | after a prefix without `at `, the match starts right after the prefix and is the match of the rest |
| StackParser.FileColonAt | index.ts:81 | the lazy group 2 stops at the first `:` followed by a digit |
| StackParser.FileFormOf | index.ts:81 | the greedy digit groups take exactly the line and column digits |
| StackParser.FileAlternation | index.ts:81 | `file:line[:column]` followed by text that does not extend the digit groups is matched with exactly those groups |
| StackParser.TokenAlternation | index.ts:81 | a bare token, alone or before `)`, is captured as group 5 |
| StackParser.CalleeTail | index.ts:81 | `fn (` followed by an alternation match with no further `(` captures `fn` as group 1 |
| StackParser.PlainTail | index.ts:81 | a tail without `(` is matched without group 1 |
| StackParser.FileFrame | index.ts:86-92 | a file-form match yields its file, the coerced line and column, `in_app` true, and the function when group 1 took part |
| StackParser.ParseCallSite | index.ts:76-92 | `at fn (file:line[:column])` after any indentation yields all five fields from the groups |
| StackParser.ParseFileLocationThen | index.ts:76-92 | `at file:line[:column]` followed by text without `(` that does not extend the digits yields no function and in-app |
| StackParser.ParseFileLocation | index.ts:76-92 | `at file:line[:column]` yields no function, the file, line and column, and in-app |
| StackParser.ParseBareToken | index.ts:76-92 | `at token` yields only `in_app`, which is absent exactly for `native` |
| StackParser.ParseCalleeToken | index.ts:76-92 | `at fn (token)` yields the function and `in_app` of the token |
| StackParser.ExampleCallSite | index.ts:76-92 | `    at foo (bar.js:10:5)` yields function `foo`, file `bar.js`, line 10, column 5, in-app |
| StackParser.ExampleNative | index.ts:76-92 | `    at native` yields a frame with every field absent |
| StackParser.ExampleNativeCallee | index.ts:76-92 | `    at Array.forEach (native)` yields only the function |
| StackParser.ExampleLineZero | index.ts:76-92 | `at bar.js:0` has no line number |
| StackParser.ExampleGreedyCallee | index.ts:76-92 | `at a (b) (c.js:1)` has function `a (b)` |
| StackParser.ExampleUrlWithPort | index.ts:76-92 | `at http://x:8080/a.js:3:4` has file `http://x`, line 8080 and no column |
| StackParser.FramesOfAppend | index.ts:76-94 | mapping and filtering distributes over concatenation of the lines |
| StackParser.FramesOfMembers | index.ts:76-94 | a frame is in the result exactly when some line yields it |
| StackParser.FramesOfEmpty | index.ts:76-94 | no frames exactly when no line yields one |
| StackParser.ParseNoStack | index.ts:73-75 | an absent or empty stack has no frames |
| StackParser.ParseBannerOnly | index.ts:73-75 | a one-line stack has no frames |
| StackParser.ParseStackLines | index.ts:72-95 | a banner followed by lines yields the frames of those lines: the first line is never parsed |
| StackParser.ParseBound | index.ts:72-95 | at most one frame per stack line after the first |
| EventId.HexDigit | index.ts:102 | `toString(16)` of a digit value is a lowercase hexadecimal digit |
| EventId.HexValue | index.ts:102 | a lowercase hexadecimal digit has a value below 16 whose digit it is |
| EventId.ToHex | index.ts:102 | `n.toString(16)` has one digit exactly when `n < 16` and no leading zero otherwise |
| EventId.SliceLast | index.ts:102 | `slice(-n)` for `n` at least 1 keeps the last `n` characters, or the whole of a shorter string |
| EventId.ByteHex | index.ts:102 | two characters for every byte, the first a `0` below 16 |
| EventId.ByteHexDigits | index.ts:102 | `('0' + b.toString(16)).slice(-2)` is two digits, high nibble first, for every byte |
| EventId.HexOf | index.ts:102 | the hexadecimal form has two digits per byte, high nibble first |
| EventId.DecodeHex | index.ts:102 | what decodes has half as many bytes as digits |
| EventId.DecodeHexOf | index.ts:102 | decoding the hexadecimal form restores the bytes |
| EventId.HexOfDecode | index.ts:102 | whatever decodes is the hexadecimal form of its bytes |
| EventId.AndFifteen | index.ts:100 | `a & 0x0f` is the low nibble |
| EventId.AndSixtyThree | index.ts:101 | `a & 0x3f` is the low six bits |
| EventId.OrHighBit | index.ts:100-101 | or-ing in a bit above all of `a`'s bits adds it |
| EventId.BitAnd | index.ts:100-101 | `a & b` is at most either operand |
| EventId.BitOr | index.ts:100-101 | `a \| b` is at least either operand and at most their sum |
| EventId.Version4 | index.ts:100 | `(b & 0x0f) \| 0x40` is 0x40 plus the low nibble of `b` |
| EventId.Variant1 | index.ts:101 | `(b & 0x3f) \| 0x80` is 0x80 plus the low six bits of `b` |
| EventId.Version4Nibbles | index.ts:100 | byte 6 gets high nibble 4 and keeps its low nibble |
| EventId.Variant1Nibbles | index.ts:101 | byte 8 gets high nibble 8 to 11 carrying its own two bits, and keeps its low nibble |
| EventId.HexOfLower | index.ts:102 | every character of the rendering is a lowercase hexadecimal digit |
| EventId.TaggedFormat | index.ts:100-102 | the tagged bytes render as 32 lowercase digits with `4` at index 12 and one of `8`, `9`, `a`, `b` at index 16 |
| EventId.Tagged | index.ts:100-101 | tagging keeps sixteen bytes |
| EventId.UuidV4 | index.ts:97-103 | the identifier is the hexadecimal form of the tagged bytes and has the version-4 variant-1 format |
| EventId.TaggedDigits | index.ts:100-102 | every random digit the tagging keeps is in its place: bytes other than 6 and 8 in full, the kept nibble and bits of bytes 6 and 8 |
| EventId.UuidInjective | index.ts:97-103 | equal identifiers come from draws equal in every bit but the six fixed ones |
| SentryEvent.Keys | index.ts:35 | `Object.keys` lists the keys of the properties in order |
| SentryEvent.Put | index.ts:50 | after `{ ...obj, [key]: value }` the object has `key` with `value` |
| SentryEvent.PutOthers | index.ts:50 | the spread keeps every other key and its value |
| SentryEvent.PutNew | index.ts:50 | a new key is appended; the builder's keys arrive in `Object.keys` order (integer-like keys first, ascending), so JavaScript also puts each one last |
| SentryEvent.PutSize | index.ts:50 | the spread keeps the number of properties for an existing key and adds one for a new key |
| SentryEvent.ReduceSize | index.ts:50 | each folded key adds at most one property and none is lost |
| SentryEvent.FilterReserved | index.ts:35 | the filter keeps exactly the keys other than `name`, `message` and `stack` |
| SentryEvent.ExtraOf | index.ts:48-52 | `extra` is absent exactly when every own property is reserved, and otherwise sits under the error's name |
| SentryEvent.Unreserved | index.ts:35 | the reference list of unreserved properties has the filtered keys |
| SentryEvent.ReduceAppends | index.ts:50 | folding distinct fresh keys appends them in order with their values |
| SentryEvent.ExtraExactly | index.ts:35-52 | with distinct keys, `extra` holds exactly the unreserved properties, in order, with their values |
| SentryEvent.ReduceKeys | index.ts:50 | the fold's result has exactly the keys of the start object and of the folded keys |
| SentryEvent.ExtraKeysUnreserved | index.ts:35-52 | for any properties, the keys of `extra` are exactly the error's unreserved keys |
| SentryEvent.Reverse | index.ts:44 | `reverse()` puts element `i` at `n - 1 - i` |
| SentryEvent.StacktraceOf | index.ts:44 | the stack trace is absent exactly when there are no frames, and otherwise is the frames in reverse |
| SentryEvent.RequestOf | index.ts:58-67 | the block throws exactly when a present request has a non-empty URL that `new URL` rejects; it is present exactly when the request and its URL are; it copies method, URL, headers and body and carries the URL's search |
| SentryEvent.MessageOf | index.ts:38 | the message is the type, `: `, then the message or `<no message>` when it is empty |
| SentryEvent.ToSentryEvent | index.ts:32-70 | the builder throws exactly when the request block does |
| SentryEvent.EventFields | index.ts:32-70 | identifier, release and app are passed through; environment defaults to `ENV` and names the server with the app; one exception value with the error's name and message; the message, stack trace, `extra` and request block are those of `MessageOf`, `StacktraceOf`, `ExtraOf` and `RequestOf`: frames oldest first, `extra` present exactly when a property is unreserved, request block present exactly when the request has a URL; timestamp in seconds |
| Delivery.StoreUrl | index.ts:17 | the URL is `https://sentry.io/api/`, then the project id, then `/store/` |
| Delivery.AuthPrefix | index.ts:21 | the header text before the key position is 74 characters long and ends in `sentry_key=` |
| Delivery.StorePost | index.ts:17-24 | every attempt POSTs the serialised event unchanged to the project's store URL as JSON, with an auth header that does not depend on the key |
| Delivery.AuthHeader | index.ts:21 | the header is the fixed prefix followed by the literal text `${dsn}` |
| Delivery.AuthHeaderIgnoresKey | index.ts:21 | every key gives the same header, which does not carry the key |
| Delivery.OutcomeFromBound | index.ts:16-29 | from attempt `i` on, the reference outcome makes at most the remaining POSTs, logs one entry per POST but the last, and one per POST when the attempts run out |
| Delivery.Stop | index.ts:16-29 | the loop leaves at the first reply that is a 200, a rejection or a non-JSON body, or after six |
| Delivery.AttemptsByStop | index.ts:16-29 | one POST per reply up to and including the one the loop stops at, six at most |
| Delivery.VerdictByStop | index.ts:25-28 | the reply the loop stops at decides the outcome: 200 delivers, anything else rejects, none exhausts |
| Delivery.LoggedByStop | index.ts:28 | the log holds the entries of exactly the replies before the stop |
| Delivery.OutcomeByStop | index.ts:16-29 | attempts, log entries in order, and verdict in terms of where the loop stops |
| Delivery.AttemptsBound | index.ts:16 | between one and six POSTs; one log entry per POST but the last, or six of each |
| Delivery.DeliveredIff | index.ts:25-27 | delivery succeeds exactly when a 200 comes within six attempts before any failure, and then there were `k + 1` POSTs and `k` log entries |
| Delivery.ExhaustedIff | index.ts:16-29 | the loop runs out exactly when all six replies are non-200 with JSON bodies, after six POSTs and six log entries |
| Delivery.RaisedIff | index.ts:17-28 | the promise rejects exactly when a request fails or a body is not JSON before any 200, and that POST is the last |
| Delivery.TrackStep | index.ts:19-28 | a non-200 reply with a JSON body logs its entry and hands the rest of the delivery to the next attempt |
| Delivery.TrackStop | index.ts:19-27 | a 200, a rejection or a non-JSON body at attempt `i` ends the delivery after `i + 1` POSTs with the log so far |
| Delivery.TrackEnd | index.ts:16 | a sixth logged attempt exhausts the delivery after six POSTs |
| Delivery.Deliver | index.ts:16-29 | the loop's verdict, number of POSTs and log are those of the delivery outcome, and every POST is the same request |
| Delivery.Log | index.ts:13-30 | no request when the builder or the serialisation throws; otherwise the identifier is a version-4 UUID and the delivery of the serialised event follows the outcome with that body in every POST |
| Delivery.FirstReplySucceeds | index.ts:25-27 | a first reply of 200 means one POST and nothing logged |
| Delivery.AlwaysServerError | index.ts:16-29 | a server always answering 500 with JSON gets six POSTs and six log entries, and the loop ends without rejecting |
| Delivery.SucceedsAtFourth | index.ts:16-29 | a 200 after three failures ends the loop at the fourth POST |

## Left out

- `fetch`, `res.json()` and `console.error` are not modelled as I/O. A `replies` function gives what each `fetch` returns, with its body already parsed. Log entries are returned as a sequence.
- The `...` spread of the JSON body into the logged object is not modelled: a log entry pairs the status with the body as a whole.
- `crypto.getRandomValues` is a parameter: `UuidV4` and `Log` receive the sixteen random bytes.
- `Date.now()` is a parameter: its milliseconds are divided by 1000 as a real number. Floating-point rounding is not modelled.
- `new URL(url).search` is a function parameter `urlSearch`, with `None` where the constructor throws. The WHATWG URL parser is not part of this model.
- `JSON.stringify` is a function parameter `stringify`, `None` where it throws (a BigInt or a cycle among the error's own properties). This includes its omission of `undefined` fields and its rendering of `Headers` and body streams.
- `async`/`await` are modelled as sequential steps. A rejected promise is a `Throw` or `Raised` result.
- Error objects are taken with a string `name` and `message`, an optional `stack`, and their own enumerable properties in `Object.keys` order. Other values a caller could throw are not modelled. Property values are an uninterpreted type.
- Unary `+` is modelled only on the digit strings the pattern captures, which is all it ever sees here.
- Js.NumberOrAbsent: gives the exact decimal value of the digits. Unary `+` yields an IEEE double, so a line or column number above 2^53 is rounded, and more than about 309 digits give `Infinity`, which `JSON.stringify` writes as `null`. Floating-point rounding is not modelled.
- StackParser.FrameCoercion: states line and column as the exact decimal values of their groups, for the same reason; no rounding to a double above 2^53.
- SentryEvent.Put: appends a new key. JavaScript lists integer-like keys first, in ascending order, wherever they were added. The two agree for the keys the builder adds, which arrive in `Object.keys` order, but `Put` does not reorder a new integer-like key in general.
- `frames.reverse()` reverses a local array no other code sees. It is modelled as a function on sequences.
- The character classes follow ECMAScript. Strings are sequences of Unicode characters; JavaScript's UTF-16 code units, and the surrogate pairs a non-BMP character takes, are not modelled.
- The `RETRIES`, `CLIENT_NAME` and `CLIENT_VERSION` constants are unused in the source. The client name and version are written into the header literal.
