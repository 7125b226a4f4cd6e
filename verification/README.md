# urest core in Dafny

urest is a small REST server for MicroPython boards. Clients address
"nouns": resources such as an LED on a GPIO pin. The server reads an
HTTP/1.1 request line and picks a verb from it (`GET`, `PUT`, `POST`,
`DELETE`). It then builds an `HTTPResponse` and writes it back as an HTTP/1.1
message. Each noun keeps a small state dict behind `get_state`, `set_state`,
`update_state` and `delete_state`.

This project models that core as pure Dafny functions over immutable data.

- **`PyValues`**: the few Python notions the code relies on.
  - Exceptions are returned as values, not raised:
    - `Result` is a constructor's outcome;
    - `Step` is the object after a method call, plus the exception raised, if any;
    - `Emission` is what a run of `writer.write` calls leaves on the stream.
  - `Value` covers the scalars a state dict holds.
  - `IsZero` is Python's `v == 0`, which is also true of `False`.
- **`Text`**: the `str` operations in use.
  - `upper()`, restricted to ASCII letters.
  - The substring test `t in s`.
  - Decimal rendering of a length, and parsing it back.
  - UTF-8 `encode()`.
- **`HttpResponse`** (urest/http/response.py) and **`DraftHttpResponse`** (http/response.py): the response object.
  - The status is checked against `HTTPStatus`.
  - The body is coerced to a string.
  - `send` is modelled as the list of lines it writes: the status line (section 6.1 of RFC 2616), `Content-Length` (section 14.13), `Content-Type` (section 14.17), the extra fields, `Connection` (section 14.10), then a blank line and the body.
  - The final version writes each line UTF-8 encoded; the draft writes text.
  - `DraftHttpResponse` also holds a small client-side reader, `ReadReply`. It recovers the code, the body and the close flag from the text, so that `send` gets a round-trip property.
- **`RestServer`** (http/server.py): the synchronous part of `RESTServer.dispatch_noun`.
  - The empty-request check.
  - The bounded search for a space, the slice, and the upper-casing that give the verb.
  - The choice of body and status for the response.
- **`ApiBase`** (urest/api/base.py) and **`DraftApiBase`** (api/base.py): the base resource.
  - Its state is either the empty list `[]` or a dict.
  - `update_state` is a method that merges key by key. It is proved equal to a bulk map union, `Merged`.
- **`SimpleLed`** (examples/simpleled.py), **`EchoServer`** (urest/examples/echo.py) and **`PwmLed`** (urest/examples/pwmled.py): the example nouns, as state machines.
  - The GPIO pin is abstracted as a bit.
  - For PWM, only the `desired`/`current` bookkeeping is modelled.

Where the code departs from its own comments or from RFC 2616, the model follows the code:

- The comment at http/server.py:218-219 says that, with no space in the search window, the first six characters are taken. But the search `find(" ", 0, 6)` then returns -1, and the slice `[0:-1]` keeps all but the last character of the line. So a `DELETE` followed by a space and a target is not recognised.
- `NOT_OK` is sent as `HTTP/1.1 200 OK`, not 400, because `"OK" in "NOT_OK"`.
- `Content-Length` counts characters, not octets.
- Every line ends in LF, not CRLF.
- A mimetype does not produce a `Content-Type` line. Reading it raises `AttributeError` instead, because the class has no `mimetype` attribute.
- The request handler in http/server.py does not call any resource: it only answers with the fixed test pages.

## Model

| member | source | states |
|---|---|---|
| PyValues.ZeroTestBit | examples/simpleled.py:66-69 | the stored bit is 0 exactly when the value is `== 0` in Python's sense (integer zero or `False`) |
| Text.Upper | http/server.py:227 | upper-casing keeps the length |
| Text.UpperPrefix | http/server.py:227 | upper-casing a prefix is taking the prefix of the upper-cased string |
| Text.UpperIdempotent | http/server.py:227 | upper-casing twice is upper-casing once |
| Text.Contains | urest/http/response.py:204-217 | Python's `t in s`: true only when `t` is no longer than `s`, and always for an empty `t`; ContainsIffOccurs gives the full characterisation |
| Text.ContainsIffOccurs | urest/http/response.py:204-219 | the modelled `t in s` holds exactly when `t` occurs at some index of `s` |
| Text.MissingCharNotContained | urest/http/response.py:212-217 | a string lacking some character of `t` cannot contain `t` |
| Text.Decimal | urest/http/response.py:226 | the rendering of `len(body)` is a non-empty run of digits |
| Text.DecimalRoundTrip | urest/http/response.py:226 | parsing the rendered length gives the length back |
| Text.Utf8Char | urest/http/response.py:206-243 | one character encodes to one to four octets, exactly one when it is ASCII |
| Text.Encode | urest/http/response.py:206-243 | `encode()` gives at least one and at most four octets per character; EncodedLength, EncodeAppend and EncodeEach relate it to the text |
| Text.EncodeAppend | urest/http/response.py:206-243 | encoding a concatenation is concatenating the encodings |
| Text.EncodeEach | urest/http/response.py:206-243 | encoding each write separately yields the encoding of all the text written |
| Text.EncodedLength | urest/http/response.py:226-243 | a string encodes to at least one octet per character, and to exactly one per character iff it is ASCII |
| HttpResponse.BodyText | urest/http/response.py:114-117 | the stored body text is the argument when it is a `str`, and "" otherwise, `None` included |
| HttpResponse.New | urest/http/response.py:61-125 | construction succeeds iff the status is in `HTTPStatus`, else `ValueError`; a non-string or `None` body becomes ""; a missing header mapping becomes empty; mimetype and close are kept |
| HttpResponse.Default | urest/http/response.py:61-68 | the default response is the one the constructor builds from its default arguments |
| HttpResponse.SetBody | urest/http/response.py:139-144 | the body setter stores a string and "" for anything else, touching no other field |
| HttpResponse.SetStatus | urest/http/response.py:156-163 | the status setter accepts exactly the `HTTPStatus` names; otherwise `ValueError` and the object unchanged; the invariant is preserved |
| HttpResponse.StatusLine | urest/http/response.py:204-223 | the line chosen is one of the four status lines, and it is the 200 line exactly when "OK" occurs in the status; StatusLineSelection narrows this under the invariant |
| HttpResponse.StatusLineSelection | urest/http/response.py:204-223 | under the invariant, `OK` and `NOT_OK` both select the 200 line and `NOT_FOUND` the 404 line; the 400 and 500 lines are unreachable |
| HttpResponse.OkTest | urest/http/response.py:204 | "OK" occurs in both `OK` and `NOT_OK`, so both select the 200 line |
| HttpResponse.NotFoundTests | urest/http/response.py:204-217 | `NOT_FOUND` passes neither the "OK" nor the "NOT_OK" test, and passes its own, so it selects the 404 line |
| HttpResponse.ContentLengthLine | urest/http/response.py:226 | the Content-Length line ends in LF; ReadContentLength reads the body's length back from it |
| HttpResponse.ConnectionLine | urest/http/response.py:237-240 | the `Connection: close` line is written exactly when the flag is set, `Connection: keep-alive` otherwise; ReadConnection reads the flag back |
| HttpResponse.HeaderLine | urest/http/response.py:234 | an extra field's line starts with the key, adds the two characters of `: ` and the value, and ends in LF |
| HttpResponse.HeaderLines | urest/http/response.py:232-234 | one `key: value` line per extra field, in the mapping's order |
| HttpResponse.MimetypeFailureCases | urest/http/response.py:204-210 | under the invariant, `send` fails on the mimetype exactly when the status is not `NOT_FOUND` and a mimetype is set |
| HttpResponse.Writes | urest/http/response.py:204-243 | the status line comes first; with a mimetype in the 200 branch, `AttributeError` right after it; otherwise Content-Length, the fixed Content-Type, the extra fields in order, exactly one Connection line chosen by the flag, and the blank line with the body |
| HttpResponse.Send | urest/http/response.py:169-246 | the octets written are the UTF-8 encoding of the concatenated lines, and `send` stops exactly where the line sequence does |
| DraftHttpResponse.New | http/response.py:25-53 | the draft constructor succeeds iff the status is in `HTTPStatus`, else `ValueError`; a non-string or `None` body becomes ""; mimetype and close are kept as given; a missing header mapping becomes empty |
| DraftHttpResponse.SetBody | http/response.py:65-70 | the draft body setter stores a string, and "" for `None` or a non-string; status, mimetype, close and header are left unchanged |
| DraftHttpResponse.SetStatus | http/response.py:78-85 | the draft status setter raises `ValueError` and changes nothing for an unknown name |
| DraftHttpResponse.Send | http/response.py:91-141 | the draft writes text whose UTF-8 encoding is exactly what the final version writes; it fails iff the status is not `NOT_FOUND` and a mimetype is set |
| DraftHttpResponse.LineEnd | http/response.py:99-138 | the reader finds the first LF, or the end of the text |
| DraftHttpResponse.SendText | http/response.py:99-138 | a completed `send` writes the status line, Content-Length, the fixed Content-Type, the extra fields, the Connection line and the body, in that order |
| DraftHttpResponse.FirstLine | http/response.py:99-121 | a line ending in its only LF is read as the first line of any text that starts with it |
| DraftHttpResponse.StatusLineOf | http/response.py:101-118 | "HTTP/1.1 ", three digits and a reason phrase read back as that code |
| DraftHttpResponse.Read200 | http/response.py:101 | the 200 line is one line, read as code 200 |
| DraftHttpResponse.Read404 | http/response.py:114 | the 404 line is one line, read as code 404 |
| DraftHttpResponse.ReadContentLength | http/response.py:121 | the Content-Length line is one line, and it declares the body's length |
| DraftHttpResponse.ContentLengthCountsCharacters | http/response.py:121-138 | the length the reader finds on the Content-Length line is the body's character count; it equals the number of body octets iff the body is ASCII, and is never larger |
| DraftHttpResponse.ReadTail | http/response.py:138 | the text ends with the blank line's LF, the body and a final LF |
| DraftHttpResponse.ReadConnection | http/response.py:132-135 | the Connection line gives the close flag back |
| DraftHttpResponse.ReadBodyAndClose | http/response.py:132-138 | the reader takes the declared number of characters before the final LF as the body, and the flag from the Connection line |
| DraftHttpResponse.ReadLines | http/response.py:99-121 | the reader takes the code from the first line and the length from the second |
| DraftHttpResponse.ReadParts | http/response.py:99-138 | a text built from a status line, a Content-Length line, further fields, a Connection line and the body reads back as code, body and flag |
| DraftHttpResponse.ReadRendered | http/response.py:99-138 | any completed rendering reads back as its code, its body and its close flag |
| DraftHttpResponse.ReadWrites | http/response.py:99-138 | a valid response in the 404 branch or without a mimetype does not fail on the mimetype, and its writes read back as code 200, or 404 for `NOT_FOUND`, with the exact body and close flag |
| DraftHttpResponse.ReadBack | http/response.py:91-141 | round trip: a valid response in the 404 branch or without a mimetype is sent in full, and the client reads 200 (404 for `NOT_FOUND`), the body and the close flag |
| RestServer.IsEmptyRequest | http/server.py:200-207 | the empty-request check compares the decoded `str` with `bytes` and never fires |
| RestServer.FindSpaceFrom | http/server.py:222 | the search returns the first space at an index in the window, or -1 when there is none |
| RestServer.FindSpace | http/server.py:222-225 | the result lies in -1..5, so the clamp to 6 never applies; it is the first space among the first six characters, or -1 |
| RestServer.SliceEnd | http/server.py:227 | Python's end index for `s[0:stop]`, negative stops counting from the end |
| RestServer.Verb | http/server.py:222-227 | the verb is an upper-cased prefix of the line: as long as the index of the first space within the first six characters, or, with no space there, the whole line but its last character; VerbIs characterises which lines give a given verb |
| RestServer.VerbIs | http/server.py:213-227 | a request line gives verb `m` iff it starts with `m` in any case and then has a space within the window or exactly one more character |
| RestServer.VerbIgnoresCase | http/server.py:222-227 | upper-casing the line first never changes the verb |
| RestServer.Classify | http/server.py:230-247 | GET gives the test page, DELETE/POST/PUT an empty body, all under `OK`; any other verb gives the invalid-request page under `NOT_OK`; no mimetype, no extra fields, close set |
| RestServer.DeleteNeedsSevenCharacters | http/server.py:213-232 | `DELETE` is recognised only on a line of exactly seven characters |
| RestServer.ShortVerbs | http/server.py:222-242 | GET, POST and PUT are recognised when followed by a space or by exactly one last character |
| RestServer.DeleteRequestLineIsInvalid | http/server.py:213-247 | a full `DELETE /led HTTP/1.1` line is answered as an invalid request |
| RestServer.GetRequestLine | http/server.py:230-236 | a full `GET /led HTTP/1.1` line gets the test page under `OK` |
| RestServer.EmptyLineIsInvalid | http/server.py:200-247 | an empty line passes the empty-request check and is answered as invalid |
| RestServer.ClassifyIgnoresCase | http/server.py:227-247 | the response depends on the request line only up to case |
| RestServer.Respond | http/server.py:230-251 | every request is answered in full with `HTTP/1.1 200 OK` and a trailing LF, and the client reads back code 200, the chosen page and a closed connection |
| RestServer.SentInFull | http/server.py:249-251 | a mimetype-free response outside the 404 branch is sent without error, starts with the 200 line and reads back after the trailing LF is removed |
| RestServer.StartsWithStatusLine | http/response.py:99-101 | the text `send` writes begins with the 200 status line |
| RestServer.FirstOfConcat | http/response.py:99-121 | the concatenated writes start with the first line written and go on past it |
| RestServer.AppendLf | http/server.py:251 | the extra LF keeps everything written before it as a prefix |
| ApiBase.Init | urest/api/base.py:81 | a fresh object's state is the empty list, not a dict |
| ApiBase.GetState | urest/api/base.py:104 | `get_state` returns the stored state as it is; SetThenGet is its partner |
| ApiBase.SetState | urest/api/base.py:123-126 | a dict becomes the whole state; anything else sets `[]` |
| ApiBase.DeleteState | urest/api/base.py:157-166 | deleting gives the constructor's state `[]` |
| ApiBase.Assign | urest/api/base.py:151 | item assignment adds or overwrites a key of a dict state, raises `TypeError` on `[]` with nothing changed, and never raises `KeyError` |
| ApiBase.UpdateState | urest/api/base.py:148-155 | key-by-key update equals the bulk merge: every key of the argument takes its value, other keys stay; a non-empty dict on `[]` raises `TypeError` with nothing changed; a non-dict sets `[]` |
| ApiBase.SetThenGet | urest/api/base.py:104-124 | after `set_state(d)` with a dict, `get_state` returns exactly `d` |
| ApiBase.SetStateIdempotent | urest/api/base.py:123-126 | setting twice is setting once |
| ApiBase.DeleteStateIdempotent | urest/api/base.py:157-166 | delete restores the initial state and is idempotent |
| ApiBase.UpdateIdempotent | urest/api/base.py:148-151 | merging the same dict twice is merging it once, from any state, the `TypeError` of `[]` included |
| ApiBase.UpdateOnFreshFails | urest/api/base.py:81-153 | on a fresh object, updating with a non-empty dict raises `TypeError` and leaves `[]` |
| ApiBase.SetThenUpdate | urest/api/base.py:123-151 | updating with the dict just set changes nothing and raises nothing |
| DraftApiBase.Init | api/base.py:53-62 | a fresh draft object has no state attribute |
| DraftApiBase.SetState | api/base.py:105-149 | the draft `set_state` stores a dict as the whole state and `[]` otherwise, like the final one |
| DraftApiBase.GetState | api/base.py:70-102 | `get_state` is declared without `self`, so calling it raises `NameError` |
| DraftApiBase.SelectorIgnored | api/base.py:105-149 | the selector never changes the result, and the draft agrees with the final `set_state` whatever the prior state |
| SimpleLed.Init | examples/simpleled.py:56-60 | construction: pin off and `led` 0, consistent |
| SimpleLed.SetState | examples/simpleled.py:62-75 | with `"led"`: the value is stored and the pin follows `value == 0`; without it: pin off and 0; a non-dict: `TypeError`, nothing changed |
| SimpleLed.GetState | examples/simpleled.py:77-78 | `get_state` reports the pin under `"led"`, 0 exactly when the stored value is `== 0` |
| SimpleLed.DeleteState | examples/simpleled.py:80-82 | delete gives the constructor's state from any state |
| SimpleLed.UpdateState | examples/simpleled.py:84-90 | update ignores its argument and toggles the LED, staying consistent |
| SimpleLed.InvariantPreserved | examples/simpleled.py:56-90 | every method keeps the pin in step with the stored value |
| SimpleLed.UpdateTwice | examples/simpleled.py:84-90 | two updates bring the reported state back |
| SimpleLed.DeleteThenPost | examples/simpleled.py:80-90 | DELETE then POST reads `{"led": 1}` |
| SimpleLed.PutThenDelete | examples/simpleled.py:62-82 | PUT of 1 then DELETE reads `{"led": 0}` |
| SimpleLed.PutIdempotent | examples/simpleled.py:62-75 | repeating a PUT changes nothing more |
| SimpleLed.PutReadsBack | examples/simpleled.py:62-78 | PUT of a value reads back 1 when it is non-zero and 0 otherwise |
| EchoServer.Init | urest/examples/echo.py:50-52 | construction: flag clear and `echo` 0, consistent |
| EchoServer.SetState | urest/examples/echo.py:54-67 | with `"echo"`: stored, with the flag set iff it is not `== 0`; without it: reset; a non-dict: `TypeError`, nothing changed |
| EchoServer.GetState | urest/examples/echo.py:69-70 | `get_state` reports the flag as a boolean, `False` exactly when the stored value is `== 0` |
| EchoServer.DeleteState | urest/examples/echo.py:72-74 | delete gives the constructor's state from any state |
| EchoServer.UpdateState | urest/examples/echo.py:76-82 | update ignores its argument; 0 becomes 1 and the flag set, anything else 0 and the flag clear |
| EchoServer.InvariantPreserved | urest/examples/echo.py:50-82 | every method keeps the flag in step with the stored value |
| EchoServer.UpdateTwice | urest/examples/echo.py:76-82 | two updates bring the reported state back |
| EchoServer.SetReadsBack | urest/examples/echo.py:54-70 | setting `v` reads back `True` iff `v` is not zero |
| EchoServer.SetIdempotent | urest/examples/echo.py:54-67 | repeating a set changes nothing more |
| PwmLed.Init | urest/examples/pwmled.py:92-100 | construction: duty 0, `desired` 0, `current` 0 |
| PwmLed.SetState | urest/examples/pwmled.py:158-180 | with `"desired"`: stored, `current` set to the opposite level, duty untouched; without it: everything 0; a non-dict: `TypeError`, nothing changed |
| PwmLed.GetState | urest/examples/pwmled.py:182-183 | `get_state` has exactly the keys `desired` and `current` |
| PwmLed.DeleteState | urest/examples/pwmled.py:185-191 | delete zeroes duty, `desired` and `current` from any state |
| PwmLed.UpdateState | urest/examples/pwmled.py:193-205 | update ignores its argument; a zero `desired` becomes 1 with `current` 0, anything else 0 with `current` 1 |
| PwmLed.CommandStartsTransition | urest/examples/pwmled.py:36-41 | right after a set of a level, or any update, `current` differs from `desired` |
| PwmLed.KeysAlwaysTheSame | urest/examples/pwmled.py:100-205 | every synchronous method keeps the key set `{desired, current}` |
| PwmLed.ResetReads | urest/examples/pwmled.py:173-191 | DELETE reads `{"current": 0, "desired": 0}`, and so does a PUT without `desired` |
| PwmLed.UpdateTwice | urest/examples/pwmled.py:193-205 | from a state in transition, two updates with no fade completing in between bring the reported state back |

## Left out

- Transport and coroutines in `dispatch_noun`, `start` and `stop` are not modelled: the `wait_for(readline)` with its timeout, `drain`, `close`, `sleep(write_timeout)`, `wait_closed`, and the handling of `TimeoutError` and `ECONNRESET`. They are asynchronous I/O. The request line enters the model as an already decoded string.
- UTF-8 decoding of the request line, and its failure on malformed input, is left out. `RestServer` starts from the decoded `str`.
- `print` logging and the `peername` lookup in `dispatch_noun` are output only.
- The `RESTServer` constructor only stores configuration and is not modelled.
- DraftApiBase.Init: the draft class derives from `ABC` and marks `get_state` and `set_state` abstract (api/base.py:44-47, 69, 104), so `APIBase()` itself raises `TypeError`, and on MicroPython the `abc` import fails. Init, SetState and GetState therefore describe the base methods as a subclass reaches them through `super()`. Instantiation and the import are not modelled.
- Text.Upper: maps only the ASCII letters. Python's `str.upper` also maps other letters, some of them to more than one character, so the model's verb for non-ASCII request lines can differ.
- Values in a state dict are integers, strings, booleans and `None`. JSON floats, lists and nested dicts are not modelled, and neither is `0.0 == 0`.
- `set_state` stores the caller's dict object itself, and `get_state` returns the live dict. The model has values, not references, so aliasing between a caller and a noun is not modelled.
- HttpResponse.New: a `header` argument that is not a mapping is not modelled. Keys and values are taken as the text an f-string makes of them.
- HttpResponse.Send: models the bytes written, not the writer's buffering or `drain`.
- The `body` and `status` getters of both response classes are plain field reads.
- `PWMLED._slow_on` and `_slow_off`, the `asyncio.Lock` and `create_task` are not modelled. These fade tasks are what later set `current` to the desired level and move the duty, so the model only shows the state between a command and the end of its fade.
- GPIO and PWM drivers are abstracted: `Pin` as the bit in `SimpleLed`, the PWM duty as a plain integer, and the frequency setting is dropped.
- example/simpleled.py is not part of this model: it is a broken earlier draft that duplicates examples/simpleled.py.
- urest/utils/network_connect.py is not part of this model: it is hardware and network setup.
- The noun registry, the mapping from path to noun, and the JSON body decoder are not part of this model, because their code is not among the files modelled.
- The test scripts are used only as evidence for the scenario lemmas (`DeleteThenPost`, `PutThenDelete`, `ResetReads`).
