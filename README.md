# request_forwarder: the `/v1/forward` request gate

A Dafny model of the logic in `request_forwarder.go` that decides what the
`/v1/forward` handler does with a request. The handler:

- derives the key of the day from the current UTC date. It formats the date as
  `YYYY-MM-DD` (Go's `time.DateOnly`), takes the bytes of that string and
  encodes them with unpadded standard base64 (`base64.RawStdEncoding`, the
  alphabet of RFC 4648 section 4 without the padding of section 3.2);
- compares the caller's `X-Request-Key` with that key;
- checks the method against the case-sensitive allow-list `GET`, `POST`, `PUT`;
- checks that the URL is not empty;
- calls the forward function with the method, the URL, a fixed header map
  `{Content-Type: application/json, Authorization: 123}` and the inbound body;
- answers 400 `{"error": "1"}` when the forward call fails, and otherwise 200
  with the upstream content type and bytes.

The model is pure: functions over values, and lemmas about them.

| file | module | what it holds |
|---|---|---|
| `wrappers.dfy` | `Wrappers` | `Option`, and `byte` as an integer in 0..255 |
| `datestamp.dfy` | `DateStamp` | dates, Go's `appendInt` zero-padding, the stamp, a parser that reads it back, the next day |
| `utf8.dfy` | `Utf8` | the bytes of a string (`[]byte(s)`), as UTF-8 |
| `base64.dfy` | `Base64` | the unpadded base64 encoder over 3-byte groups, and a canonical decoder as its partner |
| `forwarder.dfy` | `Forwarder` | the validators, the key, the chain of checks, the response, and the gate properties |

The date, which the program reads from the clock, is a parameter (`today`).
The forward call is an abstract `Outcome`: either `Failed`, or
`Fetched(contentType, body)`. The three forwarding headers arrive as strings
in a `ForwardInfo`, where a missing header is the empty string, together with
the bytes of the inbound body.

The key is derived from the date alone (request_forwarder.go:135-139), and
every forward call gets the same fixed header map (request_forwarder.go:91-94).
`Strict()` on the encoding changes only how Go decodes, so it has no effect on
the key.

## Model

| member | source | states |
|---|---|---|
| `Forwarder.IsValidURL` | request_forwarder.go:119-125 | a URL is accepted exactly when it is non-empty |
| `Forwarder.IsValidMethod` | request_forwarder.go:127-133 | a method is accepted exactly when it is one of `GET`, `POST`, `PUT`; an accepted method is 3 or 4 upper-case ASCII letters |
| `Forwarder.MethodCaseSensitive` | request_forwarder.go:127-133 | the match is case-sensitive: a method with any character that is not an upper-case letter is refused; `DELETE`, `get` and `Post` are refused |
| `DateStamp.Padded` | request_forwarder.go:136 | the digits of a magnitude zero-padded to width w read back as the magnitude; they take at least one and at least w characters, exactly w when w >= 1 and the value is below 10^w, and more than w when the value is 10^w or larger; a result longer than w has no leading zero (it is `0` or starts with a non-zero digit) |
| `DateStamp.FormatInt` | request_forwarder.go:136 | Go's `appendInt`: a non-negative value is written as decimal digits that read back as the value; a negative one as `-` followed by the digits of its magnitude; at least `width` characters, exactly `width` when 0 <= x < 10^width and width >= 1, and more than `width` when x >= 10^width; a negative value has at least `width` digits after its sign; digits beyond the padding never start with zero, unless the value is 0 |
| `DateStamp.PaddedUnique` | request_forwarder.go:136 | any digit string that reads back as n, has at least w and at least one character, and has no leading zero beyond the padding is exactly `Padded(n, w)`: the contract determines Go's padded digits |
| `DateStamp.FormatIntUnique` | request_forwarder.go:136 | any string with the shape `FormatInt`'s contract states (sign, padded magnitude, no extra leading zero) is exactly `FormatInt(x, width)`, for negative values and values wider than the field as well |
| `DateStamp.FormatIntExamples` | request_forwarder.go:136 | at the edges of the padding: -5 in width 4 is `-0005`, 12345 in width 4 is `12345`, 0 in width 0 is `0` |
| `DateStamp.Format` | request_forwarder.go:136 | the `DateOnly` stamp of any date is only digits and hyphens and at least 10 characters; for a year in 0..9999 it is exactly 10, with `-` at indices 4 and 7 and digits elsewhere; a year past 9999 makes it longer |
| `DateStamp.StampShape` | request_forwarder.go:136 | for a year in 0..9999 the stamp has 10 characters, `-` at indices 4 and 7, decimal digits elsewhere, and parses back to the same year, month and day |
| `DateStamp.StampInjective` | request_forwarder.go:136 | different dates in years 0..9999 have different stamps |
| `Utf8.EncodeChar` | request_forwarder.go:137 | a character becomes 1 to 4 bytes, and a single byte equal to its code exactly when it is ASCII |
| `Utf8.Encode` | request_forwarder.go:137 | `[]byte(s)` of a string of n characters has between n and 4n bytes, and for an ASCII string exactly one per character, equal to its code |
| `Utf8.EncodeAppend` | request_forwarder.go:137 | the bytes of a concatenation are the bytes of the parts, in order |
| `Utf8.AsciiInjective` | request_forwarder.go:137 | two ASCII strings with the same bytes are equal |
| `Base64.Encode` | request_forwarder.go:138 | the encoding of n bytes has ceil(8n/6) characters, all from `A-Z a-z 0-9 + /`, and no `=` |
| `Base64.Decode` | request_forwarder.go:138 | the canonical decoder for the key's encoding yields 6/8 of the characters' count in bytes, rounded down |
| `Base64.DigitValue` | request_forwarder.go:138 | an alphabet character stands for a 6-bit value whose character is itself |
| `Base64.DecodeEncode` | request_forwarder.go:138 | decoding the encoding of any byte string gives it back |
| `Base64.EncodeDecode` | request_forwarder.go:138 | every string the decoder accepts is the encoding of what it decodes to |
| `Base64.EncodeInjective` | request_forwarder.go:138 | different byte strings have different encodings |
| `Base64.TestVectors` | request_forwarder.go:138 | the unpadded test vectors of RFC 4648 section 10: `f` is `Zg`, `fo` is `Zm8`, `foo` is `Zm9v`, `foobar` is `Zm9vYmFy` |
| `Forwarder.StampAscii` | request_forwarder.go:136-137 | the stamp of every date is ASCII, so its byte string has one byte per character |
| `Forwarder.CurrentKey` | request_forwarder.go:135-139 | the key of a date uses only the base64 alphabet, has no `=`, has at least 14 characters, and decodes to the bytes of the date's stamp |
| `Forwarder.KeyShape` | request_forwarder.go:135-139 | for a year in 0..9999 the key has 14 characters, all from the base64 alphabet, no `=`, and decodes to the bytes of the stamp |
| `Forwarder.KeyInjective` | request_forwarder.go:135-139 | different dates in years 0..9999 have different keys |
| `Forwarder.KeyExpiresNextDay` | request_forwarder.go:71-78 | for every valid date in years 0..9999, including 9999-12-31, whose next day has a five-digit year, that day's key is refused as `invalid key` with 400 the next day, whatever the method, URL and outcome |
| `Forwarder.KeyExample` | request_forwarder.go:135-139 | the key of 2024-01-01 is `MjAyNC0wMS0wMQ` |
| `Forwarder.Check` | request_forwarder.go:75-95 | the checks short-circuit in order: a wrong key gives `invalid key` whatever else; `invalid method` exactly when the key matches and the method is not allowed; `invalid url` exactly when key and method pass and the URL is empty; the forward call is made exactly when all three pass, with the request's method, URL and body and the fixed header map |
| `Forwarder.Relay` | request_forwarder.go:95-104 | a failed forward gives 400 `{"error": "1"}`; a successful one gives 200 with the upstream content type and bytes unchanged |
| `Forwarder.Respond` | request_forwarder.go:75-104 | a rejection is a 400 JSON error with its reason, and otherwise the outcome is relayed; raw bytes (200, upstream content type and bytes) are written exactly when the key matches, the method is allowed, the URL is non-empty and the forward succeeds; every JSON error is a 400 with one of the four messages, and a wrong key gives `invalid key` |
| `Forwarder.Handle` | request_forwarder.go:71-104 | on a given date, raw bytes are written (200, upstream content type and bytes) exactly when the key is that date's, the method is allowed, the URL is non-empty and the forward call succeeds; every other response is a 400 JSON error, and a wrong key gives `invalid key` |
| `Forwarder.WrongKeyRefused` | request_forwarder.go:75-78 | a key that differs from the current key gives 400 `invalid key` for every method, URL and outcome |
| `Forwarder.RejectionIgnoresOutcome` | request_forwarder.go:75-95 | when any check fails, the response is a 400 JSON error that does not depend on the forward outcome: the forward call is not made |
| `Forwarder.DeleteAndEmptyURLRefused` | request_forwarder.go:79-86 | `DELETE` and the empty URL never reach the forward call |
| `Forwarder.ForwardRelayed` | request_forwarder.go:87-104 | past the checks, the forward call gets the request's method, URL and body and the fixed headers; an error gives 400 `{"error": "1"}` and a success gives 200 with the upstream content type, even an empty one, and bytes |
| `Forwarder.ForwardScenario` | request_forwarder.go:71-104 | on 2024-01-01, `GET http://example.test/x` with key `MjAyNC0wMS0wMQ` forwards with exactly the headers `Content-Type: application/json` and `Authorization: 123` and relays a `text/plain` answer unchanged; the key `wrong` is refused |

## Left out

- `forwardRequest` internals (request_forwarder.go:141-169): building the request, the network call, reading the body and setting headers are library and network I/O. Only their outcome is modelled. Every error path there returns an empty content type, no bytes and an error, which the model treats as `Failed`.
- `time.Now().UTC()`: a clock read. The date is a parameter.
- `main`'s router, the `cmdline` flags, TLS and `Run`/`RunTLS` (request_forwarder.go:27-32, 51-59, 110-114): framework plumbing. The `/v1/ping` route is left out for the same reason.
- The port check (request_forwarder.go:41-46): it depends on `strconv.Atoi` and `os.Exit`, and is process start-up, not the gate.
- Header binding (request_forwarder.go:63-67): Gin's `ShouldBindHeader` is library behaviour. The model starts from `ForwardInfo`. The bind-error branch writes a response and does not return, so a second write can follow. The model has one response per request, from line 71 on.
- Logging with `fmt.Printf`: no effect on the result.
- The inbound body (request_forwarder.go:88, 95) is the stream `c.Request.Body`. The model passes it to the forward call as a byte string, so it does not capture that the stream is read once. Printing it at line 89 shows the stream object, not its bytes.
- Header values and the upstream content type are Go strings, which may hold bytes that are not valid UTF-8. The model takes them as Dafny strings of Unicode characters. The key comparison is unaffected: a key of the day is ASCII.
- The handler writes its answer through `c.JSON` and `c.Data`. The model returns the `Response` value instead, and does not render the JSON text.
- `DateStamp.StampShape`, `DateStamp.StampInjective`, `Forwarder.KeyShape`, `Forwarder.KeyInjective`: stated for years 0..9999 and days 1..31, where the stamp has the fixed 10-character shape. For every year, including negative years and years past 9999, the contract of `FormatInt` determines each field, which `DateStamp.FormatIntUnique` proves.
- `Forwarder.KeyExpiresNextDay`: stated for years 0..9999. For other years the stamps are not fixed-width, and injectivity of the key is not proved there.
- `Base64.Decode`: a canonical RFC 4648 decoder that serves as the encoder's partner. It is not Go's decoder, which also skips `\r` and `\n`. The program itself never decodes a key.
