# go-httpdigest in Dafny

A model of the core of `go-httpdigest`, a drop-in replacement for Go's
`net/http` client that answers HTTP Digest challenges (RFC 2617,
`qop=auth`). It has two parts:

- **The challenge engine** (`digest.go`, modelled in `digest.dfy`):
  - parsing a `WWW-Authenticate` header into a parameter map (`parseWWWAuth`);
  - building a `DigestChallenge` from a response (`ChallengeFromResponse`);
  - computing HA1, HA2 and the request-digest (`calculateChecksum`, `calculateResponse`);
  - writing the `Authorization` header into a request (`ApplyAuth`).
- **The retrying client** (`client.go`, modelled in `client.dfy`). `Client.Do`
  sends a request once. When the answer is a 401 and an `AuthHandler` is
  installed, the handler rewrites the request and the request is sent
  exactly once more.

Supporting modules:

- `go_strings.dfy` (module `GoStrings`) models the Go `strings` functions
  the engine uses: `SplitN(s, sep, 2)`, `Split`, `Join` and `Trim`.
- `go_fmt.dfy` (module `GoFmt`) models the `fmt` renderings: `%x` of a byte
  array and `%08x` of an `int16`, sign included.
- `http.dfy` (module `Http`) models the part of `net/http` that is touched:
  a response with a status and headers, and a request whose header map
  changes in place.
- `wrappers.dfy` holds `Option`.

Modelling decisions:

- **Hashing.** MD5 is an uninterpreted parameter `md5: string -> Md5Sum`
  (16 bytes). The contracts therefore say exactly which text is hashed and
  how the sum is rendered. The parameter also stands for the `[]byte(...)`
  conversion in front of each `md5.Sum` call (digest.go:72, 79, 82).
- **Strings.** A Go string is a sequence of bytes. It is modelled as a
  Dafny `string` whose characters stand for those bytes. Every separator
  and cut character the code uses (space, `,`, `=`, `:`, `"`) is ASCII, so
  splitting and trimming act on the same positions in both.
- **Nil map.** Go's nil map from `parseWWWAuth` is `None`. Reading a key
  from it, or reading a missing key, gives `""` (`Digest.Lookup`).
- **Value receiver.** `ApplyAuth` has a value receiver, so it receives the
  challenge as a Dafny value. The caller's challenge never changes. The
  header uses a copy whose `Nc` has been incremented with 16-bit
  wrap-around (`Digest.Inc16`).
- **Client.** The wrapped `http.Client` is a `Transport` object whose n-th
  send returns `script(n)` and is logged in `sent`. The `AuthHandler`
  interface is an object holding an arbitrary header-rewriting function,
  and it logs the responses it is shown.
- **Field name.** The Go field `AuthHandler` is named `Handler`, because
  `AuthHandler` already names the class.

RFC 2617 also defines `MD5-sess`, which the code does not implement. For
any algorithm other than exactly `MD5`, `calculateChecksum` returns two
empty strings and no error (digest.go:76-90). A header built from those
empty hashes is still written. The model does the same.

## Model

| member | source | states |
|---|---|---|
| GoStrings.SplitN2 | digest.go:94 | `strings.SplitN(s, sep, 2)`: one part (the whole text) exactly when `sep` is absent, otherwise the text before the first `sep` and the rest |
| GoStrings.SplitN2At | digest.go:103 | cutting `a + sep + b` with `sep` not in `a` gives exactly `[a, b]`, so later separators stay in the value |
| GoStrings.Split | digest.go:102 | `strings.Split`: at least one part, none containing the separator |
| GoStrings.JoinSplit | digest.go:102 | joining the comma-split parts with `,` gives back the original text |
| GoStrings.SplitJoin | digest.go:102 | splitting a join of separator-free parts gives back the parts |
| GoStrings.Trim | digest.go:109 | `strings.Trim`: the result neither starts nor ends with a cut character and is a contiguous run of the input |
| GoStrings.InfixWithout | digest.go:109 | a character absent from a text is absent from every contiguous run of it, so trimming never introduces a comma or `=` |
| GoStrings.TrimFrame | digest.go:109 | trimming cut characters around an already trimmed text gives exactly that text |
| GoStrings.JoinCommaSpace | digest.go:58 | joining with `, ` is joining with `,` after putting a space before every part but the first |
| GoStrings.Join | digest.go:71 | `strings.Join`: the parts with the separator between each pair; its properties are stated by `JoinSnoc`, `JoinSplit` and `JoinCommaSpace` |
| GoStrings.JoinSnoc | digest.go:61-63 | appending one more part to a join appends the separator and that part |
| GoFmt.HexBytes | digest.go:72 | `%x` of a byte array: two lower-case hex digits per byte |
| GoFmt.UnhexHexBytes | digest.go:79 | the `%x` rendering is injective: decoding it gives back the bytes |
| GoFmt.HexValueOfHex | digest.go:71 | the minimal hex rendering of `n` denotes `n` |
| GoFmt.Hex08 | digest.go:71 | `%08x` of an `int16`: 8 characters; for non-negative values 8 lower-case hex digits denoting the value, for negative values `-` and 7 hex digits denoting its magnitude |
| Digest.Binding | digest.go:103-109 | a segment contributes a binding exactly when it contains `=`; the key has no `=`; key and value are trimmed of quotes and spaces, and contain no comma when the segment has none |
| Digest.ChallengeParams | digest.go:93-113 | `parseWWWAuth` as a function on the header text: nil unless the text starts with `Digest `, otherwise the map the segments' bindings define; `ParseWWWAuth` is proved to compute it |
| Digest.ParseWWWAuth | digest.go:93-113 | the loop builds the map the bindings of the comma-separated segments define; the result is nil exactly when the header does not start with `Digest ` |
| Digest.ChallengeParamsScheme | digest.go:94-98 | a header is a Digest challenge exactly when it starts with `Digest `; its parameters come from the text after that |
| Digest.EmptyChallenge | digest.go:100-112 | `Digest ` alone yields the empty map, not nil |
| Digest.CollectStep | digest.go:102-110 | one loop iteration: a segment without `=` leaves the map unchanged, otherwise its key is stored with its value |
| Digest.CollectLastWins | digest.go:102-110 | a key is in the map exactly when some segment binds it, and its value is the one from the last such segment |
| Digest.ChallengeParamsPlain | digest.go:109 | every key and value of a parsed challenge is trimmed of quotes and spaces and has no comma, and no key has `=` |
| Http.HeaderGet | digest.go:94 | `Header.Get`: the value stored under the name, `""` when there is none |
| Digest.Lookup | digest.go:37-44 | reading `params[key]`: `""` from a nil map or for a missing key; a value read from a parsed challenge contains no comma and neither starts nor ends with a quote or a space |
| Digest.ChallengeFromResponse | digest.go:33-50 | realm, qop, nonce and opaque are copied (`""` when absent or when not a Digest challenge); the algorithm is copied when non-empty, else `MD5`; `Nc` is 0 and method and cnonce are empty |
| Digest.CalculateChecksum | digest.go:75-91 | for `MD5` exactly, HA1 and HA2 are 32 lower-case hex digits rendering md5(`user:realm:pass`) and md5(`method:path`); for every other algorithm, `MD5-sess` included, both are empty |
| Digest.CalculateResponse | digest.go:68-73 | the request-digest is 32 lower-case hex digits rendering the MD5 of the response message |
| Digest.ResponseMessage | digest.go:71 | the response message: HA1, nonce, `%08x` of nc, cnonce, qop and HA2 joined by `:` |
| Digest.ResponseMessageFields | digest.go:71 | the response message splits at `:` into exactly HA1, nonce, nc, cnonce, qop and HA2 when those three carry no colon; nc is 8 characters |
| Digest.HexPlain | digest.go:72 | a hex rendering contains no colon, comma, quote or space |
| Digest.Hex08Plain | digest.go:58 | the `nc` field contains no colon, comma, quote or space |
| Digest.Inc16 | digest.go:53 | `Nc += 1` on an `int16` is the next value modulo 2^16 |
| Digest.Render | digest.go:58 | one directive rendered as `name=value`, or `name="value"` for a quoted one |
| Digest.BaseDirectives | digest.go:58-59 | the nine directives of the format string, in order, with their quoting: username, realm, nonce, uri, cnonce, nc, qop, response, algorithm |
| Digest.AuthorizationDirectives | digest.go:58-63 | the nine directives, followed by `opaque` when the challenge's opaque is non-empty |
| Digest.AuthorizationValue | digest.go:58-63 | the header text: `Digest ` and the rendered directives joined by `, ` |
| Digest.ApplyAuth | digest.go:52-66 | only the `Authorization` entry of the request header changes; it holds the header of a copy of the challenge with `Nc` incremented, the given cnonce and the request's method, with the response computed for the request-URI |
| Digest.OpaqueSuffix | digest.go:58-63 | the nine fixed directives followed by `, opaque="…"` are the rendering of all ten directives |
| Digest.BindingOfRendered | digest.go:58 | when the name and value contain no comma and neither start nor end with a quote or a space, and the name has no `=`, a rendered `name=value` or `name="value"` directive, after an optional leading space, parses back to exactly its name and value |
| Digest.DirectivesParseBack | digest.go:58-63 | for one or more directives whose names and values contain no comma and neither start nor end with a quote or a space, and whose names have no `=`, `Digest ` and the directives joined by `, ` parse back, segment by segment, to the directives' bindings |
| Digest.PairsLookup | digest.go:109 | with distinct names, each directive's value is found under its name |
| Digest.AuthorizationDistinct | digest.go:58 | the ten directive names are distinct |
| Digest.AuthorizationParsesBack | digest.go:52-65 | when the user, the request-URI and the challenge's realm, nonce, cnonce, qop, algorithm and opaque contain no comma and neither start nor end with a quote or a space, and the response is lower-case hex, the written header, read back by the challenge parser, yields username, realm, nonce, uri, cnonce, nc, qop, response and algorithm, and has `opaque` exactly when the challenge's opaque is non-empty |
| Client.Transport.Do | client.go:22 | a send returns the next scripted outcome and logs the request as it was sent |
| Client.AuthHandler.HandleAuth | client.go:10-12 | the handler replaces the request header by its rewrite of the 401 response and the request, and logs the response |
| Client.Client.Do | client.go:21-35 | a transport error, a status other than 401 or a missing handler: one send, an unchanged request, no handler call, and the first outcome returned. Otherwise: one handler call with the first response, then a second send that sees the rewritten header, and that second outcome returned verbatim. Never more than two sends |
| Client.Retries | client.go:24-28 | the client retries exactly when the first send succeeded with status 401 and a handler is installed |
| Client.Result | client.go:24-34 | the definition `Client.Client.Do` is proved to return: the second send's outcome when the client retried, the first send's otherwise |
| Client.Client.DoWithoutHandler | client.go:28 | with no handler, `Do` sends once, leaves the request header unchanged and returns the first scripted outcome whatever its status |
| Client.Client.DoRepeatedChallenge | client.go:28-34 | when both sends are answered 401, `Do` sends exactly twice, the second send carries the handler's header, the handler is shown only the first response, and the second 401 is returned verbatim |

## Left out

- `randomNonce` (digest.go:115-129) is not modelled. It depends on `crypto/rand` and base64 encoding. The client nonce is a parameter of `Digest.ApplyAuth`.
- MD5 itself is not modelled; it is the parameter `md5`. As a result, concrete digests (such as the RFC 2617 example) are not computed.
- `net/http` header canonicalisation and multi-valued headers are not modelled. Headers are a plain map from name to one value, with names compared as written.
- `URL.RequestURI()` is not modelled. The request-URI is the request's `Uri` field.
- The real `http.Client` is not modelled (connections, redirects, timeouts). It is replaced by the scripted `Transport`.
- Re-reading a request body on the second send is not modelled. Requests carry no body.
- Response bodies are not modelled. On a 401 with a handler, `Client.Do` replaces the first response without closing its body (client.go:28-31); the model cannot show that.
- Digest.AuthorizationParsesBack: promises no round trip for values that contain a comma or start or end with a quote or a space. The header format at digest.go:58 escapes nothing and the parser at digest.go:102-109 splits at every comma and trims quotes and spaces, so such values do not read back (a user `a,b` reads back as `a`).
- `Get`, `Head`, `Post` and `PostForm` (client.go:37-71) are not modelled. They are thin wrappers that build a request with `http.NewRequest` and URL form encoding, and then call `Do`.
- No concrete `AuthHandler` is modelled. None is part of these files, and the model does not connect `DigestChallenge` to the handler.
