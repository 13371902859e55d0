# coolstreambot webhook core, modelled in Dafny

This project models the request handling of `twitch.go` in coolstreambot, a
small HTTPS server that takes Twitch EventSub webhook deliveries and turns
channel-point rewards into actions on the streamer's desk. It covers four
pieces:

- **Header extraction** (`getCoolHeader`). A header is usable only when it is
  present exactly once.
- **Signature verification** (`verifyWebhook`). The signature header has the
  form `<algorithm>=<hex digest>`. The digest is decoded with
  `hex.DecodeString`, and the algorithm is one of `sha1`, `sha256`, `sha384`
  or `sha512`. Each candidate key is then tried in order: its HMAC over
  message id ++ timestamp ++ body is compared with the digest.
- **The request state machine** (`handleWebhook`). A request that fails
  verification gets a fixed placeholder body. A missing message-type header
  or a payload that does not decode ends the request silently. The endpoint
  handshake echoes its challenge. A notification is routed on its reward
  title.
- **Reward parameters and the scrollo cache.**
  - `lights`: a number comes from `strconv.ParseUint`, or from the CRC-32 of
    the input when parsing fails. The bulb index and hue are derived from
    that number.
  - `SimpBucks Premium`: the sound file depends on a random draw.
  - `scrollo`: a content-addressed cache file is named by the decimal CRC-32
    of the text. It is created with decorated text when absent, and then
    hard-linked to `scrollo.txt`.

Layout, one module per file:

| file | module | what |
|---|---|---|
| base.dfy | Base | `Option`, `Result`, bytes, the UTF-8 encoding of Go's `[]byte(s)` |
| hex.dfy | Hex | `hex.DecodeString` and hex encoding |
| crc32.dfy | Crc32 | the IEEE CRC-32 of `crc32.NewIEEE`, computed bit by bit |
| decimal.dfy | Decimal | `strconv.ParseUint(s, 10, 64)` and `strconv.FormatUint(x, 10)` |
| headers.dfy | Headers | the header multimap and `getCoolHeader` |
| signature.dfy | Signature | `verifyWebhook` |
| rewards.dfy | Rewards | the reward router, the `lights` arithmetic and the sound choice |
| filesystem.dfy | Files | a file system of names and file identities, as pure transitions and as a class |
| scrollo.dfy | Scrollo | the scrollo cache and link sequence |
| webhook.dfy | Webhook | `handleWebhook` |

Modelling choices:

- **Strings.**
  - Header values and the request body are Go strings or byte slices, so
    they are `Bytes` (a sequence of octets).
  - Strings from the JSON payload are Dafny `string` values. The JSON decoder
    only produces valid UTF-8, which is exactly a sequence of Unicode scalar
    values. `[]byte(s)` on them is `Base.Utf8`.
  - `%.256s` keeps 256 runes, which is 256 Dafny characters.
- **Constants.** The ASCII texts the code compares bytes with (algorithm names, message types, the placeholder) are byte sequences built by `AsciiBytes`. A lemma ties each one to `Utf8` of its text.
- **HMAC.** HMAC over the SHA family is the parameter `mac: (HashAlg, Bytes,
  Bytes) -> Bytes`, and `hmac.Equal` is sequence equality. Every property
  about verification therefore holds for any HMAC implementation.
- **Random draw.** The value of `rand.Intn(10)` is the parameter `draw`, with
  `draw < 10`.
- **Secrets.** The two secrets read with `os.Getenv` are the parameters
  `domSecret` and `subSecret`.
- **JSON decoding.** The decoder's result is the parameter `decoded`. It is
  `None` when decoding fails.
- **Actions.** The bulb call and the launched commands cannot be seen from
  here. They are returned as a value (`Rewards.Action`): target bulb, HSBK
  values and duration for `lights`; program, arguments and environment for
  the three commands.
- **Filesystem.**
  - The file system maps names to file identities, and identities to
    contents. Two names bound to one identity are hard links.
  - Refusals the model cannot predict (permissions, a missing
    `.scrollocache` directory, a full disk) are boolean `Faults`, one per
    system call.
  - Cache file content is kept as the Dafny string that is written. On disk
    it is the UTF-8 encoding of that string.

Two points about the code that the model follows:

- `scrollo` links with `os.Link`, which never replaces an existing name. Once
  `scrollo.txt` exists, every later scrollo delivery fails at the link step
  and the link keeps its first target (`Scrollo.ExistingLinkKept`).
- `sha384` selects `sha512.New384`, which is SHA-384. The model names it
  `Sha384` and does not interpret it.

## Model

| member | source | states |
|---|---|---|
| Base.Utf8 | twitch.go:163 | Go's `[]byte(s)` (also at twitch.go:148 and 201): at least one byte per character; `Utf8Ascii` and `Utf8Append` state what it does |
| Base.Utf8Ascii | twitch.go:163 | ASCII text encodes to one byte per character, each equal to the character's code |
| Base.Utf8Append | twitch.go:163 | the bytes of a concatenation are the concatenation of the bytes |
| Headers.GetCoolHeader | twitch.go:47-56 | succeeds iff the name is present with exactly one value, and then returns that value; an absent name is `MissingHeader(name)`, any other count of values is `TooManyHeaders` |
| Signature.SplitAtFirst | twitch.go:64-68 | two parts exactly when the header holds `=`; the parts rebuild the header around the first `=`, and the first part holds no `=` |
| Signature.SplitAtFirstUnique | twitch.go:64-70 | the split of `a ++ "=" ++ b` with no `=` in `a` is `(a, b)`, so the algorithm name and hex digest are recovered exactly |
| Hex.Decode | twitch.go:71-75 | succeeds iff the text has even length and only hex digits of either case, and then yields one byte per digit pair (`Pairs`) |
| Hex.DecodeBytes | twitch.go:71-75 | on accepted text the result has half the length, and byte `j` is digit `2j` times 16 plus digit `2j+1` |
| Hex.DecodeEncode | twitch.go:71-75 | decoding the lower-case or upper-case hex text of any bytes gives those bytes back; the lower-case case is what `hex.EncodeToString` produces |
| Signature.SelectAlgorithm | twitch.go:77-90 | an algorithm is returned only when the header text is exactly its name, and none is returned only when the text is none of the four names |
| Signature.SelectAlgName | twitch.go:78-86 | each of `sha1`, `sha256`, `sha384`, `sha512` selects its own algorithm |
| Signature.AlgBytesText | twitch.go:78-86 | the bytes the header is compared with are Go's `[]byte` of the four case labels |
| Signature.ParseSignedMessage | twitch.go:59-102 | a parsed message exists only when the signature, timestamp and id headers each occur once, the signature header splits at its first `=` into the bytes of the algorithm's name and hex text that `Hex.Decode` turns into the digest; its message is id ++ timestamp ++ body. `ParseSignedMessageComplete` is the converse |
| Signature.ParseSignedMessageComplete | twitch.go:59-102 | when the three headers occur once, the signature header splits at `=` into an algorithm's name and text that `Hex.Decode` accepts, the message is parsed with that algorithm, that digest and id ++ timestamp ++ body |
| Signature.Verified | twitch.go:59-113 | a verified request has a parsed signed message and a non-empty key list; `SignedRequestVerifies` is the converse: every request whose three headers occur once, whose algorithm name is one of the four and whose hex text (in any mix of cases) decodes to the HMAC under one of the keys verifies |
| Signature.VerifyWebhook | twitch.go:58-113 | the verdict equals `Verified`: the headers parse and some candidate key's HMAC over id ++ timestamp ++ body equals the decoded digest |
| Signature.MatchKeys | twitch.go:103-113 | the key loop returns true iff some key in the list reproduces the digest |
| Signature.SignedRequestVerifies | twitch.go:58-113 | a request carrying single timestamp and id headers and `<alg>=<hexText>`, where `hexText` in any mix of upper- and lower-case digits decodes to HMAC(alg, k, id ++ ts ++ body) for some `k` among the keys, verifies |
| Signature.SignedRequestVerifiesInCase | twitch.go:58-113 | in particular the all-lower-case text of `hex.EncodeToString`, or its all-upper-case form, of that HMAC verifies |
| Signature.NoKeysRejected | twitch.go:103-113 | an empty key list never verifies |
| Signature.NoSeparatorRejected | twitch.go:64-68 | a signature header without `=` is rejected |
| Signature.BadHexRejected | twitch.go:71-75 | a digest that is not even-length hex is rejected |
| Signature.UnknownAlgorithmRejected | twitch.go:77-90 | a name other than the four algorithm names is rejected |
| Signature.MissingHeaderRejected | twitch.go:58-102 | a missing or repeated signature, timestamp or id header is rejected |
| Signature.KeyOrderIrrelevant | twitch.go:103-113 | the verdict depends only on which keys occur in the list, not on their order or repeats |
| Signature.KeyPermutationIrrelevant | twitch.go:103-113 | permuting the key list never changes the verdict |
| Crc32.Checksum | twitch.go:162-164 | the checksum is the register after writing the data from 0xFFFFFFFF, inverted, and is the same when the data is written in two parts split anywhere (as `hasher.Write` allows); `CheckValue` pins the polynomial and bit order |
| Crc32.UpdateAppend | twitch.go:162-164 | writing `a` then `b` into the CRC register equals writing `a ++ b` |
| Crc32.CheckValue | twitch.go:162-164 | the model gives the IEEE CRC-32 check value 0xCBF43926 for `123456789` |
| Decimal.ParseDigits | twitch.go:160 | the digit loop succeeds iff every byte is an ASCII digit and the value stays within 2^64 - 1, and then yields that value; an overflowing run of digits is a range error |
| Decimal.ParseUint | twitch.go:160 | succeeds iff the input is a non-empty run of ASCII digits (no sign, no underscore, no prefix) whose value is at most 2^64 - 1, and then returns that value; empty input is a syntax error |
| Decimal.FormatUint | twitch.go:202 | non-empty decimal digits with no leading zero |
| Decimal.ParseFormat | twitch.go:202 | parsing the decimal text of any 64-bit value gives the value back |
| Decimal.FormatInjective | twitch.go:202 | distinct 64-bit values have distinct decimal texts |
| Rewards.LightsNumber | twitch.go:160-165 | the derived number always fits in 64 bits; `LightsNumberExact` states it exactly |
| Rewards.LightsNumberExact | twitch.go:160-165 | when the input's bytes are a non-empty run of ASCII digits (leading zeros allowed, so `007` gives 7) whose value is at most 2^64 - 1, the number is that value; in every other case, including an all-digit input that overflows, it is the CRC-32 of the bytes |
| Rewards.LightsNumberOfDecimal | twitch.go:160-165 | decimal text of a 64-bit value yields exactly that value |
| Rewards.LightsNumberOfText | twitch.go:160-165 | empty input, or input holding any character other than an ASCII digit, yields the CRC-32 of its UTF-8 bytes |
| Rewards.WhichBulb | twitch.go:166-167 | the bulb index `(n / 65535) % 2` is always 0 or 1 |
| Rewards.Uint16 | twitch.go:170 | the `uint16` conversion is below 2^16 and is the identity on values below 2^16 |
| Rewards.Lights | twitch.go:166-176 | hue is `n % 65535`, so always below 65535 and not truncated by `uint16`; the bed bulb is chosen iff `(n / 65535) % 2 == 0`; saturation and brightness 65535, 3200 K, duration 1 |
| Rewards.SmallNumberOnBedBulb | twitch.go:166-168 | a number below 65535 goes to the bed bulb with hue equal to the number |
| Rewards.LightsHundred | twitch.go:159-176 | `lights` with input `100` gives hue 100 on the bed bulb |
| Rewards.SimpSound | twitch.go:190-194 | the sound is `bark.mp3` iff the draw is 5, and `woof.mp3` otherwise |
| Rewards.Route | twitch.go:159-227 | no action iff the title is none of the five reward titles; otherwise the branch of the one title it equals: the light command, `killall obs`, `./silencethot.sh`, `play <sound>` with `AUDIODEV=hw:1,0` appended to the environment, or the scrollo text |
| Rewards.SimpBucksSound | twitch.go:189-198 | SimpBucks launches `play` with `bark.mp3` iff the draw is 5, else `woof.mp3`, in the inherited environment plus `AUDIODEV=hw:1,0` |
| Rewards.TitlesAreCaseSensitive | twitch.go:159-199 | `Lights` and `Scrollo` dispatch nothing |
| Files.StatOf | twitch.go:204 | `os.Stat` says the file exists only when the name is bound, is a not-exist error only when it is not, and fails otherwise |
| Files.CreateIn | twitch.go:206 | `os.Create` binds the path to an empty file; for an absent path that file is new and no existing file changes; an existing path keeps its file and every name, only that file is emptied, so the truncation shows through every hard link to it; a refusal changes nothing |
| Files.WriteIn | twitch.go:212 | `WriteString` appends the text to the file and touches no name; a refusal changes nothing |
| Files.LinkIn | twitch.go:222 | `os.Link` succeeds iff the old name exists and the new one does not, and then binds the new name to the same file; it never replaces an existing name |
| Files.FileSystem.Stat | twitch.go:204 | the method returns `StatOf` of the current state |
| Files.FileSystem.Create | twitch.go:206 | the new state and result are those of `CreateIn` |
| Files.FileSystem.WriteString | twitch.go:212 | the new state and result are those of `WriteIn` |
| Files.FileSystem.Link | twitch.go:222 | the new state and result are those of `LinkIn` |
| Scrollo.CacheKey | twitch.go:200-202 | the key reads back with `strconv.ParseUint` as exactly the CRC-32 of the text's bytes; `OneEntryPerChecksum` adds that distinct checksums give distinct keys |
| Scrollo.CachePath | twitch.go:200-203 | the path starts with `.scrollocache/` and is never `scrollo.txt`; `CachePathKey` states the rest |
| Scrollo.CachePathKey | twitch.go:200-203 | what follows `.scrollocache/` is the key, and it parses back as the CRC-32 of the text's bytes |
| Scrollo.Render | twitch.go:212 | the written text is a space, the first 256 characters of the text (all of it when shorter), then ` ✨✨✨ `, and is 6 characters longer than that prefix |
| Scrollo.CacheAndLinkIn | twitch.go:204-226 | the scrollo branch on a snapshot keeps the file system well formed; what it does to names, files and the link is stated by `ExistingFilesKept`, `AbsentEntryCreated`, `PresentEntryUnchanged`, `NoLinkBeforeEntry`, `SuccessLinksEntry`, `ExistingLinkKept` and `FailedWriteLeavesEmptyEntry` |
| Scrollo.Prefix | twitch.go:212 | at most 256 leading characters, equal to the whole text when it is no longer |
| Scrollo.CacheAndLink | twitch.go:199-226 | stat, create-if-absent, write, then link, with the early returns of the source, applied to the file system object |
| Scrollo.ExistingFilesKept | twitch.go:204-226 | no existing name is lost or rebound, and no existing file's content changes: cache entries are written once |
| Scrollo.AbsentEntryCreated | twitch.go:204-216 | an absent entry is created with content `" " ++ first 256 characters ++ " ✨✨✨ "` |
| Scrollo.PresentEntryUnchanged | twitch.go:204-222 | an existing entry keeps its content |
| Scrollo.RepeatIdempotent | twitch.go:199-226 | a second delivery of the same text leaves its entry as the first delivery left it |
| Scrollo.NoLinkBeforeEntry | twitch.go:204-221 | a stat, create or write failure leaves `scrollo.txt` and every name other than the cache path as they were |
| Scrollo.SuccessLinksEntry | twitch.go:222-226 | on success `scrollo.txt` was absent before and is now the same file as the cache entry, and no other name changed |
| Scrollo.ExistingLinkKept | twitch.go:222-226 | while `scrollo.txt` exists every scrollo delivery fails and the link keeps its target |
| Scrollo.FailedWriteLeavesEmptyEntry | twitch.go:206-216 | a refused write leaves an empty cache entry behind |
| Scrollo.OneEntryPerChecksum | twitch.go:200-203 | two texts share a cache path iff their checksums are equal |
| Scrollo.FirstIntoEmptyCache | twitch.go:199-226 | any text into an empty file system, with no refusals, succeeds, creates its entry holding the rendered text, and links `scrollo.txt` to that entry |
| Scrollo.FirstDelivery | twitch.go:199-226 | the same scenario run by `CacheAndLink` on a new `FileSystem` object: success, and the cache entry and `scrollo.txt` both read back as the rendered text |
| Scrollo.RenderHello | twitch.go:212 | `hello` is cached as ` hello ✨✨✨ ` |
| Webhook.PlaceholderText | twitch.go:126 | the placeholder body is the bytes of `you're my good puppy\n` |
| Webhook.CallbackTypeText | twitch.go:146 | the handshake type compared with is the bytes of `webhook_callback_verification` |
| Webhook.NotificationTypeText | twitch.go:155 | the notification type compared with is the bytes of `notification` |
| Webhook.Respond | twitch.go:124-234 | an unverified request gets the placeholder and no action; an action comes only with a verified request, a decoded payload, a single `notification` type header and an empty body; the lemmas below state each branch |
| Webhook.Dispatch | twitch.go:199-226 | a scrollo action changes the file system as `CacheAndLinkIn` does; every other action leaves it unchanged |
| Webhook.HandleWebhook | twitch.go:116-235 | the reply is `Respond` with the two secrets as keys; a scrollo action changes the file system as `CacheAndLinkIn` does, and any other request leaves it unchanged |
| Webhook.UnverifiedGetsPlaceholder | twitch.go:124-132 | a request that fails verification gets exactly `you're my good puppy\n` and no action |
| Webhook.CallbackEchoesChallenge | twitch.go:146-154 | a verified `webhook_callback_verification` gets exactly the challenge as its body and no action |
| Webhook.NotificationRoutes | twitch.go:155-157 | a verified `notification` with a decoded payload dispatches `Route` of its reward title |
| Webhook.ActionOnlyForNotification | twitch.go:134-235 | an action implies a verified request, a single `notification` type header, a decoded payload with one of the five titles, and an empty body |
| Webhook.SilentEnds | twitch.go:134-145 | a bad message-type header, an undecodable payload, or any other type gives an empty body and no action |
| Webhook.LightsHundredNotification | twitch.go:155-176 | a verified `lights` notification with input `100` sets hue 100 on the bed bulb |

## Left out

- Reading the request body and response write errors (twitch.go:117-121, 126-131, 148-152): I/O. The response is returned as a value.
- JSON decoding (twitch.go:140-145): the decoder's result is the input `decoded`.
- SHA-1, SHA-2 and HMAC internals, and the constant-time comparison of `hmac.Equal`: library primitives, and timing cannot be expressed. `mac` is a parameter.
- The `errgroup` concurrency and `Wait` (twitch.go:158, 184-198, 228-231): concurrency. A launched command is recorded as an `Action`. Its outcome, and the outcome of `SetColorState`, is only logged by the source.
- `exec.Command` execution, the contents of `os.Environ()`, and the LIFX `SetColorState` call: foreign calls. Only what is requested is recorded.
- `math/rand` (twitch.go:190): the draw is a parameter in [0, 10).
- Logging, and the secrets read with `os.Getenv` (twitch.go:123): the secrets are parameters.
- `main` (twitch.go:237-261): bulb discovery, fatal exits and the TLS listener are device and startup I/O.
- The race between `os.Stat` and `os.Create` on the cache file: concurrency. Only the sequential behaviour is modelled.
- `defer f.Close()` (twitch.go:211): the source ignores its error, and closing changes no modelled state.
- The `.scrollocache` directory and path cleaning are not modelled as such. A missing directory is a `create` fault. `filepath.Join` is concatenation, because the key is a non-empty run of digits.
- Header-name canonicalisation by `net/http`: the source looks headers up by their canonical names, and the model looks them up by exact name.
- Files.WriteIn: a partial write by `WriteString` is modelled as a refused write that leaves the file empty.
- Decimal.ParseUint: the contract fixes the error kind only for empty input (syntax) and for all-digit input that overflows (range). For other inputs it says only that parsing fails. The source only tests whether there was an error.
